/**
 The table of registered keys and the six-slot keyboard report built from it.
 An entry remembers who pressed the key; a macro's entries belong to nobody.
 */
module KeyTable {

  const MAX_ENTRIES: nat := 16

  /** The keycode slots of the boot keyboard report (USB HID 1.11, Appendix B.1). */
  const REPORT_SLOTS: nat := 6

  datatype Source =
    | Key(row: nat, col: nat)
    | RotaryEncoder(id: nat, direction: nat)
    | Touch(id: nat, gesture: nat)
    | Combo(index: nat)
    | Macro
    | Virtual(index: nat)
    | KeyCode(code: nat)

  /** A set of the eight modifier bits. */
  type Mods = set<nat>

  newtype HidKeyCode = x: int | 0 <= x < 256

  const NO: HidKeyCode := 0

  datatype RegisteredKey = RegisteredKey(source: Source, keycode: HidKeyCode, mods: Mods)

  /** The table in press order, and the modifiers pressed since the last fork fired. */
  datatype Table = Table(registered: seq<RegisteredKey>, keepMask: Mods)

  datatype Event = Press(source: Source, key: HidKeyCode, mods: Mods) | Release(source: Source, key: HidKeyCode, mods: Mods)

  // ----- Entries -----

  predicate IsModifier(key: HidKeyCode) {
    0xE0 <= key <= 0xE7
  }

  function HidModifiers(key: HidKeyCode): Mods {
    if IsModifier(key) then {(key - 0xE0) as int} else {}
  }

  /** How a press enters the table: a modifier key leaves its modifier bit and no keycode. */
  function Entry(source: Source, key: HidKeyCode, mods: Mods): RegisteredKey {
    RegisteredKey(source, if IsModifier(key) then NO else key, mods + HidModifiers(key))
  }

  function EntryOf(e: Event): RegisteredKey {
    Entry(e.source, e.key, e.mods)
  }

  /** Whether `event` refers to entry `k`. */
  predicate Matches(k: RegisteredKey, event: RegisteredKey) {
    if k.source.Macro? then k.keycode == event.keycode && (k.keycode != NO || k.mods == event.mods)
    else k.source == event.source
  }

  // ----- Table updates -----

  /** What `retain` leaves: the entries the event does not refer to, in order. */
  function Without(keys: seq<RegisteredKey>, event: RegisteredKey): seq<RegisteredKey> {
    if keys == [] then []
    else
      var front := Without(keys[..|keys| - 1], event);
      if Matches(keys[|keys| - 1], event) then front else front + [keys[|keys| - 1]]
  }

  function KeycodeCount(keys: seq<RegisteredKey>): nat {
    if keys == [] then 0
    else KeycodeCount(keys[..|keys| - 1]) + (if keys[|keys| - 1].keycode != NO then 1 else 0)
  }

  /** The entry once another key has been pressed after it: a keycode keeps no modifiers. */
  function Plain(k: RegisteredKey): RegisteredKey {
    if k.keycode != NO then k.(mods := {}) else k
  }

  function AllPlain(keys: seq<RegisteredKey>): seq<RegisteredKey> {
    if keys == [] then [] else AllPlain(keys[..|keys| - 1]) + [Plain(keys[|keys| - 1])]
  }

  predicate IsFull(keys: seq<RegisteredKey>, k: RegisteredKey) {
    (k.keycode != NO && KeycodeCount(keys) >= REPORT_SLOTS) || |keys| >= MAX_ENTRIES
  }

  function Register(t: Table, e: Event): Table {
    if e.key == NO && e.mods == {} then t
    else
      var k := EntryOf(e);
      var rest := Without(t.registered, k);
      if IsFull(rest, k) then t.(registered := rest)
      else Table(AllPlain(rest) + [k], if k.keycode == NO then t.keepMask + k.mods else t.keepMask)
  }

  function Unregister(t: Table, e: Event): Table {
    t.(registered := Without(t.registered, EntryOf(e)))
  }

  function Apply(t: Table, e: Event): Table {
    if e.Press? then Register(t, e) else Unregister(t, e)
  }

  function Run(t: Table, events: seq<Event>): Table {
    if events == [] then t else Apply(Run(t, events[..|events| - 1]), events[|events| - 1])
  }

  const EMPTY: Table := Table([], {})

  /** The modifiers held by modifier actions. */
  function HeldMods(keys: seq<RegisteredKey>): Mods {
    if keys == [] then {}
    else HeldMods(keys[..|keys| - 1]) + (if keys[|keys| - 1].keycode == NO then keys[|keys| - 1].mods else {})
  }

  /** The modifiers that keycode entries carry. */
  function KeycodeMods(keys: seq<RegisteredKey>): Mods {
    if keys == [] then {}
    else KeycodeMods(keys[..|keys| - 1]) + (if keys[|keys| - 1].keycode != NO then keys[|keys| - 1].mods else {})
  }

  /** The keyboard's part that the events update in place. */
  class Keys {
    var registered: seq<RegisteredKey>
    var keepMask: Mods

    ghost function View(): Table
      reads this
    {
      Table(registered, keepMask)
    }

    constructor ()
      ensures View() == EMPTY
    {
      registered, keepMask := [], {};
    }

    method Retain(event: RegisteredKey)
      modifies this`registered
      ensures registered == Without(old(registered), event)
    {
      var kept := [];
      var i := 0;
      while i < |registered|
        invariant 0 <= i <= |registered| && kept == Without(registered[..i], event)
      {
        assert registered[..i + 1][..i] == registered[..i];
        if !Matches(registered[i], event) {
          kept := kept + [registered[i]];
        }
        i := i + 1;
      }
      assert registered[..i] == registered;
      registered := kept;
    }

    method CountKeycodes() returns (n: nat)
      ensures n == KeycodeCount(registered)
    {
      n := 0;
      for i := 0 to |registered|
        invariant n == KeycodeCount(registered[..i])
      {
        assert registered[..i + 1][..i] == registered[..i];
        if registered[i].keycode != NO {
          n := n + 1;
        }
      }
      assert registered[..|registered|] == registered;
    }

    method HeldModifiers() returns (mods: Mods)
      ensures mods == HeldMods(registered)
    {
      mods := {};
      for i := 0 to |registered|
        invariant mods == HeldMods(registered[..i])
      {
        assert registered[..i + 1][..i] == registered[..i];
        if registered[i].keycode == NO {
          mods := mods + registered[i].mods;
        }
      }
      assert registered[..|registered|] == registered;
    }

    method ClearKeycodeMods()
      modifies this`registered
      ensures registered == AllPlain(old(registered))
    {
      var cleared := [];
      for i := 0 to |registered|
        invariant registered == old(registered) && cleared == AllPlain(registered[..i])
      {
        assert registered[..i + 1][..i] == registered[..i];
        cleared := cleared + [if registered[i].keycode != NO then registered[i].(mods := {}) else registered[i]];
      }
      assert registered[..|registered|] == registered;
      registered := cleared;
    }

    method RegisterKey(source: Source, key: HidKeyCode, mods: Mods)
      modifies this
      ensures View() == Register(old(View()), Press(source, key, mods))
    {
      if key == NO && mods == {} {
        return;
      }
      var k := Entry(source, key, mods);
      Retain(k);
      var keys := CountKeycodes();
      if (k.keycode != NO && keys >= REPORT_SLOTS) || |registered| >= MAX_ENTRIES {
        return;
      }
      ClearKeycodeMods();
      registered := registered + [k];
      if k.keycode == NO {
        keepMask := keepMask + k.mods;
      }
    }

    method UnregisterKey(source: Source, key: HidKeyCode, mods: Mods)
      modifies this`registered
      ensures View() == Unregister(old(View()), Release(source, key, mods))
    {
      Retain(Entry(source, key, mods));
    }

    /** Fill the six keycode slots; the invariant is what keeps the writes inside the array. */
    method BuildReport() returns (keycodes: array<HidKeyCode>, n: nat)
      requires Inv(View())
      ensures fresh(keycodes) && keycodes.Length == REPORT_SLOTS && n <= REPORT_SLOTS
      ensures keycodes[..n] == Usages(registered)
      ensures forall i :: n <= i < REPORT_SLOTS ==> keycodes[i] == NO
    {
      keycodes := new HidKeyCode[REPORT_SLOTS](_ => NO);
      n := 0;
      for i := 0 to |registered|
        invariant n <= KeycodeCount(registered[..i]) && n <= REPORT_SLOTS
        invariant keycodes[..n] == Usages(registered[..i])
        invariant forall j :: n <= j < REPORT_SLOTS ==> keycodes[j] == NO
      {
        PrefixStep(registered, i);
        KeycodeCountPrefix(registered, i + 1);
        if registered[i].keycode != NO {
          n := AddCode(keycodes, n, registered[i].keycode);
        }
      }
      assert registered[..|registered|] == registered;
    }
  }

  /** Put a usage into the next slot unless it is there already. */
  method AddCode(keycodes: array<HidKeyCode>, n: nat, code: HidKeyCode) returns (m: nat)
    requires n < keycodes.Length && forall j :: n <= j < keycodes.Length ==> keycodes[j] == NO
    modifies keycodes
    ensures m <= n + 1 && m <= keycodes.Length
    ensures keycodes[..m] == if code in old(keycodes[..n]) then old(keycodes[..n]) else old(keycodes[..n]) + [code]
    ensures forall j :: m <= j < keycodes.Length ==> keycodes[j] == NO
  {
    m := n;
    if code !in keycodes[..n] {
      keycodes[n] := code;
      m := n + 1;
    }
  }

  /** One entry more: what it adds to the count and to the usages. */
  lemma PrefixStep(keys: seq<RegisteredKey>, i: nat)
    requires i < |keys|
    ensures KeycodeCount(keys[..i + 1]) == KeycodeCount(keys[..i]) + (if keys[i].keycode != NO then 1 else 0)
    ensures Usages(keys[..i + 1]) ==
            if keys[i].keycode == NO || keys[i].keycode in Usages(keys[..i]) then Usages(keys[..i])
            else Usages(keys[..i]) + [keys[i].keycode]
  {
    assert keys[..i + 1][..i] == keys[..i];
  }

  /** The distinct keycodes of the table in press order. */
  function Usages(keys: seq<RegisteredKey>): seq<HidKeyCode> {
    if keys == [] then []
    else
      var front, k := Usages(keys[..|keys| - 1]), keys[|keys| - 1].keycode;
      if k == NO || k in front then front else front + [k]
  }

  lemma {:induction false} KeycodeCountPrefix(keys: seq<RegisteredKey>, n: nat)
    requires n <= |keys|
    ensures KeycodeCount(keys[..n]) <= KeycodeCount(keys)
    decreases |keys| - n
  {
    if n < |keys| {
      assert keys[..n + 1][..n] == keys[..n];
      KeycodeCountPrefix(keys, n + 1);
    } else {
      assert keys[..n] == keys;
    }
  }

  // ----- Invariant of the table -----

  /** No earlier entry answers to a later one's events. */
  ghost predicate NoEarlierMatch(keys: seq<RegisteredKey>) {
    forall i, j :: 0 <= i < j < |keys| ==> !Matches(keys[i], keys[j])
  }

  /** Only the last entry can be a keycode that still carries modifiers. */
  ghost predicate OnlyLastCarriesMods(keys: seq<RegisteredKey>) {
    forall i :: 0 <= i < |keys| - 1 ==> keys[i].keycode == NO || keys[i].mods == {}
  }

  ghost predicate Inv(t: Table) {
    && NoEarlierMatch(t.registered) && OnlyLastCarriesMods(t.registered)
    && KeycodeCount(t.registered) <= REPORT_SLOTS && |t.registered| <= MAX_ENTRIES
  }

  /** Filtering keeps an order-preserving subset: exactly the entries that do not match. */
  lemma {:induction false} WithoutMembers(keys: seq<RegisteredKey>, event: RegisteredKey, k: RegisteredKey)
    ensures k in Without(keys, event) <==> k in keys && !Matches(k, event)
  {
    if keys != [] {
      WithoutMembers(keys[..|keys| - 1], event, k);
      assert keys == keys[..|keys| - 1] + [keys[|keys| - 1]];
    }
  }

  lemma {:induction false} WithoutCounts(keys: seq<RegisteredKey>, event: RegisteredKey)
    ensures |Without(keys, event)| <= |keys| && KeycodeCount(Without(keys, event)) <= KeycodeCount(keys)
  {
    if keys != [] {
      var last := keys[|keys| - 1];
      var front := Without(keys[..|keys| - 1], event);
      WithoutCounts(keys[..|keys| - 1], event);
      KeycodeCountSnoc(front, last);
    }
  }

  lemma KeycodeCountSnoc(keys: seq<RegisteredKey>, k: RegisteredKey)
    ensures KeycodeCount(keys + [k]) == KeycodeCount(keys) + (if k.keycode != NO then 1 else 0)
  {
    assert (keys + [k])[..|keys|] == keys;
  }

  lemma {:induction false} WithoutNoEarlierMatch(keys: seq<RegisteredKey>, event: RegisteredKey)
    requires NoEarlierMatch(keys)
    ensures NoEarlierMatch(Without(keys, event))
  {
    if keys != [] {
      var front := keys[..|keys| - 1];
      WithoutNoEarlierMatch(front, event);
      forall i | 0 <= i < |Without(front, event)|
        ensures !Matches(Without(front, event)[i], keys[|keys| - 1])
      {
        WithoutMembers(front, event, Without(front, event)[i]);
      }
    }
  }

  lemma {:induction false} WithoutPlain(keys: seq<RegisteredKey>, event: RegisteredKey)
    requires forall k :: k in keys ==> k.keycode == NO || k.mods == {}
    ensures forall k :: k in Without(keys, event) ==> k.keycode == NO || k.mods == {}
  {
    forall k | k in Without(keys, event)
      ensures k.keycode == NO || k.mods == {}
    {
      WithoutMembers(keys, event, k);
    }
  }

  lemma WithoutOnlyLast(keys: seq<RegisteredKey>, event: RegisteredKey)
    requires OnlyLastCarriesMods(keys)
    ensures OnlyLastCarriesMods(Without(keys, event))
  {
    if keys != [] {
      var front := keys[..|keys| - 1];
      assert forall k :: k in front ==> k.keycode == NO || k.mods == {};
      WithoutPlain(front, event);
    }
  }

  lemma {:induction false} AllPlainAt(keys: seq<RegisteredKey>)
    ensures |AllPlain(keys)| == |keys|
    ensures forall i :: 0 <= i < |keys| ==> AllPlain(keys)[i] == Plain(keys[i])
    ensures KeycodeCount(AllPlain(keys)) == KeycodeCount(keys)
  {
    if keys != [] {
      var front, last := keys[..|keys| - 1], keys[|keys| - 1];
      AllPlainAt(front);
      KeycodeCountSnoc(AllPlain(front), Plain(last));
    }
  }

  lemma UnregisterInv(t: Table, e: Event)
    requires Inv(t)
    ensures Inv(Unregister(t, e))
  {
    WithoutCounts(t.registered, EntryOf(e));
    WithoutNoEarlierMatch(t.registered, EntryOf(e));
    WithoutOnlyLast(t.registered, EntryOf(e));
  }

  lemma PlainMatches(a: RegisteredKey, b: RegisteredKey)
    ensures Matches(Plain(a), Plain(b)) == Matches(a, b) == Matches(Plain(a), b)
  {
  }

  lemma PlainNoEarlierMatch(rest: seq<RegisteredKey>)
    requires NoEarlierMatch(rest)
    ensures NoEarlierMatch(AllPlain(rest))
  {
    AllPlainAt(rest);
    forall i, j | 0 <= i < j < |rest|
      ensures !Matches(AllPlain(rest)[i], AllPlain(rest)[j])
    {
      PlainMatches(rest[i], rest[j]);
      assert !Matches(rest[i], rest[j]);
    }
  }

  /** No entry left after the removal answers to the event. */
  lemma RestDoesNotMatch(keys: seq<RegisteredKey>, k: RegisteredKey)
    ensures forall i :: 0 <= i < |AllPlain(Without(keys, k))| ==> !Matches(AllPlain(Without(keys, k))[i], k)
  {
    var rest := Without(keys, k);
    AllPlainAt(rest);
    forall i | 0 <= i < |rest|
      ensures !Matches(AllPlain(rest)[i], k)
    {
      WithoutMembers(keys, k, rest[i]);
      PlainMatches(rest[i], rest[i]);
      PlainMatches(rest[i], k);
    }
  }

  lemma NoEarlierMatchSnoc(plain: seq<RegisteredKey>, k: RegisteredKey, longer: seq<RegisteredKey>)
    requires NoEarlierMatch(plain) && forall i :: 0 <= i < |plain| ==> !Matches(plain[i], k)
    requires longer == plain + [k]
    ensures NoEarlierMatch(longer)
  {
  }

  lemma OnlyLastSnoc(plain: seq<RegisteredKey>, k: RegisteredKey, longer: seq<RegisteredKey>)
    requires forall i :: 0 <= i < |plain| ==> plain[i].keycode == NO || plain[i].mods == {}
    requires longer == plain + [k]
    ensures OnlyLastCarriesMods(longer)
  {
  }

  lemma PushInv(plain: seq<RegisteredKey>, k: RegisteredKey)
    requires NoEarlierMatch(plain) && forall i :: 0 <= i < |plain| ==> !Matches(plain[i], k)
    requires forall i :: 0 <= i < |plain| ==> plain[i].keycode == NO || plain[i].mods == {}
    requires KeycodeCount(plain) <= REPORT_SLOTS && !IsFull(plain, k)
    ensures Inv(Table(plain + [k], {}))
  {
    KeycodeCountSnoc(plain, k);
    NoEarlierMatchSnoc(plain, k, plain + [k]);
    OnlyLastSnoc(plain, k, plain + [k]);
  }

  lemma RegisterInv(t: Table, e: Event)
    requires Inv(t)
    ensures Inv(Register(t, e))
  {
    UnregisterInv(t, e);
    var k := EntryOf(e);
    var rest := Without(t.registered, k);
    if !(e.key == NO && e.mods == {}) && !IsFull(rest, k) {
      AllPlainAt(rest);
      PlainNoEarlierMatch(rest);
      RestDoesNotMatch(t.registered, k);
      PushInv(AllPlain(rest), k);
    }
  }

  /** The table keeps its shape over every run of presses and releases. */
  lemma {:induction false} RunInv(t: Table, events: seq<Event>)
    requires Inv(t)
    ensures Inv(Run(t, events))
  {
    if events != [] {
      RunInv(t, events[..|events| - 1]);
      var e := events[|events| - 1];
      if e.Press? {
        RegisterInv(Run(t, events[..|events| - 1]), e);
      } else {
        UnregisterInv(Run(t, events[..|events| - 1]), e);
      }
    }
  }

  /** At most one entry per source that is not a macro. */
  lemma OneEntryPerSource(t: Table, i: nat, j: nat)
    requires Inv(t) && i < |t.registered| && j < |t.registered|
    requires t.registered[i].source == t.registered[j].source && !t.registered[i].source.Macro?
    ensures i == j
  {
  }

  // ----- Modifiers -----

  lemma {:induction false} HeldModsExact(keys: seq<RegisteredKey>, m: nat)
    ensures m in HeldMods(keys) <==> exists k :: k in keys && k.keycode == NO && m in k.mods
  {
    if keys != [] {
      var front, last := keys[..|keys| - 1], keys[|keys| - 1];
      assert keys == front + [last];
      HeldModsExact(front, m);
      if k :| k in keys && k.keycode == NO && m in k.mods && k != last {
        assert k in front;
      }
      if k :| k in front && k.keycode == NO && m in k.mods {
        assert k in keys;
      }
    }
  }

  /** What a keycode entry carries when it is the last one. */
  function LastMods(keys: seq<RegisteredKey>): Mods {
    if keys != [] && keys[|keys| - 1].keycode != NO then keys[|keys| - 1].mods else {}
  }

  lemma {:induction false} NoKeycodeMods(keys: seq<RegisteredKey>)
    requires forall i :: 0 <= i < |keys| ==> keys[i].keycode == NO || keys[i].mods == {}
    ensures KeycodeMods(keys) == {}
  {
    if keys != [] {
      NoKeycodeMods(keys[..|keys| - 1]);
    }
  }

  lemma KeycodeModsAreLast(t: Table)
    requires Inv(t)
    ensures KeycodeMods(t.registered) == LastMods(t.registered)
  {
    if t.registered != [] {
      NoKeycodeMods(t.registered[..|t.registered| - 1]);
    }
  }

  /** A press that enters the table ends the `KeyWithModifier` modifiers of every key before it. */
  lemma NextPressEndsMods(t: Table, e: Event)
    requires Inv(t) && Adds(t, e)
    ensures KeycodeMods(Register(t, e).registered) == if EntryOf(e).keycode != NO then EntryOf(e).mods else {}
  {
    RegisterInv(t, e);
    KeycodeModsAreLast(Register(t, e));
  }

  // ----- Releases -----

  ghost predicate Owns(t: Table, source: Source) {
    exists k :: k in t.registered && k.source == source
  }

  /** The source's latest event is a press. */
  predicate Down(events: seq<Event>, source: Source) {
    events != [] &&
    var e := events[|events| - 1];
    if e.source == source then e.Press? else Down(events[..|events| - 1], source)
  }

  lemma RegisterMembers(t: Table, e: Event, k: RegisteredKey)
    requires k in Register(t, e).registered
    ensures (exists o :: o in t.registered && k == Plain(o)) || k in t.registered || k == EntryOf(e)
  {
    var rest := Without(t.registered, EntryOf(e));
    if e.key == NO && e.mods == {} {
    } else if IsFull(rest, EntryOf(e)) {
      WithoutMembers(t.registered, EntryOf(e), k);
    } else {
      AllPlainAt(rest);
      if k in AllPlain(rest) {
        var i :| 0 <= i < |rest| && AllPlain(rest)[i] == k;
        WithoutMembers(t.registered, EntryOf(e), rest[i]);
        assert k == Plain(rest[i]);
      }
    }
  }

  /** After its release a source that is not a macro owns no entry, whatever else happens. */
  lemma {:induction false} ReleasedOwnsNothing(events: seq<Event>, source: Source)
    requires !source.Macro? && !Down(events, source)
    ensures !Owns(Run(EMPTY, events), source)
  {
    if events != [] {
      var front, e := events[..|events| - 1], events[|events| - 1];
      var t, t' := Run(EMPTY, front), Run(EMPTY, events);
      if e.source != source {
        ReleasedOwnsNothing(front, source);
      }
      forall k | k in t'.registered
        ensures k.source != source
      {
        if e.Press? {
          RegisterMembers(t, e, k);
        } else {
          WithoutMembers(t.registered, EntryOf(e), k);
        }
      }
    }
  }

  // ----- The report -----

  ghost predicate Holds(keys: seq<RegisteredKey>, code: HidKeyCode) {
    exists k :: k in keys && k.keycode == code
  }

  /** The report names exactly the held usages, each once. */
  lemma {:induction false} UsagesExact(keys: seq<RegisteredKey>, code: HidKeyCode)
    ensures code in Usages(keys) <==> code != NO && Holds(keys, code)
    ensures forall i, j :: 0 <= i < j < |Usages(keys)| ==> Usages(keys)[i] != Usages(keys)[j]
    ensures |Usages(keys)| <= KeycodeCount(keys)
  {
    if keys != [] {
      var front, last := keys[..|keys| - 1], keys[|keys| - 1];
      assert keys == front + [last];
      UsagesExact(front, code);
      if Holds(front, code) {
        var k :| k in front && k.keycode == code;
        assert k in keys;
      }
      if Holds(keys, code) && last.keycode != code {
        var k :| k in keys && k.keycode == code;
        assert k in front;
      }
    }
  }

  /** A press of nothing changes nothing; any other event removes the entries it refers to. */
  predicate Survives(e: Event, k: RegisteredKey) {
    (e.Press? && e.key == NO && e.mods == {}) || !Matches(k, EntryOf(e))
  }

  predicate Adds(t: Table, e: Event) {
    e.Press? && !(e.key == NO && e.mods == {}) && !IsFull(Without(t.registered, EntryOf(e)), EntryOf(e))
  }

  lemma SurvivorHolds(t: Table, e: Event, k: RegisteredKey)
    requires k in t.registered && Survives(e, k)
    ensures Holds(Apply(t, e).registered, k.keycode)
  {
    var rest := Without(t.registered, EntryOf(e));
    if !Matches(k, EntryOf(e)) {
      WithoutMembers(t.registered, EntryOf(e), k);
      var i :| 0 <= i < |rest| && rest[i] == k;
      AllPlainAt(rest);
      assert Plain(k) == AllPlain(rest)[i];
      assert Plain(k) in AllPlain(rest) + [EntryOf(e)];
    }
  }

  lemma HolderSurvived(t: Table, e: Event, k: RegisteredKey) returns (before: RegisteredKey)
    requires k in Apply(t, e).registered
    ensures before.keycode == k.keycode
    ensures (before in t.registered && Survives(e, before)) || (Adds(t, e) && before == EntryOf(e))
  {
    var rest := Without(t.registered, EntryOf(e));
    if e.Press? && e.key == NO && e.mods == {} {
      before := k;
    } else if !Adds(t, e) {
      WithoutMembers(t.registered, EntryOf(e), k);
      before := k;
    } else if k in AllPlain(rest) {
      AllPlainAt(rest);
      var i :| 0 <= i < |rest| && AllPlain(rest)[i] == k;
      before := rest[i];
      WithoutMembers(t.registered, EntryOf(e), before);
    } else {
      before := EntryOf(e);
    }
  }

  /**
   The report after an event, exactly: a usage is in it while some entry that
   held it survives, or when the event just added it. So a usage leaves only
   when the event refers to its last holder.
   */
  lemma UsageAfter(t: Table, e: Event, code: HidKeyCode)
    requires code != NO
    ensures code in Usages(Apply(t, e).registered) <==>
            (exists k :: k in t.registered && k.keycode == code && Survives(e, k)) ||
            (Adds(t, e) && EntryOf(e).keycode == code)
  {
    UsagesExact(Apply(t, e).registered, code);
    if k :| k in t.registered && k.keycode == code && Survives(e, k) {
      SurvivorHolds(t, e, k);
    }
    if Adds(t, e) {
      assert EntryOf(e) in Apply(t, e).registered;
    }
    if Holds(Apply(t, e).registered, code) {
      var k :| k in Apply(t, e).registered && k.keycode == code;
      var before := HolderSurvived(t, e, k);
    }
  }

  // ----- What an event does, in terms of its fields -----

  /** The usage is that of a modifier key, 0xE0 for bit 0 up to 0xE7 for bit 7. */
  predicate IsModifierUsage(key: HidKeyCode, b: nat) {
    b < 8 && key as int == 0xE0 + b
  }

  /** The event is a modifier action: a modifier key, or modifiers without a key. */
  predicate IsModifierAction(e: Event) {
    e.key == 0 || exists b: nat :: b < 8 && IsModifierUsage(e.key, b)
  }

  /** The modifiers it carries. */
  predicate CarriesMod(e: Event, m: nat) {
    m in e.mods || IsModifierUsage(e.key, m)
  }

  lemma EntryExact(e: Event)
    ensures EntryOf(e).source == e.source
    ensures EntryOf(e).keycode == if IsModifierAction(e) then 0 else e.key
    ensures forall m :: m in EntryOf(e).mods <==> CarriesMod(e, m)
  {
    if IsModifier(e.key) {
      assert IsModifierUsage(e.key, (e.key - 0xE0) as nat);
    }
  }

  /**
   Which entries an event leaves: those of other sources; and of a macro's
   entries, whoever the event is from, those for another key, or for no key
   and other modifiers.
   */
  lemma SurvivesExact(e: Event, k: RegisteredKey)
    requires !(e.Press? && e.key == 0 && e.mods == {})
    ensures Survives(e, k) <==>
            if !k.source.Macro? then k.source != e.source
            else if k.keycode != 0 then IsModifierAction(e) || k.keycode != e.key
            else !IsModifierAction(e) || exists m :: (m in k.mods) != CarriesMod(e, m)
  {
    EntryExact(e);
    var entry := EntryOf(e);
    if k.mods != entry.mods {
      if m :| m in k.mods && m !in entry.mods {
        assert (m in k.mods) != CarriesMod(e, m);
      } else {
        assert k.mods <= entry.mods;
        var m :| m in entry.mods && m !in k.mods;
        assert (m in k.mods) != CarriesMod(e, m);
      }
    }
  }

  /** The places of the keycode entries. */
  function KeycodeIndices(keys: seq<RegisteredKey>): set<nat> {
    set i: nat | i < |keys| && keys[i].keycode != 0
  }

  lemma {:induction false} CountExact(keys: seq<RegisteredKey>)
    ensures KeycodeCount(keys) == |KeycodeIndices(keys)|
  {
    if keys != [] {
      var front, last := keys[..|keys| - 1], |keys| - 1;
      CountExact(front);
      assert forall i :: 0 <= i < last ==> front[i] == keys[i];
      if keys[last].keycode != 0 {
        assert KeycodeIndices(keys) == KeycodeIndices(front) + {last};
      } else {
        assert KeycodeIndices(keys) == KeycodeIndices(front);
      }
    }
  }

  /** A press enters the table exactly when, besides what it replaces, 16 entries and, for a key, six keys leave room. */
  lemma AddsIff(t: Table, e: Event)
    ensures var rest := Without(t.registered, EntryOf(e));
      Adds(t, e) <==>
        && e.Press? && !(e.key == 0 && e.mods == {}) && |rest| < 16
        && (IsModifierAction(e) || |KeycodeIndices(rest)| < 6)
  {
    CountExact(Without(t.registered, EntryOf(e)));
    EntryExact(e);
  }

  lemma {:induction false} HeldModsPlain(keys: seq<RegisteredKey>)
    ensures HeldMods(AllPlain(keys)) == HeldMods(keys)
  {
    if keys != [] {
      HeldModsPlain(keys[..|keys| - 1]);
    }
  }

  /** What is held after a modifier action that enters: what the press leaves, and what it carries. */
  lemma HeldAfter(t: Table, e: Event, m: nat)
    requires Adds(t, e)
    ensures m in HeldMods(Register(t, e).registered) <==>
            (IsModifierAction(e) && CarriesMod(e, m)) ||
            exists k :: k in t.registered && k.keycode == 0 && m in k.mods && Survives(e, k)
  {
    var rest := Without(t.registered, EntryOf(e));
    HeldModsPlain(rest);
    EntryExact(e);
    assert (AllPlain(rest) + [EntryOf(e)])[..|AllPlain(rest)|] == AllPlain(rest);
    HeldModsExact(rest, m);
    if k :| k in rest && k.keycode == 0 && m in k.mods {
      WithoutMembers(t.registered, EntryOf(e), k);
    }
    if k :| k in t.registered && k.keycode == 0 && m in k.mods && Survives(e, k) {
      WithoutMembers(t.registered, EntryOf(e), k);
    }
  }

  /** A press of modifier key `b` with room adds exactly bit `b`, and exempts it from the forks that have fired. */
  lemma ModifierKeyHeld(t: Table, source: Source, key: HidKeyCode, b: nat, m: nat)
    requires IsModifierUsage(key, b)
    requires |Without(t.registered, EntryOf(Press(source, key, {})))| < 16
    ensures var e, t' := Press(source, key, {}), Register(t, Press(source, key, {}));
      && (m in HeldMods(t'.registered) <==>
            m == b || exists k :: k in t.registered && k.keycode == 0 && m in k.mods && Survives(e, k))
      && t'.keepMask == t.keepMask + {b}
  {
    var e := Press(source, key, {});
    AddsIff(t, e);
    EntryExact(e);
    HeldAfter(t, e, m);
    assert EntryOf(e).mods == {b};
  }

  /** Only an entering modifier action exempts modifiers, and exactly its own. */
  lemma KeepMaskExact(t: Table, e: Event, m: nat)
    ensures m in Apply(t, e).keepMask <==> m in t.keepMask || (Adds(t, e) && IsModifierAction(e) && CarriesMod(e, m))
  {
    EntryExact(e);
  }
}
