/**
 Alias resolution of a keymap text: passes that expand every `@name` at once,
 until one changes nothing or the pass limit is reached.
 */
module Aliases {

  datatype Result = Ok(text: string) | Undefined(name: string) | TooDeep

  const MAX_PASSES: nat := 10

  /** Which characters are white space is left to the caller. */
  predicate Delimiter(space: char -> bool, c: char) {
    space(c) || c == '(' || c == ')' || c == ',' || c == '@'
  }

  /** The length of the name that starts here: up to the first delimiter. */
  function NameLength(space: char -> bool, s: string): (n: nat)
    ensures n <= |s|
    ensures forall k :: 0 <= k < n ==> !Delimiter(space, s[k])
    ensures n < |s| ==> Delimiter(space, s[n])
  {
    if s == "" || Delimiter(space, s[0]) then 0 else 1 + NameLength(space, s[1..])
  }

  // ----- One pass -----

  datatype Pass = Expanded(text: string, replaced: bool) | Missing(name: string)

  function After(prefix: string, replaced: bool, rest: Pass): Pass {
    match rest
    case Missing(name) => Missing(name)
    case Expanded(text, more) => Expanded(prefix + text, replaced || more)
  }

  /** Replace every reference by its value; a bare `@` stays. */
  function Expand(space: char -> bool, aliases: map<string, string>, s: string): Pass
    decreases |s|
  {
    if s == "" then Expanded("", false)
    else if s[0] != '@' then After([s[0]], false, Expand(space, aliases, s[1..]))
    else
      var n := NameLength(space, s[1..]);
      var name := s[1..n + 1];
      if n == 0 then After("@", false, Expand(space, aliases, s[1..]))
      else if name !in aliases then Missing(name)
      else After(aliases[name], true, Expand(space, aliases, s[n + 1..]))
  }

  // ----- All passes -----

  /** Resolve with `left` passes to go; the last one is always an error. */
  function Resolve(space: char -> bool, aliases: map<string, string>, s: string, left: nat): Result
    decreases left
  {
    match Expand(space, aliases, s)
    case Missing(name) => Undefined(name)
    case Expanded(next, replaced) =>
      if left <= 1 then TooDeep
      else if !replaced then Ok(s)
      else Resolve(space, aliases, next, left - 1)
  }

  // ----- The implementation -----

  /** The first `@` at or after `from`, or the length. */
  method FindAt(s: string, from: nat) returns (i: nat)
    requires from <= |s|
    ensures from <= i <= |s| && (i < |s| ==> s[i] == '@') && forall k :: from <= k < i ==> s[k] != '@'
  {
    i := from;
    while i < |s| && s[i] != '@'
      invariant from <= i <= |s| && forall k :: from <= k < i ==> s[k] != '@'
    {
      i := i + 1;
    }
  }

  method FindNameEnd(space: char -> bool, s: string, from: nat) returns (end: nat)
    requires from <= |s|
    ensures end == from + NameLength(space, s[from..])
  {
    end := from;
    while end < |s| && !Delimiter(space, s[end])
      invariant from <= end <= |s|
      invariant from + NameLength(space, s[from..]) == end + NameLength(space, s[end..])
    {
      assert s[end..][1..] == s[end + 1..];
      end := end + 1;
    }
  }

  lemma AfterTwice(a: string, r: bool, b: string, q: bool, rest: Pass)
    ensures After(a, r, After(b, q, rest)) == After(a + b, r || q, rest)
  {
    if rest.Expanded? {
      assert a + (b + rest.text) == (a + b) + rest.text;
    }
  }

  lemma {:induction false} ExpandPlain(space: char -> bool, aliases: map<string, string>, s: string, n: nat)
    requires n <= |s| && forall k :: 0 <= k < n ==> s[k] != '@'
    ensures Expand(space, aliases, s) == After(s[..n], false, Expand(space, aliases, s[n..]))
    decreases n
  {
    if n == 0 {
      assert s[..0] == "" && s[0..] == s;
      var rest := Expand(space, aliases, s);
      if rest.Expanded? {
        assert "" + rest.text == rest.text;
      }
    } else {
      ExpandPlain(space, aliases, s[1..], n - 1);
      assert s[1..][n - 1..] == s[n..] && [s[0]] + s[1..][..n - 1] == s[..n];
      AfterTwice([s[0]], false, s[1..][..n - 1], false, Expand(space, aliases, s[n..]));
    }
  }

  /** `next` is the expansion of the text before `last`. */
  ghost predicate Scanned(
    space: char -> bool, aliases: map<string, string>, s: string, last: nat, next: string, replaced: bool)
  {
    last <= |s| && Expand(space, aliases, s) == After(next, replaced, Expand(space, aliases, s[last..]))
  }

  lemma ScanStart(space: char -> bool, aliases: map<string, string>, s: string)
    ensures Scanned(space, aliases, s, 0, "", false)
  {
    assert s[0..] == s && s[..0] == "";
    ExpandPlain(space, aliases, s, 0);
  }

  lemma ScanPlain(
    space: char -> bool, aliases: map<string, string>, s: string, last: nat, next: string, replaced: bool, start: nat)
    requires Scanned(space, aliases, s, last, next, replaced)
    requires last <= start <= |s| && forall k :: last <= k < start ==> s[k] != '@'
    ensures Scanned(space, aliases, s, start, next + s[last..start], replaced)
  {
    var tail, n := s[last..], start - last;
    assert tail[..n] == s[last..start] && tail[n..] == s[start..];
    ExpandPlain(space, aliases, tail, n);
    AfterTwice(next, replaced, s[last..start], false, Expand(space, aliases, s[start..]));
  }

  lemma ScanEnd(space: char -> bool, aliases: map<string, string>, s: string, next: string, replaced: bool)
    requires Scanned(space, aliases, s, |s|, next, replaced)
    ensures Expand(space, aliases, s) == Expanded(next, replaced)
  {
    assert s[|s|..] == "" && next + "" == next;
  }

  lemma ScanReference(
    space: char -> bool, aliases: map<string, string>, s: string, start: nat, end: nat, name: string, next: string,
    replaced: bool)
    requires Scanned(space, aliases, s, start, next, replaced) && start < |s| && s[start] == '@'
    requires end == start + 1 + NameLength(space, s[start + 1..]) && name == s[start + 1..end]
    ensures name == "" ==> Scanned(space, aliases, s, start + 1, next + "@", replaced)
    ensures name != "" && name !in aliases ==> Expand(space, aliases, s) == Missing(name)
    ensures name != "" && name in aliases ==>
            Scanned(space, aliases, s, end, next + aliases[name], true)
  {
    var tail, n := s[start..], |name|;
    assert tail[1..] == s[start + 1..] && tail[1..n + 1] == name && tail[n + 1..] == s[end..];
    var rest := Expand(space, aliases, s[end..]);
    if name == "" {
      AfterTwice(next, replaced, "@", false, rest);
    } else if name in aliases {
      AfterTwice(next, replaced, aliases[name], true, rest);
    }
  }

  /** One pass over the whole text. */
  method ExpandOnce(space: char -> bool, aliases: map<string, string>, s: string) returns (r: Pass)
    ensures r == Expand(space, aliases, s)
  {
    var next := "";
    var replaced := false;
    var last := 0;
    ScanStart(space, aliases, s);
    while true
      invariant Scanned(space, aliases, s, last, next, replaced)
      decreases |s| - last
    {
      var start := FindAt(s, last);
      ScanPlain(space, aliases, s, last, next, replaced, start);
      next := next + s[last..start];
      if start == |s| {
        ScanEnd(space, aliases, s, next, replaced);
        return Expanded(next, replaced);
      }
      var end := FindNameEnd(space, s, start + 1);
      var name := s[start + 1..end];
      ScanReference(space, aliases, s, start, end, name, next, replaced);
      if name == "" {
        next := next + "@";
        last := start + 1;
      } else {
        if name !in aliases {
          return Missing(name);
        }
        next := next + aliases[name];
        replaced := true;
        last := end;
      }
    }
  }

  /** Expand until nothing changes. Never more than ten passes, whatever the table. */
  method AliasResolver(space: char -> bool, aliases: map<string, string>, keys: string) returns (r: Result, passes: nat)
    ensures r == Resolve(space, aliases, keys, MAX_PASSES)
    ensures 1 <= passes <= 10
  {
    var current := keys;
    passes := 0;
    while true
      invariant passes < MAX_PASSES
      invariant Resolve(space, aliases, keys, MAX_PASSES) == Resolve(space, aliases, current, MAX_PASSES - passes)
      decreases MAX_PASSES - passes
    {
      var pass := ExpandOnce(space, aliases, current);
      passes := passes + 1;
      if pass.Missing? {
        return Undefined(pass.name), passes;
      }
      if passes >= MAX_PASSES {
        return TooDeep, passes;
      }
      if !pass.replaced {
        return Ok(current), passes;
      }
      current := pass.text;
    }
  }

  // ----- What a success means -----

  /** No `@` starts a name: each stands before a delimiter or at the end. */
  ghost predicate NoReference(space: char -> bool, s: string) {
    forall i :: 0 <= i < |s| && s[i] == '@' ==> i + 1 == |s| || Delimiter(space, s[i + 1])
  }

  lemma NoReferenceTail(space: char -> bool, s: string)
    requires s != ""
    ensures NoReference(space, s) <==>
            (s[0] == '@' ==> |s| == 1 || Delimiter(space, s[1])) && NoReference(space, s[1..])
  {
    var t := s[1..];
    assert forall i :: 0 <= i < |t| ==> t[i] == s[i + 1];
    if NoReference(space, t) {
      forall i | 1 <= i < |s| && s[i] == '@'
        ensures i + 1 == |s| || Delimiter(space, s[i + 1])
      {
        assert t[i - 1] == '@';
        assert i + 1 < |s| ==> t[i] == s[i + 1];
      }
    }
  }

  /** A pass replaces nothing exactly when there is no reference, and then it changes nothing. */
  lemma {:induction false} UnchangedIff(space: char -> bool, aliases: map<string, string>, s: string)
    ensures NoReference(space, s) <==> Expand(space, aliases, s).Expanded? && !Expand(space, aliases, s).replaced
    ensures NoReference(space, s) ==> Expand(space, aliases, s) == Expanded(s, false)
    decreases |s|
  {
    if s != "" {
      NoReferenceTail(space, s);
      UnchangedIff(space, aliases, s[1..]);
      assert s == [s[0]] + s[1..];
      if s[0] == '@' {
        assert NameLength(space, s[1..]) == 0 <==> |s| == 1 || Delimiter(space, s[1]);
      }
    }
  }

  /** A success leaves no reference, and resolving it again, with any table, returns it. */
  lemma {:induction false} SuccessIsResolved(space: char -> bool, aliases: map<string, string>, s: string, left: nat)
    requires Resolve(space, aliases, s, left).Ok?
    ensures var text := Resolve(space, aliases, s, left).text;
      && NoReference(space, text)
      && forall other: map<string, string> :: Resolve(space, other, text, MAX_PASSES) == Ok(text)
    decreases left
  {
    var pass := Expand(space, aliases, s);
    if pass.replaced {
      SuccessIsResolved(space, aliases, pass.text, left - 1);
    } else {
      UnchangedIff(space, aliases, s);
      forall other: map<string, string>
        ensures Resolve(space, other, s, MAX_PASSES) == Ok(s)
      {
        UnchangedIff(space, other, s);
      }
    }
  }

  /** The text after `k` passes, if none of them met an undefined name. */
  function PassTimes(space: char -> bool, aliases: map<string, string>, s: string, k: nat): Pass
    decreases k
  {
    if k == 0 then Expanded(s, false)
    else
      match Expand(space, aliases, s)
      case Missing(name) => Missing(name)
      case Expanded(next, _) => PassTimes(space, aliases, next, k - 1)
  }

  ghost predicate ResolvedAfter(space: char -> bool, aliases: map<string, string>, s: string, k: nat) {
    var p := PassTimes(space, aliases, s, k);
    p.Expanded? && NoReference(space, p.text)
  }

  /** Resolution succeeds exactly when the references are gone two passes before the limit. */
  lemma {:induction false} ResolvesIff(space: char -> bool, aliases: map<string, string>, s: string, left: nat)
    ensures Resolve(space, aliases, s, left).Ok? <==> exists k: nat :: k + 2 <= left && ResolvedAfter(space, aliases, s, k)
    decreases left
  {
    UnchangedIff(space, aliases, s);
    var pass := Expand(space, aliases, s);
    if NoReference(space, s) {
      assert ResolvedAfter(space, aliases, s, 0);
    } else if pass.Expanded? && left > 1 {
      ResolvesIff(space, aliases, pass.text, left - 1);
      if k: nat :| k + 3 <= left && ResolvedAfter(space, aliases, pass.text, k) {
        assert ResolvedAfter(space, aliases, s, k + 1);
      }
      if k: nat :| k + 2 <= left && ResolvedAfter(space, aliases, s, k) {
        assert ResolvedAfter(space, aliases, pass.text, k - 1);
      }
    }
  }

  // ----- Undefined names -----

  /** The name that follows the `@` at `i`; empty for a bare `@`. */
  function NameAt(space: char -> bool, s: string, i: nat): string
    requires i < |s|
  {
    s[i + 1..][..NameLength(space, s[i + 1..])]
  }

  /** A reference without an alias starts at `i`. */
  predicate UndefinedAt(space: char -> bool, aliases: map<string, string>, s: string, i: nat) {
    i < |s| && s[i] == '@' && NameAt(space, s, i) != "" && NameAt(space, s, i) !in aliases
  }

  lemma UndefinedShift(space: char -> bool, aliases: map<string, string>, s: string, skip: nat, i: nat)
    requires skip <= |s|
    ensures UndefinedAt(space, aliases, s[skip..], i) <==> UndefinedAt(space, aliases, s, i + skip)
  {
    if i + skip < |s| {
      assert s[skip..][i + 1..] == s[i + skip + 1..];
    }
  }

  ghost predicate AnyUndefined(space: char -> bool, aliases: map<string, string>, s: string) {
    exists i: nat :: UndefinedAt(space, aliases, s, i)
  }

  /** Skipping `skip` characters that hold no `@` after the first one loses no reference but the first. */
  lemma UndefinedStep(space: char -> bool, aliases: map<string, string>, s: string, skip: nat)
    requires 0 < skip <= |s| && forall k :: 1 <= k < skip ==> s[k] != '@'
    ensures AnyUndefined(space, aliases, s) <==>
            UndefinedAt(space, aliases, s, 0) || AnyUndefined(space, aliases, s[skip..])
  {
    if i: nat :| UndefinedAt(space, aliases, s[skip..], i) {
      UndefinedShift(space, aliases, s, skip, i);
    }
    if i: nat :| UndefinedAt(space, aliases, s, i) {
      if i >= skip {
        UndefinedShift(space, aliases, s, skip, i - skip);
      }
    }
  }

  /** A pass fails exactly when some reference has no alias. */
  lemma {:induction false} MissingIff(space: char -> bool, aliases: map<string, string>, s: string)
    ensures Expand(space, aliases, s).Missing? <==> AnyUndefined(space, aliases, s)
    decreases |s|
  {
    if s != "" {
      var n := if s[0] == '@' then NameLength(space, s[1..]) else 0;
      forall k | 1 <= k < n + 1
        ensures s[k] != '@'
      {
        assert s[1..][k - 1] == s[k];
      }
      UndefinedStep(space, aliases, s, n + 1);
      MissingIff(space, aliases, s[n + 1..]);
      assert s[0 + 1..][..NameLength(space, s[1..])] == s[1..NameLength(space, s[1..]) + 1];
    }
  }

  // ----- Resolution is local -----

  /** A piece of text that the name before it cannot run into, in this pass or a later one. */
  predicate Separated(space: char -> bool, v: string) {
    v == "" || (Delimiter(space, v[0]) && v[0] != '@')
  }

  /** A piece of text that the name before it cannot run into in this pass. */
  predicate Stops(space: char -> bool, v: string) {
    v == "" || Delimiter(space, v[0])
  }

  lemma {:induction false} NameStops(space: char -> bool, u: string, v: string)
    requires Stops(space, v)
    ensures NameLength(space, u + v) == NameLength(space, u)
  {
    if u == "" {
      assert u + v == v;
    } else {
      assert (u + v)[1..] == u[1..] + v;
      NameStops(space, u[1..], v);
    }
  }

  function Both(a: Pass, b: Pass): Pass {
    if a.Missing? then a else After(a.text, a.replaced, b)
  }

  lemma AfterBoth(prefix: string, r: bool, a: Pass, b: Pass)
    ensures After(prefix, r, Both(a, b)) == Both(After(prefix, r, a), b)
  {
    if a.Expanded? {
      AfterTwice(prefix, r, a.text, a.replaced, b);
    }
  }

  /** What the first character, or the reference it starts, expands to; and where the rest begins. */
  function HeadEnd(space: char -> bool, s: string): (end: nat)
    requires s != ""
    ensures 0 < end <= |s|
  {
    if s[0] == '@' then NameLength(space, s[1..]) + 1 else 1
  }

  function HeadPass(aliases: map<string, string>, head: string): Pass
    requires head != ""
  {
    if head[0] != '@' || |head| == 1 then Expanded(head, false)
    else if head[1..] !in aliases then Missing(head[1..])
    else Expanded(aliases[head[1..]], true)
  }

  lemma ExpandHead(space: char -> bool, aliases: map<string, string>, s: string, head: string, rest: string)
    requires s != "" && head == s[..HeadEnd(space, s)] && rest == s[HeadEnd(space, s)..]
    ensures Expand(space, aliases, s) == Both(HeadPass(aliases, head), Expand(space, aliases, rest))
  {
    var n := HeadEnd(space, s);
    assert head[0] == s[0] && head[1..] == s[1..n];
    if n == 1 {
      assert head == [s[0]];
    }
  }

  lemma BothAssociative(a: Pass, b: Pass, c: Pass)
    ensures Both(a, Both(b, c)) == Both(Both(a, b), c)
  {
    if a.Expanded? {
      AfterBoth(a.text, a.replaced, b, c);
    }
  }

  lemma HeadSplits(space: char -> bool, u: string, v: string)
    requires u != "" && Stops(space, v)
    ensures HeadEnd(space, u + v) == HeadEnd(space, u)
  {
    assert (u + v)[1..] == u[1..] + v;
    NameStops(space, u[1..], v);
  }

  /** A pass over two pieces that no name joins expands each by itself. */
  lemma {:induction false} ExpandSplits(space: char -> bool, aliases: map<string, string>, u: string, v: string)
    requires Stops(space, v)
    ensures Expand(space, aliases, u + v) == Both(Expand(space, aliases, u), Expand(space, aliases, v))
    decreases |u|
  {
    if u == "" {
      assert u + v == v && v[0..] == v && v[..0] == "";
      ExpandPlain(space, aliases, v, 0);
    } else {
      HeadSplits(space, u, v);
      var n := HeadEnd(space, u);
      var head, rest := u[..n], u[n..];
      assert (u + v)[..n] == head && (u + v)[n..] == rest + v;
      ExpandSplits(space, aliases, rest, v);
      ExpandHead(space, aliases, u, head, rest);
      ExpandHead(space, aliases, u + v, head, rest + v);
      BothAssociative(HeadPass(aliases, head), Expand(space, aliases, rest), Expand(space, aliases, v));
    }
  }

  lemma StaysSeparated(space: char -> bool, aliases: map<string, string>, v: string)
    requires Separated(space, v) && Expand(space, aliases, v).Expanded?
    ensures Separated(space, Expand(space, aliases, v).text)
  {
  }

  /**
   Keys separated by a delimiter resolve independently: the text resolves
   exactly when both pieces do, to the two results put together.
   */
  lemma {:induction false} ResolveSplits(
    space: char -> bool, aliases: map<string, string>, u: string, v: string, left: nat)
    requires Separated(space, v)
    ensures Resolve(space, aliases, u + v, left).Ok? <==>
            Resolve(space, aliases, u, left).Ok? && Resolve(space, aliases, v, left).Ok?
    ensures Resolve(space, aliases, u + v, left).Ok? ==>
            Resolve(space, aliases, u + v, left).text ==
              Resolve(space, aliases, u, left).text + Resolve(space, aliases, v, left).text
    decreases left
  {
    ExpandSplits(space, aliases, u, v);
    var pu, pv := Expand(space, aliases, u), Expand(space, aliases, v);
    if pu.Expanded? && pv.Expanded? && left > 1 {
      StaysSeparated(space, aliases, v);
      if pu.replaced || pv.replaced {
        ResolveSplits(space, aliases, pu.text, pv.text, left - 1);
        if !pu.replaced {
          UnchangedResolves(space, aliases, u, left - 1);
        }
        if !pv.replaced {
          UnchangedResolves(space, aliases, v, left - 1);
        }
      }
    }
  }

  lemma UnchangedResolves(space: char -> bool, aliases: map<string, string>, s: string, left: nat)
    requires Expand(space, aliases, s).Expanded? && !Expand(space, aliases, s).replaced
    ensures Expand(space, aliases, s).text == s
    ensures Resolve(space, aliases, s, left) == if left <= 1 then TooDeep else Ok(s)
  {
    UnchangedIff(space, aliases, s);
  }

  // ----- Nesting and cycles -----

  predicate IsName(space: char -> bool, name: string) {
    name != "" && forall k :: 0 <= k < |name| ==> !Delimiter(space, name[k])
  }

  /** `s` refers to `name`, and nothing that is pasted in later can lengthen the name. */
  predicate Refers(space: char -> bool, s: string, before: string, name: string, after: string) {
    s == before + ("@" + name) + after && IsName(space, name) && Separated(space, after)
  }

  ghost predicate RefersTo(space: char -> bool, s: string, names: set<string>) {
    exists before, name, after :: Refers(space, s, before, name, after) && name in names
  }

  /** Names that lead to each other for ever: a cycle of any length, and whatever leads to it. */
  ghost predicate Endless(space: char -> bool, aliases: map<string, string>, names: set<string>) {
    forall name :: name in names ==> name in aliases && RefersTo(space, aliases[name], names)
  }

  lemma ExpandReference(space: char -> bool, aliases: map<string, string>, name: string)
    requires IsName(space, name)
    ensures Expand(space, aliases, "@" + name) ==
            if name in aliases then Expanded(aliases[name], true) else Missing(name)
  {
    var s := "@" + name;
    assert s[1..] == name;
    WholeName(space, name);
    assert s[1..|name| + 1] == name && s[|name| + 1..] == "";
    if name in aliases {
      assert aliases[name] + "" == aliases[name];
    }
  }

  lemma ExpandAround(
    space: char -> bool, aliases: map<string, string>, s: string, before: string, name: string, after: string)
    requires Refers(space, s, before, name, after) && Expand(space, aliases, s).Expanded?
    ensures Expand(space, aliases, before).Expanded? && Expand(space, aliases, after).Expanded? && name in aliases
    ensures Expand(space, aliases, s) ==
            Expanded(Expand(space, aliases, before).text + aliases[name] + Expand(space, aliases, after).text, true)
  {
    ExpandSplits(space, aliases, before + ("@" + name), after);
    ExpandSplits(space, aliases, before, "@" + name);
    ExpandReference(space, aliases, name);
  }

  /** The reference inside a pasted value is still there, with more text around it. */
  lemma PastedRefers(space: char -> bool, value: string, b: string, name: string, a: string, left: string, right: string)
    requires Refers(space, value, b, name, a) && Separated(space, right)
    ensures Refers(space, left + value + right, left + b, name, a + right)
  {
    assert left + (b + ("@" + name) + a) + right == (left + b) + ("@" + name) + (a + right);
    if a == "" {
      assert a + right == right;
    } else {
      assert (a + right)[0] == a[0];
    }
  }

  lemma ValueRefers(
    space: char -> bool, aliases: map<string, string>, s: string, before: string, name: string, after: string,
    b: string, n: string, a: string)
    requires Refers(space, s, before, name, after) && Expand(space, aliases, s).Expanded?
    requires name in aliases && Refers(space, aliases[name], b, n, a)
    ensures Expand(space, aliases, s).replaced && Expand(space, aliases, before).Expanded? && Expand(space, aliases, after).Expanded?
    ensures Refers(space, Expand(space, aliases, s).text,
                   Expand(space, aliases, before).text + b, n, a + Expand(space, aliases, after).text)
  {
    ExpandAround(space, aliases, s, before, name, after);
    StaysSeparated(space, aliases, after);
    PastedRefers(space, aliases[name], b, n, a, Expand(space, aliases, before).text, Expand(space, aliases, after).text);
  }

  lemma StillRefers(space: char -> bool, aliases: map<string, string>, s: string, names: set<string>)
    requires Endless(space, aliases, names) && RefersTo(space, s, names) && Expand(space, aliases, s).Expanded?
    ensures Expand(space, aliases, s).replaced && RefersTo(space, Expand(space, aliases, s).text, names)
  {
    var before, name, after :| Refers(space, s, before, name, after) && name in names;
    var b, n, a :| Refers(space, aliases[name], b, n, a) && n in names;
    ValueRefers(space, aliases, s, before, name, after, b, n, a);
  }

  /** A text that refers to a name on a cycle, or leading to one, never resolves. */
  lemma {:induction false} CycleNeverResolves(
    space: char -> bool, aliases: map<string, string>, s: string, names: set<string>, left: nat)
    requires Endless(space, aliases, names) && RefersTo(space, s, names)
    ensures !Resolve(space, aliases, s, left).Ok?
    decreases left
  {
    if Expand(space, aliases, s).Expanded? && left > 1 {
      StillRefers(space, aliases, s, names);
      CycleNeverResolves(space, aliases, Expand(space, aliases, s).text, names, left - 1);
    }
  }

  lemma ResolveStep(space: char -> bool, aliases: map<string, string>, s: string, next: string, left: nat)
    requires left > 1 && Expand(space, aliases, s) == Expanded(next, true)
    ensures Resolve(space, aliases, s, left) == Resolve(space, aliases, next, left - 1)
  {
  }

  /**
   A reference that another one follows directly can be lengthened by what is
   pasted behind it, and so escape: `a` refers to itself, and still the text
   resolves, with `x` for `tail` and an alias for the lengthened name.
   */
  lemma LengthenedReferenceEscapes(
    space: char -> bool, aliases: map<string, string>, a: string, x: string, tail: string, left: nat)
    requires IsName(space, a) && IsName(space, x) && IsName(space, a + tail) && left >= 4
    requires a in aliases && aliases[a] == "@" + a && x in aliases && aliases[x] == tail
    requires a + tail in aliases && NoReference(space, aliases[a + tail])
    ensures Resolve(space, aliases, ("@" + a) + ("@" + x), left) == Ok(aliases[a + tail])
  {
    var value := aliases[a + tail];
    ExpandSplits(space, aliases, "@" + a, "@" + x);
    ExpandReference(space, aliases, a);
    ExpandReference(space, aliases, x);
    assert ("@" + a) + tail == "@" + (a + tail);
    ResolveStep(space, aliases, ("@" + a) + ("@" + x), "@" + (a + tail), left);
    ExpandReference(space, aliases, a + tail);
    ResolveStep(space, aliases, "@" + (a + tail), value, left - 1);
    UnchangedIff(space, aliases, value);
  }

  /** An alias that refers to itself is reported, not followed for ever. */
  lemma {:induction false} SelfReferenceTooDeep(space: char -> bool, aliases: map<string, string>, name: string, left: nat)
    requires IsName(space, name) && name in aliases && aliases[name] == "@" + name
    ensures Resolve(space, aliases, "@" + name, left) == TooDeep
    decreases left
  {
    ExpandReference(space, aliases, name);
    if left > 1 {
      SelfReferenceTooDeep(space, aliases, name, left - 1);
    }
  }

  lemma {:induction false} WholeName(space: char -> bool, s: string)
    requires forall k :: 0 <= k < |s| ==> !Delimiter(space, s[k])
    ensures NameLength(space, s) == |s|
  {
    if s != "" {
      WholeName(space, s[1..]);
    }
  }

  // ----- How deep aliases may nest -----

  /** The names that a text refers to. */
  function Names(space: char -> bool, s: string): set<string>
    decreases |s|
  {
    if s == "" then {}
    else
      var n := HeadEnd(space, s);
      (if s[0] == '@' && n > 1 then {s[1..n]} else {}) + Names(space, s[n..])
  }

  /** No `@`, with a name or without, is followed directly by another one. */
  predicate Tidy(space: char -> bool, s: string)
    decreases |s|
  {
    s == "" ||
    var n := HeadEnd(space, s);
    (s[0] == '@' ==> n == |s| || s[n] != '@') && Tidy(space, s[n..])
  }

  ghost predicate TidyTable(space: char -> bool, aliases: map<string, string>) {
    forall name :: name in aliases ==> Tidy(space, aliases[name])
  }

  /** The names behind the names, one level down. */
  ghost predicate Behind(space: char -> bool, aliases: map<string, string>, names: set<string>, m: string) {
    exists name :: name in names && name in aliases && m in Names(space, aliases[name])
  }

  /** Every reference leads to a plain text in at most `depth` steps through the table. */
  predicate Nested(space: char -> bool, aliases: map<string, string>, s: string, depth: nat)
    decreases depth
  {
    forall name :: name in Names(space, s) ==>
      depth > 0 && name in aliases && Nested(space, aliases, aliases[name], depth - 1)
  }

  /** The head and the rest of a text, with something behind it that no name can run into. */
  lemma HeadOfConcat(space: char -> bool, u: string, v: string)
    requires u != "" && Stops(space, v)
    ensures var n := HeadEnd(space, u);
      && HeadEnd(space, u + v) == n && (u + v)[n..] == u[n..] + v && (u + v)[1..n] == u[1..n] && (u + v)[0] == u[0]
  {
    HeadSplits(space, u, v);
  }

  lemma {:induction false} NamesConcat(space: char -> bool, u: string, v: string)
    requires Stops(space, v)
    ensures Names(space, u + v) == Names(space, u) + Names(space, v)
    decreases |u|
  {
    if u == "" {
      assert u + v == v;
    } else {
      HeadOfConcat(space, u, v);
      NamesConcat(space, u[HeadEnd(space, u)..], v);
    }
  }

  lemma {:induction false} TidyConcat(space: char -> bool, u: string, v: string)
    requires Tidy(space, u) && Tidy(space, v) && Separated(space, v)
    ensures Tidy(space, u + v)
    decreases |u|
  {
    if u == "" {
      assert u + v == v;
    } else {
      var n := HeadEnd(space, u);
      HeadOfConcat(space, u, v);
      TidyConcat(space, u[n..], v);
      if n == |u| {
        assert u[n..] + v == v;
      } else {
        assert (u + v)[n] == u[n];
      }
    }
  }

  /** In a tidy text, what follows a reference or a bare `@` stays apart from it. */
  lemma TidyRest(space: char -> bool, s: string, head: string, rest: string)
    requires s != "" && Tidy(space, s) && head == s[..HeadEnd(space, s)] && rest == s[HeadEnd(space, s)..]
    ensures Tidy(space, rest) && (s[0] == '@' ==> Separated(space, rest))
    ensures Names(space, s) == (if s[0] == '@' && |head| > 1 then {head[1..]} else {}) + Names(space, rest)
  {
    assert head[1..] == s[1..HeadEnd(space, s)];
    if s[0] == '@' && rest != "" {
      assert rest[0] == s[HeadEnd(space, s)];
      assert HeadEnd(space, s) == NameLength(space, s[1..]) + 1;
      assert s[1..][NameLength(space, s[1..])] == s[HeadEnd(space, s)];
    }
  }

  lemma PlainHead(space: char -> bool, c: char, t: string)
    requires c != '@'
    ensures Names(space, [c] + t) == Names(space, t) && Tidy(space, [c] + t) == Tidy(space, t)
  {
    assert ([c] + t)[1..] == t && ([c] + t)[0] == c;
  }

  lemma BareAt(space: char -> bool)
    ensures Names(space, "@") == {} && Tidy(space, "@")
  {
    assert "@"[1..] == "";
  }

  lemma BehindUnion(space: char -> bool, aliases: map<string, string>, a: set<string>, b: set<string>, m: string)
    ensures Behind(space, aliases, a + b, m) <==> Behind(space, aliases, a, m) || Behind(space, aliases, b, m)
  {
    if name :| name in a && name in aliases && m in Names(space, aliases[name]) {
      assert name in a + b;
    }
    if name :| name in b && name in aliases && m in Names(space, aliases[name]) {
      assert name in a + b;
    }
  }

  /** What a pass does to a tidy text, in terms of the names it refers to. */
  ghost predicate PassOnNames(space: char -> bool, aliases: map<string, string>, s: string, p: Pass) {
    && (p.Expanded? <==> Names(space, s) <= aliases.Keys)
    && (p.Expanded? ==>
          && Tidy(space, p.text) && (p.replaced <==> Names(space, s) != {})
          && forall m :: m in Names(space, p.text) <==> Behind(space, aliases, Names(space, s), m))
  }

  /** The head's own part of it. */
  lemma HeadOnNames(
    space: char -> bool, aliases: map<string, string>, s: string, head: string, rest: string, after: Pass)
    requires s != "" && Tidy(space, s) && TidyTable(space, aliases)
    requires head == s[..HeadEnd(space, s)] && rest == s[HeadEnd(space, s)..]
    requires PassOnNames(space, aliases, rest, after) && after == Expand(space, aliases, rest)
    ensures PassOnNames(space, aliases, s, Both(HeadPass(aliases, head), after))
  {
    TidyRest(space, s, head, rest);
    if s[0] != '@' {
      assert head == [s[0]];
      if after.Expanded? {
        PlainHead(space, s[0], after.text);
      }
    } else if |head| == 1 {
      assert head == "@";
      if after.Expanded? {
        BareAt(space);
        StaysSeparated(space, aliases, rest);
        PasteOnNames(space, "@", after.text);
      }
    } else if head[1..] in aliases && after.Expanded? {
      StaysSeparated(space, aliases, rest);
      PasteOnNames(space, aliases[head[1..]], after.text);
      forall m
        ensures Behind(space, aliases, Names(space, s), m) <==>
                m in Names(space, aliases[head[1..]]) || Behind(space, aliases, Names(space, rest), m)
      {
        BehindUnion(space, aliases, {head[1..]}, Names(space, rest), m);
        BehindOne(space, aliases, head[1..], m);
      }
    }
  }

  lemma BehindOne(space: char -> bool, aliases: map<string, string>, name: string, m: string)
    requires name in aliases
    ensures Behind(space, aliases, {name}, m) <==> m in Names(space, aliases[name])
  {
  }

  lemma PasteOnNames(space: char -> bool, u: string, v: string)
    requires Tidy(space, u) && Tidy(space, v) && Separated(space, v)
    ensures Tidy(space, u + v) && Names(space, u + v) == Names(space, u) + Names(space, v)
  {
    NamesConcat(space, u, v);
    TidyConcat(space, u, v);
  }

  lemma {:induction false} ExpandOnNames(space: char -> bool, aliases: map<string, string>, s: string)
    requires Tidy(space, s) && TidyTable(space, aliases)
    ensures PassOnNames(space, aliases, s, Expand(space, aliases, s))
    decreases |s|
  {
    if s != "" {
      var head, rest := s[..HeadEnd(space, s)], s[HeadEnd(space, s)..];
      ExpandOnNames(space, aliases, rest);
      ExpandHead(space, aliases, s, head, rest);
      HeadOnNames(space, aliases, s, head, rest, Expand(space, aliases, rest));
    }
  }

  /** One pass takes one level off the nesting. */
  lemma NestedAfterPass(space: char -> bool, aliases: map<string, string>, s: string, text: string, depth: nat)
    requires Names(space, s) <= aliases.Keys
    requires forall m :: m in Names(space, text) <==> Behind(space, aliases, Names(space, s), m)
    ensures Nested(space, aliases, s, depth + 1) <==> Nested(space, aliases, text, depth)
  {
    if Nested(space, aliases, s, depth + 1) {
      forall m | m in Names(space, text)
        ensures depth > 0 && m in aliases && Nested(space, aliases, aliases[m], depth - 1)
      {
        assert Behind(space, aliases, Names(space, s), m);
        var name :| name in Names(space, s) && name in aliases && m in Names(space, aliases[name]);
        assert Nested(space, aliases, aliases[name], depth);
      }
    }
    if Nested(space, aliases, text, depth) {
      forall name | name in Names(space, s)
        ensures Nested(space, aliases, aliases[name], depth)
      {
        forall m | m in Names(space, aliases[name])
          ensures depth > 0 && m in aliases && Nested(space, aliases, aliases[m], depth - 1)
        {
          assert Behind(space, aliases, Names(space, s), m);
        }
      }
    }
  }

  /**
   For tidy texts the table itself tells beforehand: resolution succeeds exactly
   when every name the text leads to has an alias and the aliases nest at most
   two levels less deep than there are passes, eight levels for ten passes.
   */
  lemma {:induction false} TidyResolvesIff(space: char -> bool, aliases: map<string, string>, s: string, left: nat)
    requires Tidy(space, s) && TidyTable(space, aliases)
    ensures Resolve(space, aliases, s, left).Ok? <==> left >= 2 && Nested(space, aliases, s, left - 2)
    decreases left
  {
    var pass := Expand(space, aliases, s);
    ExpandOnNames(space, aliases, s);
    if left >= 2 && pass.Expanded? && pass.replaced {
      TidyResolvesIff(space, aliases, pass.text, left - 1);
      if left >= 3 {
        NestedAfterPass(space, aliases, s, pass.text, left - 3);
      }
    }
  }

  // ----- Nesting as a rank -----

  /** Each ranked name has an alias that refers only to names of lower rank. */
  ghost predicate Ranking(space: char -> bool, aliases: map<string, string>, rank: map<string, nat>) {
    forall name :: name in rank ==> name in aliases && RankedBelow(Names(space, aliases[name]), rank, rank[name])
  }

  ghost predicate RankedBelow(names: set<string>, rank: map<string, nat>, depth: nat) {
    forall name :: name in names ==> name in rank && rank[name] < depth
  }

  lemma {:induction false} RankedNests(
    space: char -> bool, aliases: map<string, string>, rank: map<string, nat>, s: string, depth: nat)
    requires Ranking(space, aliases, rank) && RankedBelow(Names(space, s), rank, depth)
    ensures Nested(space, aliases, s, depth)
    decreases depth
  {
    forall name | name in Names(space, s)
      ensures depth > 0 && name in aliases && Nested(space, aliases, aliases[name], depth - 1)
    {
      RankedNests(space, aliases, rank, aliases[name], depth - 1);
    }
  }

  lemma {:induction false} NestedMore(space: char -> bool, aliases: map<string, string>, s: string, depth: nat)
    requires Nested(space, aliases, s, depth)
    ensures Nested(space, aliases, s, depth + 1)
    decreases depth
  {
    forall name | name in Names(space, s)
      ensures name in aliases && Nested(space, aliases, aliases[name], depth)
    {
      NestedMore(space, aliases, aliases[name], depth - 1);
    }
  }

  /** The least depth at which the text nests. */
  function LeastDepth(space: char -> bool, aliases: map<string, string>, s: string, depth: nat): (d: nat)
    requires Nested(space, aliases, s, depth)
    ensures d <= depth && Nested(space, aliases, s, d)
    ensures d > 0 ==> !Nested(space, aliases, s, d - 1)
    decreases depth
  {
    if depth > 0 && Nested(space, aliases, s, depth - 1) then LeastDepth(space, aliases, s, depth - 1) else depth
  }

  lemma {:induction false} NestedAnyMore(space: char -> bool, aliases: map<string, string>, s: string, d: nat, depth: nat)
    requires d <= depth && Nested(space, aliases, s, d)
    ensures Nested(space, aliases, s, depth)
    decreases depth - d
  {
    if d < depth {
      NestedMore(space, aliases, s, d);
      NestedAnyMore(space, aliases, s, d + 1, depth);
    }
  }

  lemma LeastIsLeast(space: char -> bool, aliases: map<string, string>, s: string, depth: nat, d: nat)
    requires Nested(space, aliases, s, depth) && Nested(space, aliases, s, d)
    ensures LeastDepth(space, aliases, s, depth) <= d
  {
    var least := LeastDepth(space, aliases, s, depth);
    if d < least {
      NestedAnyMore(space, aliases, s, d, least - 1);
    }
  }

  /** Each name that nests, with the least depth of its alias. */
  function Ranks(space: char -> bool, aliases: map<string, string>, depth: nat): map<string, nat> {
    map name | name in aliases && Nested(space, aliases, aliases[name], depth)
      :: LeastDepth(space, aliases, aliases[name], depth)
  }

  lemma RankDrops(space: char -> bool, aliases: map<string, string>, value: string, m: string, depth: nat)
    requires Nested(space, aliases, value, depth) && m in Names(space, value)
    ensures m in aliases && Nested(space, aliases, aliases[m], depth)
    ensures LeastDepth(space, aliases, aliases[m], depth) < LeastDepth(space, aliases, value, depth)
  {
    var d := LeastDepth(space, aliases, value, depth);
    NestedAnyMore(space, aliases, aliases[m], d - 1, depth);
    LeastIsLeast(space, aliases, aliases[m], depth, d - 1);
  }

  lemma RanksAt(space: char -> bool, aliases: map<string, string>, depth: nat, rank: map<string, nat>, name: string)
    requires rank == Ranks(space, aliases, depth)
    ensures name in rank <==> name in aliases && Nested(space, aliases, aliases[name], depth)
    ensures name in rank ==> rank[name] == LeastDepth(space, aliases, aliases[name], depth)
  {
  }

  lemma RanksBelow(
    space: char -> bool, aliases: map<string, string>, depth: nat, rank: map<string, nat>, value: string)
    requires rank == Ranks(space, aliases, depth) && Nested(space, aliases, value, depth)
    ensures RankedBelow(Names(space, value), rank, LeastDepth(space, aliases, value, depth))
  {
    forall m | m in Names(space, value)
      ensures m in rank && rank[m] < LeastDepth(space, aliases, value, depth)
    {
      RankDrops(space, aliases, value, m, depth);
      RanksAt(space, aliases, depth, rank, m);
    }
  }

  lemma RanksRank(space: char -> bool, aliases: map<string, string>, depth: nat)
    ensures Ranking(space, aliases, Ranks(space, aliases, depth))
  {
    var rank := Ranks(space, aliases, depth);
    forall name | name in rank
      ensures name in aliases && RankedBelow(Names(space, aliases[name]), rank, rank[name])
    {
      RanksAt(space, aliases, depth, rank, name);
      RanksBelow(space, aliases, depth, rank, aliases[name]);
    }
  }

  /** Nesting at most `depth` levels deep means exactly that the names can be ranked below `depth`. */
  lemma NestedIffRanked(space: char -> bool, aliases: map<string, string>, s: string, depth: nat)
    ensures Nested(space, aliases, s, depth) <==>
            exists rank: map<string, nat> :: Ranking(space, aliases, rank) && RankedBelow(Names(space, s), rank, depth)
  {
    if Nested(space, aliases, s, depth) {
      var rank := Ranks(space, aliases, depth);
      RanksRank(space, aliases, depth);
      RanksBelow(space, aliases, depth, rank, s);
      assert RankedBelow(Names(space, s), rank, depth);
    }
    if rank: map<string, nat> :| Ranking(space, aliases, rank) && RankedBelow(Names(space, s), rank, depth) {
      RankedNests(space, aliases, rank, s, depth);
    }
  }

  /**
   The limit of ten passes, as a keymap's author can check it: the names that a
   tidy text leads to can be ranked below eight, each alias above those in it.
   */
  lemma ResolvesIffRanked(space: char -> bool, aliases: map<string, string>, s: string)
    requires Tidy(space, s) && TidyTable(space, aliases)
    ensures Resolve(space, aliases, s, MAX_PASSES).Ok? <==>
            exists rank: map<string, nat> ::
              Ranking(space, aliases, rank) && RankedBelow(Names(space, s), rank, 8)
  {
    TidyResolvesIff(space, aliases, s, MAX_PASSES);
    NestedIffRanked(space, aliases, s, MAX_PASSES - 2);
  }

  // ----- What the two readings of a text mean, place by place -----

  predicate RefersAt(space: char -> bool, s: string, i: nat, name: string) {
    i < |s| && s[i] == '@' && name != "" && NameAt(space, s, i) == name
  }

  lemma RefersShift(space: char -> bool, s: string, skip: nat, i: nat, name: string)
    requires skip <= |s|
    ensures RefersAt(space, s[skip..], i, name) <==> RefersAt(space, s, i + skip, name)
  {
    if i + skip < |s| {
      assert s[skip..][i + 1..] == s[i + skip + 1..];
    }
  }

  lemma HeadHasOneAt(space: char -> bool, s: string, k: nat)
    requires s != "" && 1 <= k < HeadEnd(space, s)
    ensures s[k] != '@'
  {
    assert s[1..][k - 1] == s[k];
  }

  lemma HeadName(space: char -> bool, s: string)
    requires s != "" && s[0] == '@'
    ensures NameAt(space, s, 0) == s[1..HeadEnd(space, s)]
  {
    assert s[0 + 1..][..NameLength(space, s[1..])] == s[1..HeadEnd(space, s)];
  }

  ghost predicate RefersSomewhere(space: char -> bool, s: string, name: string) {
    exists i: nat :: RefersAt(space, s, i, name)
  }

  lemma RefersStep(space: char -> bool, s: string, name: string)
    requires s != ""
    ensures RefersSomewhere(space, s, name) <==>
            RefersAt(space, s, 0, name) || RefersSomewhere(space, s[HeadEnd(space, s)..], name)
  {
    var n := HeadEnd(space, s);
    if i: nat :| RefersAt(space, s[n..], i, name) {
      RefersShift(space, s, n, i, name);
    }
    if i: nat :| RefersAt(space, s, i, name) {
      if i >= n {
        RefersShift(space, s, n, i - n, name);
      } else if i > 0 {
        HeadHasOneAt(space, s, i);
      }
    }
  }

  lemma NamesStep(space: char -> bool, s: string, name: string)
    requires s != ""
    ensures name in Names(space, s) <==> RefersAt(space, s, 0, name) || name in Names(space, s[HeadEnd(space, s)..])
  {
    if s[0] == '@' {
      HeadName(space, s);
    }
  }

  /** The names are those that stand behind an `@` somewhere. */
  lemma {:induction false} NamesExact(space: char -> bool, s: string, name: string)
    ensures name in Names(space, s) <==> RefersSomewhere(space, s, name)
    decreases |s|
  {
    if s != "" {
      NamesStep(space, s, name);
      RefersStep(space, s, name);
      NamesExact(space, s[HeadEnd(space, s)..], name);
    }
  }

  /** The `@` at `i`, and its name if it has one, is followed directly by another `@`. */
  predicate TightAt(space: char -> bool, s: string, i: nat) {
    i < |s| && s[i] == '@' &&
    var end := i + 1 + NameLength(space, s[i + 1..]);
    end < |s| && s[end] == '@'
  }

  ghost predicate TightSomewhere(space: char -> bool, s: string) {
    exists i: nat :: TightAt(space, s, i)
  }

  lemma TightShift(space: char -> bool, s: string, skip: nat, i: nat)
    requires skip <= |s|
    ensures TightAt(space, s[skip..], i) <==> TightAt(space, s, i + skip)
  {
    if i + skip < |s| {
      assert s[skip..][i + 1..] == s[i + skip + 1..];
    }
  }

  lemma TightStep(space: char -> bool, s: string)
    requires s != ""
    ensures TightSomewhere(space, s) <==> TightAt(space, s, 0) || TightSomewhere(space, s[HeadEnd(space, s)..])
  {
    var n := HeadEnd(space, s);
    if i: nat :| TightAt(space, s[n..], i) {
      TightShift(space, s, n, i);
    }
    if i: nat :| TightAt(space, s, i) {
      if i >= n {
        TightShift(space, s, n, i - n);
      } else if i > 0 {
        HeadHasOneAt(space, s, i);
      }
    }
  }

  /** A text is tidy when no `@` follows another one or its name directly. */
  lemma {:induction false} TidyExact(space: char -> bool, s: string)
    ensures Tidy(space, s) <==> !TightSomewhere(space, s)
    decreases |s|
  {
    if s != "" {
      TightStep(space, s);
      TidyExact(space, s[HeadEnd(space, s)..]);
    }
  }

  // ----- Where a name ends -----

  /** A character that a name may contain. */
  predicate NameChar(space: char -> bool, c: char) {
    !space(c) && c != '(' && c != ')' && c != ',' && c != '@'
  }

  predicate Proper(space: char -> bool, name: string) {
    name != "" && forall k :: 0 <= k < |name| ==> NameChar(space, name[k])
  }

  /** The five ends of a name: white space, a parenthesis, a comma, another reference. */
  predicate EndsName(space: char -> bool, c: char) {
    space(c) || c in {'(', ')', ',', '@'}
  }

  /** What a pass makes of one reference. */
  function Value(aliases: map<string, string>, name: string): Pass {
    if name in aliases then Expanded(aliases[name], true) else Missing(name)
  }

  /** A proper name is taken whole, up to any of the five ends, and what follows is expanded by itself. */
  lemma ReferenceBefore(space: char -> bool, aliases: map<string, string>, name: string, c: char, tail: string)
    requires Proper(space, name) && EndsName(space, c)
    ensures Expand(space, aliases, ("@" + name) + ([c] + tail)) ==
            Both(Value(aliases, name), Expand(space, aliases, [c] + tail))
  {
    ExpandSplits(space, aliases, "@" + name, [c] + tail);
    ExpandReference(space, aliases, name);
  }

  lemma ExpandChar(space: char -> bool, aliases: map<string, string>, c: char, rest: string)
    requires c != '@'
    ensures Expand(space, aliases, [c] + rest) == After([c], false, Expand(space, aliases, rest))
  {
    assert ([c] + rest)[1..] == rest;
  }

  /** As in `LM(1, @mods)`: the parenthesis is not part of the name. */
  lemma ReferenceInParentheses(space: char -> bool, aliases: map<string, string>, name: string)
    requires Proper(space, name)
    ensures Expand(space, aliases, "(" + (("@" + name) + ")")) ==
            if name in aliases then Expanded("(" + aliases[name] + ")", true) else Missing(name)
  {
    ReferenceBefore(space, aliases, name, ')', "");
    assert [')'] + "" == ")";
    ExpandChar(space, aliases, ')', "");
    ExpandChar(space, aliases, '(', ("@" + name) + ")");
    if name in aliases {
      assert ")" + "" == ")" && "(" + (aliases[name] + ")") == "(" + aliases[name] + ")";
    }
  }
}
