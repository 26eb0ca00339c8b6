# RMK: the firmware's protocols and tables, modelled and proved

RMK is keyboard firmware with a host-side client (Rynk). This project models
the parts whose correctness is hardest to see in the code and proves what they
promise, over every input, every run and every interleaving. One module stands
for one component:

- `Crc32`: the table-driven CRC-32, refined to bit-at-a-time division by the
  polynomial (section 3.2.9 of IEEE 802.3, the same reflected polynomial as
  section 8 of RFC 1952), and exactly which damage it detects; `Crc32Values` fixes
  the polynomial by its exponents and the result on a known message.
- `RynkClient`: the client session as a transition system. Claim, queue, finish,
  cancel, fire-and-forget, write and receive are the steps between the `await`s.
  Slots are conserved under any cancellation, and replies reach their owners.
- `BulkWrite`, `BulkRead`: greedy page packing that no other split beats, the
  whole keymap written exactly once, and a read over concurrent lanes stitched
  back to the device's data.
- `KeyTable`, `Forks`, `Decisions`: the registered-key table and its six-slot
  report (Appendix B.1 of the USB Device Class Definition for HID 1.11), the
  fork chain with the modifiers it suppresses, and the tap-hold decision loop.
- `LayerCache`, `KeymapStore`: a release resolves on the layer of its press; which
  entry each key reads, what storing an action changes, and what every key gives
  after a whole keymap has been written.
- `Handover`: senders, status changes, writers and two report queues.
- `Varint`, `Macros`, `Morse`: numbers in the postcard wire format, the macro
  codec built on them, the size check on default macros, and tap/hold sequences
  in 16 bits.
- `Aliases`, `KeymapText`: alias resolution by repeated passes, layer names
  replaced in place, keys scattered onto the grid.

`Wrappers` and `Arithmetic` hold what several of them share.

Where the source updates an object in place, the model has a class whose methods
are proved equal to a function on its abstract value; the lemmas are about those
functions and about runs of them. A register or bit set is its bits (a sequence
of Booleans in `Crc32`, sets of bit numbers for modifiers, LEDs and mouse
buttons, halving and doubling in `Morse`); only `Crc32Values` compares them with
32-bit machine words.
16-bit and 8-bit truncation is written out (`% 0x1_0000`, `% 256`).

Some promises hold only on a condition, and then the condition is proved exact:

- Reply routing needs fewer than 255 SEQ allocations during a request. Exactly:
  an answer reaches its owner if and only if no other live request a multiple of
  255 allocations away sits in an earlier slot (`OwnerReceivesIff`), and an answer
  without a live owner is dropped if and only if there is no such request at all
  (`OrphanDroppedIff`). `WrapMisroutes` is a complete run, every frame written, in
  which the device's answer to one request finishes another.
- A 32-bit burst is always detected and a 33-bit burst is not: the polynomial
  itself goes unnoticed (`PolynomialBurstUndetected`); `UndetectedIff` says which
  damage escapes.
- Starts and cursors are sent as 16 bits. A resource read with its own size comes
  back from every device that answers as it should exactly up to 65536 items
  (`ReadExact`); past that, `LateReadFails` is a read that returns an item too
  many. A keymap of distinct actions is written as a whole by every order of its
  pages exactly when every page starts below 65536 (`WriteExact`).
- A release resolves on its press's layer while no other event shares its cache
  cell. `ReleaseLayerExact` gives the layer for every run, sharing or not, and
  `SharesCellIff` says which positions share: the cell index is computed without
  a column check, so a column past the last one wraps into a later row.
- Once a transport is cleared and stays out of use until it has drained, its host
  knows everything to be up if and only if no step of that period loses the last
  all-up report of a type the host has pressed (`HandoverExact`). What was lost
  before, on either transport, does not matter. Such a loss does happen: with a
  key down, USB suspended and BLE then preferred, the USB writer throws the
  reports away (`SuspendedSwitchSticks`, rmk/src/usb/mod.rs:89-92). The queue must
  have room for one report of each type (`SmallQueueSticks`).
- Appending to a tap/hold pattern appends a step exactly when it is not full
  (`AppendExact`).
- A text that refers to a cycle of aliases never resolves, unless what is pasted
  directly behind the reference lengthens its name (`CycleNeverResolves`,
  `LengthenedReferenceEscapes`); `ResolvesIff` says exactly when a text resolves.
  Where no `@` follows another one directly, the table tells beforehand: the names
  that the text leads to must be rankable below eight, so ten passes mean eight
  levels of aliases (`ResolvesIffRanked`).

Code and documentation disagree in two places. The documentation example of
`rmk/src/crc32.rs` (line 34) gives another value for `hello world` than the unit
test at line 86; neither value is part of this model, which proves the one at line
118. The `break` at
`rmk/src/keymap.rs:308-310` suggests that the search stops at the default layer,
but it cannot be reached, because the branch above it takes the default layer
first; the model keeps it and `TopLayerExact` shows that every layer is searched.

## Model

| member | source | states |
|---|---|---|
| Crc32.TableEntry | rmk/src/crc32.rs:6-15 | the inner loop computes eight divisions of its start value |
| Crc32.BuildTable | rmk/src/crc32.rs:2-20 | entry `k` is the register `k` after a whole zero byte, for all 256 |
| Crc32.TableStep | rmk/src/crc32.rs:49-50 | feeding a few bits equals shifting the register and adding the divided low part: why a table of the low part is enough |
| Crc32.Calculator.Update | rmk/src/crc32.rs:47-52 | the table-driven loop leaves the register that bit-at-a-time division leaves |
| Crc32.Calculator.constructor | rmk/src/crc32.rs:42-44 | the register starts at all ones, with a correct table |
| Crc32.Calculator.Finalize | rmk/src/crc32.rs:54-57 | if the register is that of some data, fed in whatever pieces, the result is the CRC of that data by definition |
| Crc32.Compute | rmk/src/crc32.rs:68-72 | one call gives the CRC-32 of the definition for the IEEE generator |
| Crc32.ComputeInChunks | rmk/src/crc32.rs:46-57 | two chunks give the CRC of their concatenation |
| Crc32Values.IeeeExponents | rmk/src/crc32.rs:10 | the generator is that of IEEE 802.3: bit `31 - e` is set exactly for its exponents 0, 1, 2, 4, 5, 7, 8, 10, 11, 12, 16, 22, 23, 26 |
| Crc32Values.KnownValue | rmk/src/crc32.rs:118 | the CRC of the bytes 0, 1, 2, 3 is 0x8BB9_8613, which fixes the start value, the complement and the bit order |
| Crc32.ShiftXor | rmk/src/crc32.rs:9-13 | one division is linear over exclusive-or |
| Crc32.ShiftInjective | rmk/src/crc32.rs:9-13 | one division loses no information |
| Crc32.FeedConcat | rmk/src/crc32.rs:47-52 | the register over a concatenation is the register over the second part from that over the first |
| Crc32.BurstDetected | rmk/src/crc32.rs:46-57 | equal-length messages that differ only inside 32 consecutive bits, from any bit on, have different CRCs |
| Crc32.FourByteDamageDetected | rmk/src/crc32.rs:46-57 | equal-length messages that differ only inside four consecutive bytes have different CRCs |
| Crc32.UndetectedIff | rmk/src/crc32.rs:46-57 | two CRCs agree exactly when the difference pattern divides evenly |
| Crc32.PolynomialBurstUndetected | rmk/src/crc32.rs:10 | the limit: a 33-bit burst equal to the polynomial goes unnoticed in every message |
| RynkClient.Client.constructor | rynk/src/driver.rs:190-206 | a fresh client has every slot free and the first SEQ 1 |
| RynkClient.Client.AllocSeq | rynk/src/driver.rs:266-272 | hands out the current SEQ and moves to the next in 1..=255 |
| RynkClient.Client.Claim | rynk/src/driver.rs:226-234 | takes the first free slot, clears its signal and arms it with a new SEQ; nothing else changes |
| RynkClient.Client.DropGuard | rynk/src/driver.rs:154-162 | clears the slot and returns its index if the free-list has room |
| RynkClient.Client.Deliver | rynk/src/driver.rs:384-395 | signals the first slot waiting for the SEQ, or drops the frame; SEQ 0 is dropped outright |
| RynkClient.SeqOfCycles | rynk/src/driver.rs:264-272 | allocation `a` gets SEQ `a mod 255 + 1` |
| RynkClient.SameSeqIff | rynk/src/driver.rs:264-272 | two allocations share a SEQ exactly when their distance is a multiple of 255; no SEQ is 0 |
| RynkClient.InitInv | rynk/src/driver.rs:190-206 | the conservation invariant holds at the start |
| RynkClient.ReleasePartition | rynk/src/driver.rs:154-162 | a returned index always finds room in the free-list, and the partition of the slots is kept |
| RynkClient.StepInv | rynk/src/driver.rs:224-236 | every step keeps: free indices and guards partition the slots, free slots are cleared, live slots carry their own SEQ |
| RynkClient.RunInv | rynk/src/driver.rs:147-162 | the same after every run, under any cancellation |
| RynkClient.RecentDistinct | rynk/src/driver.rs:264-272 | live SEQs are pairwise distinct while fewer than 255 were allocated since each claim |
| RynkClient.StrayDropped | rynk/src/driver.rs:379-395 | a frame whose SEQ no live request waits for changes nothing |
| RynkClient.UniqueWaiterReached | rynk/src/driver.rs:387-395 | with distinct SEQs a frame changes only the signal of the request waiting for it |
| RynkClient.ReplyReachesOwner | rynk/src/driver.rs:379-395 | an answer within 255 allocations reaches exactly the request that allocated its SEQ, and nobody if that was cancelled |
| RynkClient.StepOwnReplies | rynk/src/driver.rs:229-236 | every orderly step keeps: a signalled reply answers the request that holds the slot |
| RynkClient.RunOwnReplies | rynk/src/driver.rs:229-236 | over every orderly run a request only ever sees its own reply |
| RynkClient.ClaimDistinctIff | rynk/src/driver.rs:229-234 | a claim keeps SEQs distinct exactly when no live request is a multiple of 255 allocations old |
| RynkClient.OwnerReceivesIff | rynk/src/driver.rs:384-391 | an answer reaches its live owner exactly when no other live request a multiple of 255 allocations away sits in an earlier slot |
| RynkClient.OrphanDroppedIff | rynk/src/driver.rs:379-395 | an answer without a live owner is dropped exactly when no live request is a multiple of 255 allocations away |
| RynkClient.WrapMisroutes | rynk/src/driver.rs:255-262 | a run in which two requests and 254 fire-and-forget commands are all written, and the device's answer to the second request finishes the first, while the second waits on |
| RynkClient.SessionSafe | rynk/src/driver.rs:169-206 | from a fresh client every run keeps the slot count, at most that many requests live, and own replies in orderly runs |
| RynkClient.WrittenCommands | rynk/src/driver.rs:224-235 | over every run from a fresh client every written frame and every request carries the command given for its allocation |
| RynkClient.RequestKept | rynk/src/driver.rs:224-236 | a request keeps its command and its allocation until it ends |
| RynkClient.NoMismatch | rynk/src/driver.rs:239-245 | with a device that echoes the command, a request's answer never has another command |
| BulkWrite.SplitPages | rynk/src/api.rs:578-606 | fails exactly when some item cannot go alone; otherwise the pages are the items in order, none empty, each within budget with its widening count, starts equal to the items before, and no split into fitting pages is shorter |
| Varint.VarintMonotone | rynk/src/api.rs:593-594 | a larger count never takes fewer bytes |
| BulkWrite.PartFits | rynk/src/api.rs:595 | any contiguous part of a fitting page fits |
| BulkWrite.GreedyAhead | rynk/src/api.rs:587-601 | after equally many pages no other fitting split is ahead of the greedy one |
| BulkWrite.GreedyOptimal | rynk/src/api.rs:587-601 | no fitting split has fewer pages than the greedy one |
| BulkWrite.DrainChunks | rynk/src/api.rs:560 | lanes take their pages off the front: all pages, in order, none twice |
| BulkWrite.SplitLanes | rynk/src/api.rs:558-560 | the same with the even share as chunk; no lane exceeds it |
| BulkWrite.KeymapPosExact | rynk/src/api.rs:613-618 | on byte-sized dimensions the address of an index is in range and its flat index is that index |
| BulkWrite.StartReachesKeyIff | rynk/src/api.rs:597 | a start cut to 16 bits still addresses its key exactly below 65536 |
| BulkWrite.AddressedIff | rynk/src/api.rs:441-456 | the pages of a keymap are addressed to their own keys exactly when every page starts below 65536 |
| BulkWrite.SmallKeymapNamed | rynk/src/api.rs:597-604 | in a keymap of at most 65536 keys every page starts below 65536 |
| BulkWrite.PagesTile | rynk/src/api.rs:550-571 | every index lies in exactly one page |
| BulkWrite.PageLands | rmk/src/host/rynk/handlers/keymap.rs:118-134 | storing one page changes exactly its own keys, to their new actions |
| BulkWrite.StoreAllAt | rynk/src/api.rs:561-570 | after any pages in any order, a key is new if its page was among them and old otherwise: also when a lane has failed |
| BulkWrite.WholeKeymapWritten | rynk/src/api.rs:550-571 | if every page starts below 65536, as in every keymap of at most that many keys, then once all pages are stored, in any order of the lanes, the keymap is the new one |
| BulkWrite.LatePageMisplaced | rynk/src/api.rs:597-616 | a page that starts at or above 65536, stored last, leaves its first action at that start modulo 65536 |
| BulkWrite.WriteExact | rynk/src/api.rs:550-571 | a keymap of distinct actions is written as a whole, by every order of its pages and over every old keymap, exactly when every page starts below 65536 |
| BulkRead.Spacing | rynk/src/api.rs:497-498 | the window is the advertised page's share of the frame that parked requests leave, rounded down, and at least 1 |
| BulkRead.FirmwareAnswers | rmk/src/host/rynk/handlers/bulk.rs:14-19 | the firmware's page is always a run of its data from the cursor, empty only past the end |
| BulkRead.Stitch | rynk/src/api.rs:537-544 | the loop appends each page's new part up to the first gap |
| BulkRead.StitchPrefix | rynk/src/api.rs:537-544 | true pages stitch to a prefix of the data, whatever is missing |
| BulkRead.StitchReaches | rynk/src/api.rs:536-544 | sorted pages that reach every index below a bound stitch at least to that bound |
| BulkRead.TakeKeeps | rynk/src/api.rs:515-530 | no reply makes a lane lose an index it has or owes, short and overshooting pages included |
| BulkRead.ClaimLosesNothing | rynk/src/api.rs:503-511 | claiming a window keeps every index of the claimed windows accounted for |
| BulkRead.ReceiveLosesNothing | rynk/src/api.rs:513-530 | so does every reply, unless a lane failed |
| BulkRead.RunInv | rynk/src/api.rs:500-533 | windows, recorded pages and accounting stay right over every interleaving of the lanes |
| BulkRead.SmallTotalNamed | rynk/src/api.rs:507-517 | with a total of at most 65536 no run asks for a cursor that 16 bits cannot hold |
| BulkRead.CursorNamedIff | rynk/src/api.rs:517 | where no item occurs twice, a fetched page belongs at its cursor exactly when the cursor fits 16 bits |
| BulkRead.ReadIsPrefix | rynk/src/api.rs:491-546 | every read of a truthful device, empty pages included, returns a prefix of its data |
| BulkRead.ReadIsComplete | rynk/src/api.rs:491-546 | if the device is empty only at its end, a finished read returns its data, for every assignment of windows to lanes |
| BulkRead.LateReadFails | rynk/src/api.rs:513-530 | for any lanes and windows and any data of more than 65536 items, a finished read of a device that answers as it should returns one item too many |
| BulkRead.ReadExact | rynk/src/api.rs:491-546 | a read with the device's own size returns its data for every run, every cut into pages and every sort exactly when there are at most 65536 items |
| BulkRead.StepUsesWork | rynk/src/api.rs:502-532 | every step of a lane uses up a finite amount of work |
| BulkRead.RunsEnd | rynk/src/api.rs:502-532 | no run is longer than the work at its start, so every lane terminates |
| BulkRead.FailedIff | rynk/src/api.rs:513-521 | after every run a lane has failed exactly when it had an error other than Busy, or a seventeenth Busy in one window |
| BulkRead.PatientReadFinishes | rynk/src/api.rs:513-532 | with neither, a read that cannot go on is finished, so `ReadExact` covers it |
| KeyTable.Keys.Retain | rmk/src/keyboard.rs:1842 | keeps exactly the entries the event does not refer to, in order |
| KeyTable.Keys.RegisterKey | rmk/src/keyboard.rs:1835-1861 | a press replaces what it refers to, is dropped on a full report or table, and otherwise ends older `KeyWithModifier` modifiers |
| KeyTable.Keys.UnregisterKey | rmk/src/keyboard.rs:1864-1872 | a release removes what it refers to |
| KeyTable.Keys.CountKeycodes | rmk/src/keyboard.rs:1844 | counts the keycode entries |
| KeyTable.Keys.HeldModifiers | rmk/src/keyboard.rs:1875-1880 | folds the modifiers of the modifier entries |
| KeyTable.Keys.BuildReport | rmk/src/keyboard.rs:1786-1795 | from every reachable table the six slots are filled without overrun with the distinct usages in press order, the rest empty |
| KeyTable.WithoutMembers | rmk/src/keyboard.rs:1916-1923 | an entry survives `retain` exactly when it is there and does not match |
| KeyTable.PlainMatches | rmk/src/keyboard.rs:1917-1918 | `KeyWithModifier` modifiers do not identify a key: dropping them changes no match |
| KeyTable.RegisterInv | rmk/src/keyboard.rs:1835-1861 | a press keeps: no earlier entry matches a later one, at most 6 keycodes and 16 entries, only the last keycode entry carries modifiers |
| KeyTable.UnregisterInv | rmk/src/keyboard.rs:1864-1872 | so does a release |
| KeyTable.RunInv | rmk/src/keyboard.rs:1835-1872 | so does every run |
| KeyTable.OneEntryPerSource | rmk/src/keyboard.rs:1914-1923 | a source that is not a macro has at most one entry |
| KeyTable.ReleasedOwnsNothing | rmk/src/keyboard.rs:1864-1866 | over every run, a source that is not a macro and whose latest event is a release owns no entry |
| KeyTable.UsagesExact | rmk/src/keyboard.rs:1782-1795 | the report holds exactly the held usages, each once |
| KeyTable.UsageAfter | rmk/src/keyboard.rs:1782-1785 | a usage is in the next report exactly while one of its holders survives the event, or the event adds it |
| KeyTable.HeldModsExact | rmk/src/keyboard.rs:1875-1880 | a modifier is held exactly when some modifier entry has it |
| KeyTable.KeycodeModsAreLast | rmk/src/keyboard.rs:1848-1851 | all modifiers carried by keycode entries are those of the newest entry |
| KeyTable.NextPressEndsMods | rmk/src/keyboard.rs:1848-1852 | a press that enters the table leaves only its own `KeyWithModifier` modifiers |
| KeyTable.SurvivesExact | rmk/src/keyboard.rs:1914-1923 | which entries an event leaves, from its source, key and modifiers: other sources' entries, and a macro's entries for another key |
| KeyTable.AddsIff | rmk/src/keyboard.rs:1836-1847 | a press enters exactly when, besides what it replaces, there are fewer than 16 entries and, for a key, fewer than six keys |
| KeyTable.HeldAfter | rmk/src/keyboard.rs:1852-1880 | what is held after an entering press: what survives it, and what a modifier action carries |
| KeyTable.ModifierKeyHeld | rmk/src/keyboard.rs:1906-1911 | a press of usage 0xE0 + b with room adds exactly bit b to the held modifiers and to the keep mask |
| KeyTable.KeepMaskExact | rmk/src/keyboard.rs:1853-1855 | only an entering modifier action exempts modifiers from the forks that have fired, and exactly its own |
| Forks.ForkEngine.FindFork | rmk/src/keyboard.rs:902-913 | finds the first idle, unused fork that takes the key on its layer and has an output |
| Forks.ForkEngine.FollowChain | rmk/src/keyboard.rs:895-957 | the labelled loop computes the chain's replacement, suppression, keep mask and first fork, and terminates |
| Forks.ForkEngine.TryStartPress | rmk/src/keyboard.rs:885-980 | a press marks only the chain's first fork, and tells whether some held modifier is suppressed, not kept and not added back by the replacement |
| Forks.ForkEngine.TryStartRelease | rmk/src/keyboard.rs:871-882 | a release gets the replacement of its source's active fork |
| Forks.ForkEngine.TryFinishRelease | rmk/src/keyboard.rs:986-996 | a release deactivates every fork of the source and no other, a press nothing; the result tells whether the resolved modifiers changed |
| Forks.ForkEngine.ResolveModifiers | rmk/src/keyboard.rs:1397-1427 | the two loops and the caps word test give explicit modifiers less the suppressed ones, plus those of keycode entries and caps word's shift |
| Forks.ForkEngine.constructor | rmk/src/keyboard.rs:897-900 | no fork is active at the start |
| Forks.Follow | rmk/src/keyboard.rs:896-952 | evaluation ends for every fork table, uses each fork at most once per chain, and only idle ones |
| Forks.FollowStep | rmk/src/keyboard.rs:901-947 | one turn of the chain, and why the used forks grow |
| Forks.PressDecides | rmk/src/keyboard.rs:895-957 | for every chain, from the forks' fields: the first idle, unused fork on the layer that waits for the key fires; the next key is its positive output when a matched bit is on and no excluded one is, else its negative one; held and kept modifiers follow; what the forks match and do not keep is suppressed; after a bindable end nothing could still fire |
| Forks.FollowIsTrace | rmk/src/keyboard.rs:901-952 | every chain is such a trace, from any point of it on |
| Forks.FollowSuppresses | rmk/src/keyboard.rs:925-927 | the suppression is the union over the path of what each fork matches and does not keep |
| Forks.PressActivatesIdle | rmk/src/keyboard.rs:959-969 | a press never overwrites another active fork |
| Forks.OthersKeep | rmk/src/keyboard.rs:866-996 | over every run of other sources' events a source's active fork stays as it was |
| Forks.ReleaseGetsPressChoice | rmk/src/keyboard.rs:862-882 | the release gets the replacement chosen at press, whatever came between |
| Forks.UpOwnsNothing | rmk/src/keyboard.rs:983-992 | over every run a source that is up owns no active fork |
| Forks.PressReleasePair | rmk/src/keyboard.rs:862-996 | the same over every run with alternating events: press choice on release, nothing owned afterwards |
| Forks.SuppressionHasOwner | rmk/src/keyboard.rs:1403-1406 | a modifier is suppressed exactly when an active fork suppresses it |
| Forks.ReleasedSuppressesNothing | rmk/src/keyboard.rs:983-996 | after a release, a held modifier still missing from the report is another source's doing |
| Forks.DroppedLeaveReport | rmk/src/keyboard.rs:971-980 | modifiers reported as dropped were held and are no longer reported |
| Forks.ResolvedExact | rmk/src/keyboard.rs:1392-1427 | a modifier is in the report exactly when the newest key carries it, caps word adds it, or it is held or one-shot and not suppressed, or kept |
| Forks.ReleaseChangesIff | rmk/src/keyboard.rs:983-996 | the end of a fork changes the report exactly when it brings back a modifier that only this source suppressed, and it never takes one away |
| Decisions.HeldBuffer.MakeDecisions | rmk/src/keyboard.rs:678-824 | on a press, the verdict of every held key and the decision for the new one, from the streak, the profiles and the event; on the release of an unresolved buffered key likewise; otherwise nothing; the verdict list never overflows |
| Decisions.CurrentOnPress | rmk/src/keyboard.rs:739-788 | on a press the decision for the new key is that of the last held key that has its say, or the initial one |
| Decisions.FlowingOnPress | rmk/src/keyboard.rs:742-750 | a typing streak lasts exactly until a held key that it does not tap has its say |
| Decisions.PressExact | rmk/src/keyboard.rs:713-788 | which verdict each held key gets on a press, that none is missing, and the decision for the new key |
| Decisions.HeldBuffer.FindHeld | rmk/src/keyboard/held_buffer.rs:36-38 | finds the first entry of a source |
| Decisions.HeldBuffer.SortByPress | rmk/src/keyboard.rs:711 | the buffer is a sorted permutation of itself |
| Decisions.VerdictsInPressOrder | rmk/src/keyboard.rs:713-823 | the verdicts name unresolved held keys in press order |
| Decisions.OneVerdictPerKey | rmk/src/keyboard.rs:713-823 | no held key gets two verdicts |
| Decisions.CurrentOnRelease | rmk/src/keyboard.rs:793-797 | the current decision is Release exactly once the released key has been passed |
| Decisions.ReleaseExact | rmk/src/keyboard.rs:720-819 | which verdict each held key gets on a release, and that no expected verdict is missing |
| Decisions.ReleaseVerdicts | rmk/src/keyboard.rs:703-823 | exactly one Release; every permissive hold and unilateral tap precedes it and falls on a key pressed no later |
| Decisions.ChecksExact | rmk/src/keyboard.rs:703-707 | a release is compared with the buffer exactly when its key stands there unresolved |
| LayerCache.KeyMap.GetAction | rmk/src/keymap.rs:293-316 | a press takes the first opaque active-or-default layer from the top and caches it; a release reads the cache and resets it |
| LayerCache.KeyMap.ReplaceLayerCache | rmk/src/keymap.rs:327-349 | replaces exactly the source's cell and returns what was there, or the default layer without a cell |
| LayerCache.KeyMap.GetActivatedLayer | rmk/src/keymap.rs:318-325 | the topmost active-or-default layer |
| LayerCache.KeyMap.UpdateTriLayer | rmk/src/keymap.rs:359-366 | the third layer becomes the conjunction of the first two |
| LayerCache.KeyMap.ActivateLayer | rmk/src/keymap.rs:368-378 | turns the layer on and updates the tri-layer; an invalid layer changes nothing |
| LayerCache.KeyMap.DeactivateLayer | rmk/src/keymap.rs:380-390 | turns it off likewise |
| LayerCache.KeyMap.ToggleLayer | rmk/src/keymap.rs:392-402 | flips it likewise |
| LayerCache.KeyMap.SetDefaultLayer | rmk/src/keymap.rs:202-218 | only a valid layer becomes the default |
| LayerCache.KeyMap.UpdateFnLayer | rmk/src/keymap.rs:351-357 | with more than three layers, layer 3 is the conjunction of 1 and 2 |
| LayerCache.TopLayerExact | rmk/src/keymap.rs:299-311 | the search finds the highest candidate and misses none |
| LayerCache.ActivatedExact | rmk/src/keymap.rs:318-325 | the activated layer is the highest one that is active or default |
| LayerCache.SwitchExact | rmk/src/keymap.rs:359-402 | switching a layer sets that layer, derives the tri-layer, and leaves every other layer |
| LayerCache.OtherSwitches | rmk/src/keymap.rs:202-211 | a valid default replaces the old one, the fn update derives layer 3, an invalid layer changes nothing |
| LayerCache.CellsDistinct | rmk/src/keymap.rs:173-190 | positions that exist have a cell, and no two share one |
| LayerCache.CellKept | rmk/src/keymap.rs:327-349 | layer changes and events with other cells leave a cell alone, over every run |
| LayerCache.ReleaseOnPressLayer | rmk/src/keymap.rs:293-316 | over every run between them, the release resolves on the press's layer; after an exhausted press, on the default layer of that time |
| LayerCache.ReleaseReadsCell | rmk/src/keymap.rs:294-297 | the same for any source with a cell, as long as no event shares the cell |
| LayerCache.CellAfterRun | rmk/src/keymap.rs:327-349 | after every run a cell holds what the last event with that cell left: the layer a press found, or the default layer of a release |
| LayerCache.ReleaseLayerExact | rmk/src/keymap.rs:293-316 | the layer on which the release after any run resolves, events sharing the cell included |
| LayerCache.SharesCellIff | rmk/src/keymap.rs:173-175 | which sources share an existing key's cell: exactly the columns past the last one that wrap onto it |
| LayerCache.OutOfRangeEventRedirects | rmk/src/keymap.rs:330-332 | an event past the last column does redirect another key's release |
| LayerCache.TriHolds | rmk/src/keymap.rs:359-366 | the tri-layer relation survives every run without the fn-layer update |
| KeymapStore.FlatIndexCounts | rmk/src/keymap.rs:163-165 | flat indices count the positions along the row, then down the rows, then up the layers |
| KeymapStore.KeyReads | rmk/src/keymap.rs:220-231 | a key reads the entry at its own flat index |
| KeymapStore.KeysDistinct | rmk/src/keymap.rs:163-165 | no two existing keys read the same entry |
| KeymapStore.SetKeyReads | rmk/src/keymap.rs:261-272 | after an action is stored for a key on a layer, that key gives it there and every other source and layer gives what it gave |
| KeymapStore.SetEncoderReads | rmk/src/keymap.rs:273-283 | the same for an encoder's turn |
| KeymapStore.EncoderReads | rmk/src/keymap.rs:232-246 | the clockwise turn reads the clockwise half of the encoder's entry, the other turn the other half |
| KeymapStore.TouchReads | rmk/src/keymap.rs:247-253 | a touch gesture reads its own entry |
| KeymapStore.PressGivesStored | rmk/src/keymap.rs:293-316 | a press that resolves on the layer just edited gives the stored action |
| KeymapStore.WrittenKeysRead | rmk/src/host/rynk/handlers/keymap.rs:118-134 | after every page of a keymap has been stored, in any order, each key gives its own item |
| Handover.Channels.TrySendReport | rmk/src/channel.rs:74-78 | a report goes to the active queue if it has room, and is dropped otherwise |
| Handover.Channels.ClearAndRelease | rmk/src/channel.rs:83-97 | the queue becomes the all-up batch, as far as it has room |
| Handover.Channels.CommitStatus | rmk/src/state.rs:55-71 | the status is committed first; the transport to clear is the one that stops being active |
| Handover.Channels.UpdateStatus | rmk/src/state.rs:54-81 | the whole update, with the clearing after the commit |
| Handover.ActiveExact | rmk-types/src/connection.rs:69-87 | USB is up when configured or suspended, BLE when connected; a transport is active exactly when it is up and preferred or the other is not up |
| Handover.RunInOrder | rmk/src/channel.rs:53-78 | on a transport in use, what was on the way followed by everything accepted is, in order, what has left followed by what is on the way |
| Handover.HostSees | rmk/src/usb/mod.rs:82-106 | the host sees exactly the delivered reports, in that order |
| Handover.SendWaits | rmk/src/channel.rs:53-61 | a send is accepted, or waits with its report and the transport it chose; without a transport it is dropped |
| Handover.WaitingKept | rmk/src/channel.rs:57-63 | a waiting sender keeps both until it wakes or is given up |
| Handover.WakeAcceptedIff | rmk/src/channel.rs:63-67 | when it wakes, its report is accepted exactly when its transport is still the active one |
| Handover.TailStep | rmk/src/channel.rs:53-97 | every step of senders, status changes, clearings and writers, losses included, keeps a retired queue a suffix of the all-up batch |
| Handover.StepInv | rmk/src/channel.rs:53-97 | every step that loses no release keeps the types that have left a retired queue settled at its host |
| Handover.RunTail | rmk/src/channel.rs:53-97 | after every run a retired queue holds only a suffix of the all-up batch |
| Handover.ClearRestores | rmk/src/channel.rs:83-97 | whatever was lost before, clearing a transport sets it right |
| Handover.FailSettled | rmk/src/usb/mod.rs:94-106 | a failed write is harmless when the batch behind it or the host's own state makes it good |
| Handover.DiscardSettled | rmk/src/usb/mod.rs:89-92 | a report thrown away on a suspended bus is harmless when the host knew that type to be up |
| Handover.ReleasedIff | rmk/src/channel.rs:80-97 | from a settled state, a transport that stays retired until it has drained has told its host that everything is up exactly when no step lost a release |
| Handover.HandoverExact | rmk/src/channel.rs:80-97 | the same for every clearing in every run, whatever happened before it |
| Handover.LossIsStuck | rmk/src/usb/mod.rs:82-106 | a lost release leaves its type pressed at the host with nothing on the way about it |
| Handover.StuckRun | rmk/src/usb/mod.rs:82-106 | and so it stays over every run in which the transport stays out of use |
| Handover.SuspendedSwitchSticks | rmk/src/usb/mod.rs:89-92 | a key down, USB suspended, BLE preferred: the writer throws the release away and the key sticks at the USB host |
| Handover.SmallQueueSticks | rmk/src/channel.rs:86-96 | with fewer slots than types, a type stays pressed without any loss |
| Varint.VarintRoundTrip | rmk-types/src/keyboard_macros.rs:60 | a number in the decoder's range is read back, with what follows it |
| Varint.VarintMinimal | rmk-types/src/keyboard_macros.rs:67 | the encoder never takes more bytes than the decoder read |
| Varint.VarintMaxSizeExact | rmk-types/src/lib.rs:64-73 | the size computed from the highest set bit is the length of the encoding |
| Varint.VarintDigits | rmk-types/src/keyboard_macros.rs:60 | byte `k` holds bits `7k` to `7k + 6` of the number, and its top bit tells whether more follow |
| Macros.OpBytes | rmk-types/src/keyboard_macros.rs:23-37 | the wire form of each kind of operation: its place in the enumeration, then its payload |
| Macros.OpRoundTrip | rmk-types/src/keyboard_macros.rs:58-71 | one operation is read back, with what follows it |
| Macros.OpRestricts | rmk-types/src/keyboard_macros.rs:64-71 | one decoded operation is valid, its bytes decode by themselves, and its own encoding is no longer |
| Macros.AllRoundTrip | rmk-types/src/keyboard_macros.rs:50-71 | decoding the stored bytes of any operation list returns the list |
| Macros.Macro.Push | rmk-types/src/keyboard_macros.rs:57-62 | appends the encoding exactly when it fits, else changes nothing |
| Macros.Macro.PushAll | rmk-types/src/keyboard_macros.rs:51-55 | succeeds exactly when the whole list fits, and then stores its encoding |
| Macros.Macro.Ops | rmk-types/src/keyboard_macros.rs:64-71 | the operations decoded off the front |
| Macros.Macro.FromBytes | rmk-types/src/keyboard_macros.rs:80-86 | accepts exactly the byte strings made of whole operations that fit, and takes them over unchanged |
| Macros.WholeIff | rmk-types/src/keyboard_macros.rs:78-84 | taking operations off the front ends exactly when the bytes are a concatenation of single operations |
| Macros.SerializedIsStored | rmk-types/src/keyboard_macros.rs:95-101 | a pushed macro serializes to its count and its stored bytes |
| Macros.SerializedBound | rmk-types/src/keyboard_macros.rs:129-132 | no macro serializes past the declared maximum |
| Macros.ReencodedSame | rmk-types/src/keyboard_macros.rs:64-71 | encoding the decoded operations again keeps them |
| Macros.ListDeserializes | rmk-types/src/keyboard_macros.rs:103-127 | every serialized list that fits is read back whole, with what follows it |
| Macros.LongListRefused | rmk-types/src/keyboard_macros.rs:114-122 | a serialized list that does not fit is refused as a whole |
| Macros.DeserializeSerialized | rmk-types/src/keyboard_macros.rs:95-127 | what any macro serializes is read back as its operations, minimally encoded |
| Macros.MacroSize | rmk-types/src/keyboard_macros.rs:161-174 | the loop adds up the bound of each operation and of the length |
| Macros.CheckPlayable | rmk-types/src/keyboard_macros.rs:186-194 | accepts exactly ASCII text with at most one pause |
| Macros.ValidateDefaultMacros | rmk-types/src/keyboard_macros.rs:179-199 | accepts exactly playable tables whose bounds with the unused slots fit |
| Macros.StoredWithinBound | rmk-types/src/keyboard_macros.rs:158-174 | the true size of a macro never passes its bound, although the bounded length may have a longer varint |
| Macros.OpBoundExact | rmk-types/src/keyboard_macros.rs:165-170 | the bound is the exact size of an operation without an action, and an action counts as its maximum |
| Macros.TextTableFitsIff | rmk-types/src/keyboard_macros.rs:176-199 | a table without actions passes the size check exactly when it really fits |
| Macros.AcceptedTableFits | rmk-types/src/keyboard_macros.rs:176-199 | an accepted table really fits, and so does each macro |
| Morse.EncodeDecode | rmk-types/src/morse.rs:315-321 | a pattern is the encoding of its steps |
| Morse.DecodeEncode | rmk-types/src/morse.rs:315-321 | steps are the decoding of their encoding |
| Morse.NamedPatterns | rmk-types/src/morse.rs:323-326 | the named patterns are a tap, a hold, two taps, and a tap and a hold |
| Morse.PatternIffFifteenSteps | rmk-types/src/morse.rs:335-337 | a number fits 16 bits exactly when it has at most 15 steps |
| Morse.LengthExact | rmk-types/src/morse.rs:361-365 | the leading zeros give the number of steps |
| Morse.FullExact | rmk-types/src/morse.rs:357-359 | the top bit is set exactly at 15 steps |
| Morse.AppendExact | rmk-types/src/morse.rs:380-388 | appending adds the step exactly when the pattern is not full |
| Morse.StartsWithExact | rmk-types/src/morse.rs:368-372 | the shift comparison is the prefix relation |
| Morse.AllTapsExact | rmk-types/src/morse.rs:392-394 | the power-of-two test means non-empty and only taps |
| Morse.LastIsHoldExact | rmk-types/src/morse.rs:376-378 | the low bit is the last step |
| Morse.MorseKey.Put | rmk-types/src/morse.rs:546-556 | sets or removes one pattern and changes no other; fails only when a new pattern finds the map full |
| Morse.MorseKey.TryPredictFinalAction | rmk-types/src/morse.rs:514-524 | predicts exactly when the pattern is configured and nothing configured goes on from it |
| Morse.MorseKey.HasPatternOrContinuation | rmk-types/src/morse.rs:538-540 | holds exactly when something configured is the pattern or goes on from it |
| Morse.PredictExact | rmk-types/src/morse.rs:514-524 | the comparison of every configured pattern amounts to: something is configured here and nothing longer |
| Morse.PredictionFinal | rmk-types/src/morse.rs:514-524 | after a prediction the predicted action is the one selected here, and no continuation selects any action |
| Morse.DeadEndStays | rmk-types/src/morse.rs:538-540 | once nothing can go on, no further steps change that |
| Aliases.FindAt | rmk-config/src/keymap.rs:216-217 | the first `@` from a position on |
| Aliases.FindNameEnd | rmk-config/src/keymap.rs:224-229 | the name ends at the first delimiter or the end |
| Aliases.ReferenceBefore | rmk-config/src/keymap.rs:220-230 | a name free of white space, parentheses, commas and `@` is taken whole up to any of these, and what follows is expanded by itself |
| Aliases.ReferenceInParentheses | rmk-config/src/keymap.rs:220-222 | a closing parenthesis is not part of the name before it |
| Aliases.ExpandOnce | rmk-config/src/keymap.rs:211-247 | one pass replaces every reference of the text at once, or reports the first undefined one |
| Aliases.AliasResolver | rmk-config/src/keymap.rs:205-265 | the loop computes the resolution and makes at most ten passes, for any table |
| Aliases.UnchangedIff | rmk-config/src/keymap.rs:231-256 | a pass replaces nothing exactly when the text has no reference, and then it changes nothing |
| Aliases.SuccessIsResolved | rmk-config/src/keymap.rs:205-265 | a success has no reference left and resolves to itself, with any table |
| Aliases.ResolvesIff | rmk-config/src/keymap.rs:247-262 | resolution succeeds exactly when the references are gone two passes before the limit |
| Aliases.TidyResolvesIff | rmk-config/src/keymap.rs:205-265 | where no `@` follows another one or its name directly, resolution with any pass limit succeeds exactly when every name the text leads to has an alias and aliases nest two levels less deep than the limit |
| Aliases.NestedIffRanked | rmk-config/src/keymap.rs:231-246 | nesting to a depth means exactly that the names can be ranked below it, each alias above the names in it |
| Aliases.ResolvesIffRanked | rmk-config/src/keymap.rs:249-254 | the limit of ten passes as a condition on the table: the names can be ranked below eight |
| Aliases.ExpandOnNames | rmk-config/src/keymap.rs:216-247 | a pass over a tidy text succeeds exactly when all its names have aliases, leaves it tidy, and puts the names of the aliases in their place |
| Aliases.NamesExact | rmk-config/src/keymap.rs:216-230 | the names of a text are those that stand behind an `@` somewhere |
| Aliases.TidyExact | rmk-config/src/keymap.rs:223-236 | a text is tidy when nowhere an `@` follows another one or its name directly |
| Aliases.MissingIff | rmk-config/src/keymap.rs:238-244 | a pass fails exactly when some reference has no alias |
| Aliases.ExpandSplits | rmk-config/src/keymap.rs:220-229 | a pass over two pieces separated by a delimiter expands each by itself |
| Aliases.ResolveSplits | rmk-config/src/keymap.rs:205-265 | so does the whole resolution: it succeeds exactly when both do |
| Aliases.CycleNeverResolves | rmk-config/src/keymap.rs:247-258 | a text that refers to a name on a cycle of any length, or to one that leads there, never resolves |
| Aliases.LengthenedReferenceEscapes | rmk-config/src/keymap.rs:216-246 | unless another reference follows directly: what it pastes can lengthen the name, and the text resolves |
| Aliases.SelfReferenceTooDeep | rmk-config/src/keymap.rs:249-254 | an alias that refers to itself is reported |
| KeymapText.ReplaceSpans | rmk-config/src/keymap.rs:280-289 | for disjoint spans collected in any order, the result is the left-to-right substitution in the order of the text |
| KeymapText.OneOrder | rmk-config/src/keymap.rs:284 | disjoint spans have only one order in the text, so it does not matter how they are sorted |
| KeymapText.BuildLayerGrid | rmk-config/src/keymap.rs:173-185 | fails exactly on a count mismatch; otherwise each mapped position holds its own key and every other position none |

## Left out

- Framing: COBS, the `Deframer`, reply decoding and the topic queue of `rynk/src/driver.rs`; a frame is its command, SEQ and origin.
- A request whose frame cannot be encoded is, in `RynkClient`, a claim followed by a cancel.
- BulkRead.ReadIsComplete: does not cover runs that ask for a cursor above 65535, some of which still come back right; `ReadExact` gives the exact condition over all runs.
- BulkRead.ReadIsPrefix: does not cover them either, for the same reason.
- BulkWrite.WholeKeymapWritten: does not cover splits with a page that starts above key 65535, whose address is cut to 16 bits; `WriteExact` proves that these go wrong for keymaps of distinct actions.
- A write that the device's storage refuses halfway; `StoreAllAt` covers lanes that stop between pages.
- A sender's step from reading the active transport to its first try at the queue is atomic in `Handover`, as the two lie between two suspension points; the check after a wait is a step of its own.
- Handover.RunInOrder: does not cover a transport that is active again while an older clearing of it is still due; that clearing empties its queue, as in the source.
- Library sorting is any sorted permutation (`BulkRead`) or an insertion sort with that contract (`Decisions`, `KeymapText`).
- The profile lookups, hands and the typing streak of the tap-hold loop are parameters of `Decisions`; timeouts, combos, one-shot keys, mouse keys and the firing of decided keys are not modelled.
- `Forks.ForkEngine.ResolveModifiers` takes the explicit modifiers, one-shot ones included, and whether caps word shifts this press as parameters; how these come about is not modelled.
- Macros: the encoding of an action is any prefix-decodable codec with a size bound; Vial's variant of `macro_size` is not modelled.
- Strings are sequences of characters, and which characters are white space is a parameter; the keymap grammar is not modelled, so the layer-name spans are given: in range, non-empty and disjoint, as spans of different names in one text are.
- `Morse`: building a key from lists of tap and hold actions (`new_with_actions`), early firing (`can_fire_early`), the longest configured pattern and the packing of a key's profile; they read the same map but take no part in prediction.
- Published events, log output and storage calls have no effect on the modelled state.
- USB interrupt maps, GPIO, descriptors, layout geometry, build scripts and macros: glue, hardware or floating point.
