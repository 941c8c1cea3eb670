# Duration unit designator lookup, modelled in Dafny

`duration-unit-lookup` compares ways to recognise the unit designator at
the start of a byte string. Examples of designators are `years`, `mos`,
`µs` and `ns`. Each lookup returns the unit and the bytes that follow the
designator, or an error. This project models the following parts:

- **The `trie3` trie.** Fixed-capacity nodes, one row of `u8` node ids per
  node, and byte equivalence classes. `find` returns the value and length
  of the longest needle that starts the haystack.
- **The `trie5` trie.** Flat `u16` transition slots, with node id =
  node index × alphabet length. Construction inserts the needles, then
  renumbers the nodes so that accepting nodes come first. `find` consumes
  the whole haystack and answers with the value of an exact match.
- **`by_trie3.rs`.** The lookup through a static 99-node `trie3` of the 56
  designator labels.
- **`one_big_match.rs`.** Cut the run of designator bytes, then match it
  exactly.
- **`one_big_match_prefix_gen.rs` and `one_big_match_prefix.rs`.** The
  generated prefix `match`, with longer patterns first.
- **The benchmark inputs of `bench.rs`.**

Everything is written as pure functions over immutable datatypes:

- Node ids, byte classes and capacities are unbounded integers. The `u8`
  and `u16` id ranges are explicit bounds (`Trie3.ID_MAX`,
  `Trie5.ID_MAX`).
- A panic of the source is an error value of `Needles.BuildError`:
  `AlphabetMismatch`, `IdOverflow`, `CapacityExceeded` or
  `DuplicateNeedle`.
- Const generic parameters are ordinary parameters.

Each operation has an independent reference definition in `Needles`:

- `ValueOf` is the exact lookup of a needle list.
- `PrefixSet` is the set of node labels a trie needs.
- `LongestPrefix` is the longest needle that starts a haystack.

The main theorems connect the code to these definitions:

- `Trie3.FindLongest`: `trie3` `find` is `LongestPrefix`.
- `Trie5Find.FindExact`: `trie5` `find` is `ValueOf`.
- `Trie3.NewSpec` and `Trie5Find.NewSpec`: exactly when each construction
  succeeds, and with which error it fails otherwise.
- `ByTrie3.Lookup` and `OneBigMatchPrefix.Lookup`: both lookups equal
  `DesignatorLookup.Longest`, the longest-label lookup.
- `OneBigMatch.ExactAgreesWithLongest`: the exact-match lookup succeeds
  exactly when `Longest` succeeds with a label followed by the end of the
  input or a non-designator byte, and then it returns the same result.

The `trie5` proof is a simulation with two parts:

- **Insertion.** The insertion phase lays nodes out exactly as `trie3`
  would. Node `k` of the `trie3` trie sits at slot `Id(k)` (`Trie5Build`).
- **Renumbering.** The renumbering is the bijection `Sigma`
  (`Trie5Renumber`). Node `k` moves to index `1 + #accepting nodes before
  k` if it accepts, and to `1 + #accepting + #non-accepting nodes before
  k` otherwise.

## Model

| member | source | states |
|---|---|---|
| Needles.ValueOfSpec | src/trie5.rs:210-213 | the value of a byte string in a needle list is absent exactly when no needle is spelled that way, and otherwise is the value of the first needle spelled that way |
| Needles.ValueOfDistinct | src/trie5.rs:104-111 | with distinct needles, every needle's own bytes look up that needle's own value |
| Needles.PrefixSet | src/trie3.rs:58-81 | the nodes a trie needs: the empty label and exactly the prefixes of the needles |
| Needles.PrefixSetSize | src/trie3.rs:70-75 | at most one node per needle byte, plus the root |
| Needles.PrefixSetShared | src/trie3.rs:68-76 | when each needle shares a known prefix with an earlier needle, only its remaining bytes can add nodes |
| Needles.MaxLen | src/trie3.rs:54-56 | the longest needle length: no needle is longer, and some needle has it unless it is 0 |
| Needles.LongestPrefix | src/trie3.rs:95-114 | the longest needle that starts the haystack, with its value and length, and none exactly when no prefix is a needle |
| Needles.LongestPrefixUnique | src/trie3.rs:95-114 | a needle prefix with no longer needle prefix after it is the longest one |
| Alphabet.MarkBytes | src/trie5.rs:253-258 | the inner marking loop sets exactly the bytes of one needle from position `k` on, and keeps every earlier mark |
| Alphabet.MarkNeedles | src/trie5.rs:248-259 | the outer marking loop sets exactly the bytes of the needles from index `i` on, and keeps every earlier mark |
| Alphabet.Marks | src/trie5.rs:247-259 | `equiv_set[b]` holds exactly when byte `b` occurs in some needle |
| Alphabet.CountMarked | src/trie5.rs:267-274 | the count of marked bytes below `n` never exceeds `n`. `Alphabet.CountMarkedCard` states that it is the number of marked bytes |
| Alphabet.CountMarkedCard | src/trie5.rs:267-274 | the counting loop yields the number of distinct needle bytes |
| Alphabet.Unassigned | src/trie5.rs:279 | the initial class table: `n` entries, all in class 0 |
| Alphabet.Ascending | src/trie5.rs:281-288 | the identity class table: entry `b` is `b` for every `b < n`. `Alphabet.NewLen` states that a full alphabet uses it |
| Alphabet.AssignClasses | src/trie5.rs:289-306 | each needle byte gets class 1 + the number of needle bytes below it; every other byte keeps class 0 |
| Alphabet.New | src/trie5.rs:246-308 | the alphabet has 256 class entries, all below `len` with `1 <= len <= 256`, and no needle byte shares its class with another byte |
| Alphabet.NewLen | src/trie5.rs:267-288 | for N distinct needle bytes, `len` is N + 1 when N <= 254, and 256 with the identity map otherwise |
| Alphabet.NewCompressed | src/trie5.rs:289-306 | in the compressed case, absent bytes are in class 0 and the k-th smallest needle byte is in class k |
| Alphabet.NewAscending | src/trie5.rs:293-305 | in the compressed case, needle bytes get classes in byte order |
| Trie3.Next | src/trie3.rs:116-120 | a transition names an allocated node |
| Trie3.Advance | src/trie3.rs:68-80 | following a byte allocates a node exactly when its transition was FAIL, and changes nothing else the walk relies on |
| Trie3.Walk | src/trie3.rs:58-81 | walking a needle stays inside the allocated nodes and fails only when the capacity is exhausted |
| Trie3.InsertNeedle | src/trie3.rs:51-89 | an insertion keeps the trie well formed, and fails only for lack of capacity or a duplicate needle |
| Trie3.InsertAll | src/trie3.rs:50-90 | the same for the whole needle loop |
| Trie3.New | src/trie3.rs:32-92 | a built trie is well formed, has NODE_CAPACITY nodes, and has the needles' alphabet of the declared length |
| Trie3.Empty | src/trie3.rs:35-43 | no contract of its own: the trie before insertion, with every transition FAIL, no value, `len == 2` and `max == 0`. `Trie3.NewSpec` and `Trie5Build.EmptySim` state what it provides |
| Trie3.NewForward | src/trie3.rs:68-80 | each new node takes the next free id, so in every built trie each transition leads to FAIL or to a node with a larger id than its source |
| Trie3.Grow | src/trie3.rs:70-79 | allocating a node for a byte redirects exactly that byte's class in that row to the new node |
| Trie3.WalkInv | src/trie3.rs:58-81 | walking needle i keeps the invariant: one node per stored label, transitions follow labels, and values sit at their needles' nodes |
| Trie3.StoreValue | src/trie3.rs:82-89 | storing the value at the needle's node extends the value invariant to that needle |
| Trie3.InsertAllInv | src/trie3.rs:50-90 | after all needles are inserted, the trie stores exactly the prefix set and the values of the needles |
| Trie3.NewSpec | src/trie3.rs:32-92 | construction succeeds iff the alphabet length matches, 2 <= capacity <= 255, the needles are distinct and their prefixes fit beside FAIL. On success it has 1 + prefix-count nodes and `max` is the longest needle length. Each error names its cause |
| Trie3.Find | src/trie3.rs:95-114 | a match length never exceeds the haystack, and a value at the root always yields a match |
| Trie3.FindFrom | src/trie3.rs:102-110 | the search loop only reports an allocated accepting node, at an offset inside the haystack, and never drops an earlier match or moves it back |
| Trie3.FindFromLongest | src/trie3.rs:102-110 | the search loop carries "longest needle among the prefixes read so far" to the end of the haystack |
| Trie3.FindLongest | src/trie3.rs:95-114 | `find` on a built trie returns exactly the longest needle prefix of the haystack, with its value and length |
| Trie3Cases.Builds | src/trie3.rs:32-92 | distinct needles whose total length fits the capacity always build |
| Trie3Cases.FindCase | src/trie3.rs:95-114 | a search returns the needle prefix with no longer needle prefix after it |
| Trie3Cases.MissCase | src/trie3.rs:95-114 | a search with no needle prefix returns nothing |
| Trie3Cases.EmptyCase | src/trie3.rs:242-250 | the `empty` test: `("", 'z')` in 2 nodes finds `('z', 0)` in the empty haystack |
| Trie3Cases.FooCase | src/trie3.rs:252-263 | the `fubar` test: no match for `""` or `fo`, and `('a', 3)` for `foo` and `fooquux` |
| Trie3Cases.AaaCase | src/trie3.rs:265-277 | the `aaa` test: nothing for `""`, `('a',1)`, `('b',2)`, `('c',3)` for `a`, `aa`, `aaa`, and `('c',3)` for `aaaa` |
| Trie5.IdProduct | src/trie5.rs:95-97 | a node id is its index times the alphabet length |
| Trie5.IdFits | src/trie5.rs:44 | a node index fits the transition capacity exactly when it is at most `TRANSITION_CAPACITY / ALPHABET_LEN` |
| Trie5.IdRows | src/trie5.rs:88 | slot `id + class` determines both the node row and the class |
| Trie5.Follow | src/trie5.rs:88-101 | a FAIL slot gets the id of a freshly allocated node, which lies inside the capacity and the `u16` range; the match slots are untouched |
| Trie5.Walk | src/trie5.rs:81-102 | walking a needle stays inside the allocated rows and fails only for lack of capacity |
| Trie5.InsertNeedle | src/trie5.rs:74-111 | an insertion keeps the layout well formed, and fails only for lack of capacity or a duplicate needle |
| Trie5.InsertAll | src/trie5.rs:73-112 | the same for the whole needle loop |
| Trie5.CountSplit | src/trie5.rs:136-182 | every node besides FAIL is copied by exactly one of the two loops |
| Trie5.CopyRow | src/trie5.rs:150-154 | the row copy puts the old row's slots at the new row and leaves every other slot as it was |
| Trie5.Move | src/trie5.rs:143-154 | one copy step keeps every copied transition and new id inside the allocated rows, advances the new index by one, and leaves the match values to its caller |
| Trie5.PlaceMatched | src/trie5.rs:134-160 | the accepting-node loop stays inside the allocated rows and advances the new index by the number of accepting nodes it visits |
| Trie5.PlaceUnmatched | src/trie5.rs:162-182 | the non-accepting-node loop stays inside the allocated rows and leaves `max_match_node_id` as the first loop set it |
| Trie5.Placed | src/trie5.rs:132-182 | the two copy loops keep every copied transition and every new id inside the allocated rows |
| Trie5.Remap | src/trie5.rs:184-189 | every slot is replaced by the new id of its target |
| Trie5.Renumber | src/trie5.rs:114-192 | the renumbered trie is well formed over the same capacity and alphabet |
| Trie5.New | src/trie5.rs:40-193 | a built trie is well formed over TRANSITION_CAPACITY slots and has the needles' alphabet of the declared length |
| Trie5.Empty | src/trie5.rs:52-71 | no contract of its own: the builder before insertion, with every slot FAIL, no match, two nodes and `max_needle_len == 0`. `Trie5Build.EmptySim` states that it is the initial `trie3` trie laid out row by row |
| Trie5.Consume | src/trie5.rs:196-201 | the walk always stays on a whole row inside the transition array |
| Trie5.Find | src/trie5.rs:195-207 | no contract of its own: `Trie5Find.FindExact` carries its meaning, exact lookup of the needles on every built trie |
| Trie5Build.RowInside | src/trie5.rs:44 | every class slot of every node below the node capacity is inside the transition array |
| Trie5Build.IdZero | src/trie5.rs:38 | only node index 0 has id FAIL |
| Trie5Build.EmptySim | src/trie5.rs:52-71 | the initial layout is the initial `trie3` trie, laid out row by row |
| Trie5Build.SlotSim | src/trie5.rs:88 | each transition slot holds the id of the `trie3` transition target, and is FAIL exactly when that target is FAIL |
| Trie5Build.AdvanceSim | src/trie5.rs:88-101 | one byte of insertion allocates and links nodes exactly as `trie3` does |
| Trie5Build.WalkSim | src/trie5.rs:81-102 | a needle walk succeeds exactly when the `trie3` walk does, and ends on the id of the same node |
| Trie5Build.InsertNeedleSim | src/trie5.rs:74-111 | inserting a needle fails with the same error as in `trie3`, or yields the layout of the `trie3` result |
| Trie5Build.InsertAllSim | src/trie5.rs:73-112 | the same for the whole needle loop |
| Trie5Build.BuildSim | src/trie5.rs:40-112 | the insertion phase succeeds exactly when `trie3` construction with `TRANSITION_CAPACITY / ALPHABET_LEN` nodes does, and its layout is that trie's |
| Trie5Renumber.Sigma | src/trie5.rs:134-182 | the new index of every node stays below the node count, and is 0 exactly for FAIL |
| Trie5Renumber.SigmaAccepting | src/trie5.rs:134-160 | a node's new index is at most the number of accepting nodes exactly when the node accepts |
| Trie5Renumber.SigmaOrdered | src/trie5.rs:134-182 | within each group, the new indexes keep the old order |
| Trie5Renumber.SigmaInjective | src/trie5.rs:143-171 | two distinct nodes never get the same new index |
| Trie5Renumber.SigmaOnto | src/trie5.rs:134-182 | every index below the node count is the new index of some node |
| Trie5Renumber.MoveSpec | src/trie5.rs:143-154 | one copy step writes only the new row and the one `old_to_new` entry |
| Trie5Renumber.MatchedMove | src/trie5.rs:136-160 | one step of the accepting-node loop keeps that loop's invariant |
| Trie5Renumber.MatchedAll | src/trie5.rs:134-160 | after the first loop, accepting nodes occupy indexes 1 to #accepting, with their rows and values. `max_match_node_id` is the last of them |
| Trie5Renumber.UnmatchedMove | src/trie5.rs:163-182 | one step of the non-accepting-node loop keeps that loop's invariant |
| Trie5Renumber.UnmatchedAll | src/trie5.rs:162-182 | after the second loop, every node besides FAIL sits at its new index with its old row |
| Trie5Renumber.PlacedSpec | src/trie5.rs:132-182 | after both loops, `old_to_new` maps every node id to the id of its new index, FAIL's row stays FAIL, and rows and values moved along |
| Trie5Renumber.RenumberSpec | src/trie5.rs:184-190 | after remapping, every slot of a moved row holds the new id of its old target, and the root is the new id of the old root |
| Trie5Renumber.AcceptingFirst | src/trie5.rs:114-125 | a node's new id is at most `max_match_node_id` exactly when the node accepts, and then its match value is the node's value |
| Trie5Renumber.NothingAccepts | src/trie5.rs:59 | `max_match_node_id` stays FAIL exactly when no node accepts |
| Trie5Renumber.RenumberedStep | src/trie5.rs:187 | a transition between old nodes becomes a transition between their new ids |
| Trie5Renumber.RenumberedFail | src/trie5.rs:117 | FAIL's row leads only to FAIL after renumbering |
| Trie5Renumber.IdOrder | src/trie5.rs:120 | comparing node ids compares node indexes |
| Trie5Find.ConsumeFail | src/trie5.rs:198-201 | once the walk is on FAIL it stays there |
| Trie5Find.ConsumeSim | src/trie5.rs:197-201 | the renumbered walk ends on the new id of the node where the `trie3` walk ends |
| Trie5Find.NodeValue | src/trie5.rs:202-206 | the final node answers with a value exactly when its `trie3` node holds one, and then with that value |
| Trie5Find.RootSim | src/trie5.rs:190 | the root is the new id of the `trie3` root |
| Trie5Find.FindSim | src/trie5.rs:195-207 | `find` on the renumbered layout of a trie storing the needles is exact lookup |
| Trie5Find.NoPrefixNoValue | src/trie5.rs:198-206 | a haystack that is not a prefix of any needle is spelled by no needle, so it finds nothing |
| Trie5Find.FindExact | src/trie5.rs:195-207 | `find` on any built trie returns exactly the value of the needle spelled by the whole haystack, and nothing when no needle is spelled so |
| Trie5Find.NewSpec | src/trie5.rs:40-112 | construction succeeds iff the alphabet length matches, TRANSITION_CAPACITY <= 65535, the node capacity is at least 2, the needles are distinct and their prefixes fit beside FAIL. Each error names its cause. A built trie has 1 + prefix-count nodes, records the longest needle length as `max_needle_len`, FAIL's row leads to FAIL, and every slot leaves a whole row inside the `u16` range |
| Trie5Find.RootSpec | src/trie5.rs:60 | the root is never FAIL, and it is an accepting id exactly when `""` is a needle |
| Trie5Cases.Cells | src/trie5.rs:230-232 | `transition_len(n)` divided by the alphabet length gives back n rows, and fits `u16` for up to 255 rows |
| Trie5Cases.Builds | src/trie5.rs:40-112 | distinct needles whose total length fits the row count always build, and every search is exact lookup |
| Trie5Cases.EmptyCase | src/trie5.rs:331-345 | the `empty` test: `("", 'z')` in 2 rows finds `'z'` in the empty haystack |
| Trie5Cases.FooCase | src/trie5.rs:347-364 | the `fubar` test: nothing for `""`, `fo` and `fooquux`; `'a'` for `foo` and `'c'` for `quux` |
| Trie5Cases.AaaCase | src/trie5.rs:366-383 | the `aaa` test: `'a'`, `'b'`, `'c'` for `a`, `aa`, `aaa`, and nothing for `""` and `aaaa` |
| Designators.Table | src/by_trie3.rs:11-68 | the 56 labels in table order, each with its unit |
| Designators.IsDesignatorByte | src/one_big_match.rs:5-7 | no contract of its own: the designator-byte test, `a` to `z` and the two bytes of `µ`. `Designators.AllShapes` states that every label consists of such bytes, and `OneBigMatch.RunEnd` stops at the first other byte |
| Designators.AllShapes | src/one_big_match.rs:5-7 | every label has 1 to 12 bytes, all of them designator bytes |
| Designators.DesignatorsDistinct | src/by_trie3.rs:11-68 | no two labels are spelled alike, so the static trie never meets a duplicate needle |
| Designators.RankedDescending | src/one_big_match_prefix_gen.rs:5-86 | ranked labels never get longer, and among equal lengths they descend in byte order |
| DesignatorLookup.LabelValue | src/by_trie3.rs:11-68 | every label looks up its own unit |
| DesignatorLookup.NoLabelPast | src/one_big_match.rs:5-12 | no label runs across a byte that is no designator byte |
| DesignatorLookup.NoEmptyLabel | src/one_big_match.rs:13-19 | the empty string is no label |
| DesignatorLookup.LongestSpec | src/by_trie3.rs:70-89 | the reference lookup succeeds iff some non-empty prefix is a label. It then returns the longest one's unit and the bytes after it. Otherwise it fails with end of input for empty input, or with the whole input |
| DesignatorLookup.LongestLabel | src/by_trie3.rs:70-89 | a label followed by the end of input or a non-designator byte is what the reference lookup finds |
| DesignatorCapacity.AllShare | src/by_trie3.rs:6 | each label starts with the stated number of bytes of an earlier label |
| DesignatorCapacity.AllUnshared | src/by_trie3.rs:6 | the labels hold 97 bytes beyond those shared prefixes |
| DesignatorCapacity.DesignatorsFit | src/by_trie3.rs:6 | the labels have at most 98 prefixes, so they fit beside FAIL in 99 nodes |
| ByTrie3.Build | src/by_trie3.rs:6-9 | no contract of its own: `ByTrie3.BuildSucceeds` proves that it succeeds and stores exactly the labels |
| ByTrie3.BuildSucceeds | src/by_trie3.rs:6-9 | the static trie builds, and stores exactly the 56 labels |
| ByTrie3.DesignatorTrie | src/by_trie3.rs:8-9 | the static trie is well formed and stores the labels |
| ByTrie3.Lookup | src/by_trie3.rs:70-89 | the trie lookup is the longest-label lookup, error cases included |
| OneBigMatch.RunEnd | src/one_big_match.rs:8-11 | `position` finds the first byte that is no designator byte, or the input length |
| OneBigMatch.Run | src/one_big_match.rs:5-12 | the needle is the maximal run of designator bytes that starts the input |
| OneBigMatch.Lookup | src/one_big_match.rs:4-87 | end-of-input error exactly for empty input or a leading non-designator byte. Success exactly when the run is a label, returning its unit and the bytes after the run. Any other run is returned in the error |
| OneBigMatch.ExactAgreesWithLongest | src/one_big_match.rs:20-86 | a successful exact match equals the longest-label lookup. It succeeds exactly when that lookup succeeds and the end of input or a non-designator byte follows the label |
| OneBigMatch.LabelIsRun | src/one_big_match.rs:8-12 | a label followed by the end of input or a non-designator byte is the whole run |
| OneBigMatch.NonDesignatorStart | src/one_big_match.rs:13-19 | input that starts with a non-designator byte is the end-of-input error here but is returned whole by the longest-label lookup |
| OneBigMatchPrefixGen.FirstArm | src/one_big_match_prefix_gen.rs:5-86 | the first arm, in order, whose pattern starts the haystack |
| OneBigMatchPrefixGen.Arms | src/one_big_match_prefix_gen.rs:6-85 | no contract of its own: the 56 arms in source order. `OneBigMatchPrefixGen.ArmListRanked`, `ArmsNameLabels` and `ArmsReturnLength` state what they hold |
| OneBigMatchPrefixGen.NoArmNoLabel | src/one_big_match_prefix_gen.rs:86 | with ranked arms, when no arm matches, no label starts the haystack |
| OneBigMatchPrefixGen.FirstArmLongest | src/one_big_match_prefix_gen.rs:5-85 | with ranked arms, the first matching arm names the longest label that starts the haystack |
| OneBigMatchPrefixGen.ArmListRanked | src/one_big_match_prefix_gen.rs:5-86 | the generated arms are ranked: one per label, longer patterns before every shorter pattern that could also match |
| OneBigMatchPrefixGen.ArmsNameLabels | src/one_big_match_prefix_gen.rs:5-86 | every arm's pattern is a label and returns that label's unit |
| OneBigMatchPrefixGen.ArmsReturnLength | src/one_big_match_prefix_gen.rs:5-86 | every arm returns its pattern's length |
| OneBigMatchPrefixGen.LabelsHaveArms | src/one_big_match_prefix_gen.rs:5-86 | every label has an arm |
| OneBigMatchPrefixGen.ArmsDescend | src/one_big_match_prefix_gen.rs:5-86 | arm patterns never get longer down the match |
| OneBigMatchPrefixGen.Find | src/one_big_match_prefix_gen.rs:4-88 | the generated `find` returns the longest label that starts the haystack, with its unit and length |
| OneBigMatchPrefix.Lookup | src/one_big_match_prefix.rs:4-22 | the generated-match lookup is the longest-label lookup, error cases included |
| Bench.LookupsAgreeOnLabel | src/bench.rs:199-224 | a label followed by a non-designator byte is found by all three lookups, with the same rest |
| Bench.Short | src/bench.rs:8-15 | `y 5 months` gives `Year` and ` 5 months` in all three lookups; the same assertions stand in the prefix-match group (lines 35-43 of the same file) and the `by_trie3` group (lines 200-207) |
| Bench.Medium | src/bench.rs:16-23 | `months 5 days` gives `Month` and ` 5 days` in all three lookups; the same assertions stand in the prefix-match group (lines 44-52 of the same file) and the `by_trie3` group (lines 208-215) |
| Bench.Long | src/bench.rs:24-31 | `milliseconds 5 nanoseconds` gives `Millisecond` and ` 5 nanoseconds` in all three lookups; the same assertions stand in the prefix-match group (lines 53-61 of the same file) and the `by_trie3` group (lines 216-223) |

## Left out

- The texts of the error messages, including the `from_utf8(..).unwrap_or("N/A")` rendering, are not modelled. An error is `EndOfInput` or `Unrecognized(bytes)`.
- The alphabet is modelled once, as the `trie5.rs` copy. The `trie3.rs` copy (src/trie3.rs:156-219) is the same code.
- A capacity below two nodes is modelled as `CapacityExceeded` at construction. Both tries place the root at index 1. `trie3` then fails an index bound during construction or search. `trie5` fails either an index bound or the capacity assertion at src/trie5.rs:92.
- Trie3.New: the `u8` node id range is the bound `NODE_CAPACITY <= 255`. This is the source's own assertion, so no id can wrap around.
- Trie5.Follow: `checked_mul(..).unwrap()` on the new id is not a separate error. The capacity check before it, together with `TRANSITION_CAPACITY <= 65535`, already keeps the product inside `u16`. `Follow`'s contract states this bound.
- The `NEEDLE_LEN` const parameter of the `trie5` type is left out, because no code reads it.
- OneBigMatch.Lookup: the 56 match arms are the label table, and `match` picks the first arm equal to the run. The model therefore uses `ValueOf` over `Designators.Table`, not 56 literal arms.
- OneBigMatch.NonDesignatorStart: this records a difference between the lookups, following the code. Input that starts with a non-designator byte gets the end-of-input error from `one_big_match.rs`. The trie and prefix lookups report that input as unrecognised.
- The `size` test of `by_trie3.rs` only prints a size, so it is not modelled.
- The other strategies (trie1, trie2, trie4, aho-corasick, phf, hashify, SIMD, generated DFAs) and the generators are not part of this model. So are the benchmark driver (timing, `black_box`) and the remaining benchmark groups.
