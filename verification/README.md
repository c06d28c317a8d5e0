# librecompat: verified models of its core algorithms

librecompat supplies GNU C library functions to systems that lack them. This project
models the five parts of it with real algorithms in them and proves what each promises:

1. **The regex engine** (`src/regex`). A parse tree of heap nodes is turned into an NFA
   by three passes over stackless tree walks, epsilon closures are computed under
   cycles, DFA states are interned and their transition tables built on demand, and a
   search loop with a fastmap and a skip-ahead runs the DFA. `Regexp.CompileAndSearch`
   puts the pieces together: what it returns is the leftmost-longest match of section
   9.1 of the Base Definitions volume of POSIX.1-2017, stated in terms of the language
   of the parse tree. Repetition operators (`DupOp`, and `Repetition` with the engine
   behind them), the copying of trees (`DupTree`), the set algebra inside one buffer
   (`NodeSets`) and the backward sift over the state log (`Sift`) have theorems of
   their own.
2. **getopt's permuting scanner** (`src/unistd/getopt.c`), with short and long options. A
   resumable state machine that rotates `argv` in place; each call is proved to peel one
   value off a reference scan, so a whole run returns the reference's values and leaves
   the reference's `argv`.
3. **The double-hashing table** (`src/search/hsearch_r.c`), from trial division to a
   finite map over any sequence of calls.
4. **The obstack allocator** (`src/malloc/obstack.c`, `obstack.h`), a stack of byte
   strings laid out in chunks of one flat memory.
5. **String cores**: `strverscmp` against an order by sort keys, and the argz vectors
   (replace, split, stringify) against lists of entries.

Files follow the parts of the library, one module each: `Language`, `Nfa`, `BinTrees`,
`NfaBuild`, `NodeSets`, `Closure`, `Groups`, `Dfa`, `Simulation`, `Match`, `Sift`, `Search`,
`Regexp`, `DupTree`, `DupOp`, `Repetition` for the regex engine; `Getopt`, and
`OptionMeaning` for what its values mean; `Hsearch`; `Obstack`; `Strverscmp`; `Argz`; and
`Arith` for facts about multiples that `Hsearch` and `Obstack` share. `dafny verify
dfyconfig.toml` checks everything.

The code is proved against reference functions on values, and what these mean is stated
once more without them, on what a caller sees: matches as slices of the text
(`Regexp.MatchedText`), options as characters of optstring and names in the table
(`OptionMeaning`), answers as the data of earlier calls (`Hsearch.Answered`), the version
order byte by byte and number by number (`Strverscmp.BytesDecide`,
`Strverscmp.NumbersByValue`), splitting and replacing as ways to put a string together
(`Argz.SplitIs`, `Argz.ReplaceAllWeaves`).

The regex fragment is the single-byte one without translation, case folding, anchors,
constraints and back-references: leaves are `CHARACTER`, `SIMPLE_BRACKET` and
`OP_PERIOD`, operators are `CONCAT`, `OP_ALT` (either side may be missing) and
`OP_DUP_ASTERISK`, and subexpression markers behave as empty.

Code that works on mutable objects is modelled on mutable objects: tree nodes, node
sets, DFA states, the state table, `argv`, the getopt state, the hash table, the memory
of an obstack and argz vectors are classes and arrays, and each method states its whole
effect through functions of the old and the new contents. The memory behind an obstack
comes from a parameter (`Obstack.Allocator`); libc's `strchr`, `strstr`, `strnlen`,
`strndup` and `realloc` are small members with their own contracts.

## What the proofs found

- The second pass of `calc_eclosure` (src/regex/regcomp.c:1661-1667, 1680-1684) is never
  needed in this fragment: a call at the root always keeps its result
  (`Closure.Eclosures.CalcIter`).
- `can_be_null` is set only when `END_OF_RE` comes before every period among the nodes of
  the initial state (src/regex/regcomp.c:412-420): `Search.CompileFastmap` has the exact
  condition, and exactly which bytes are marked. A pattern like `.*` is still searched
  correctly, because the period has marked every byte.
- The pruning of the state log (src/regex/regexec.c:872-959) never rejects a match of
  this fragment: `Sift.PruneImpossibleNodes` always succeeds, with the log's exact part.
  The exit that fills the rest with NULL (src/regex/regexec.c:1547-1555) is taken only for
  logs in which the final node dies out; for those, too, `Sift.SiftStatesBackward` is exact.
- Scanning a permuted `argv` a second time need not give the same options: an option at the
  very end whose argument is missing takes, on the second scan, a non-option that the
  first scan moved behind it. This includes `-W` without a name, and a name behind `-W`
  without the argument it requires. `Getopt.PermutedIsStable` proves that this is the only
  exception, and `Getopt.SecondScanDiffers` shows one.
- When a short option lacks its argument, the source stores the option's character in
  `optopt` and then overwrites it with the returned `?` or `:`
  (src/unistd/getopt.c:669-690), where POSIX asks for the option's character. A `-W`
  that lacks its name does keep the character (lines 630-635). Every call that returns a
  value tells the element it worked on and is held there to the exact condition, or to
  the rule for long options (`Getopt.CharacterHandled` and `Getopt.ElementHandled`, in the
  contract of `Getopt.GetoptData.GetoptInternal`); `Getopt.OptoptIsLost` calls the scanner
  on an input that loses the character.
- `nlen == 0` in `__argz_create_sep` (src/argz/argz-ctsep.c:32-36) cannot occur:
  `Argz.WriteSplit` always writes at least one byte. A trailing separator yields a
  trailing empty entry, and a string of separators alone yields one empty entry.

## Model

| member | source | states |
|---|---|---|
| NodeSets.NodeSet.Merge | src/regex/regex_internal.c:1197-1276 | dest becomes dest ∪ src, strictly increasing, merged inside its own buffer from the scratch area at the top |
| NodeSets.NodeSet.AddIntersect | src/regex/regex_internal.c:1053-1137 | dest becomes dest ∪ (src1 ∩ src2), strictly increasing, inside its own buffer |
| NodeSets.NodeSet.InitUnion | src/regex/regex_internal.c:1144-1190 | a new set, src1 ∪ src2, strictly increasing |
| NodeSets.MergeInto | src/regex/regex_internal.c:1166-1188 | the two-way loop writes the union of both sources in order, and no more cells than both have |
| NodeSets.ScanMissing | src/regex/regex_internal.c:1223-1234 | the downward scan stacks, below the top, elements of src that dest lacks, and stops with the rest of src or nothing left |
| NodeSets.ScanCommon | src/regex/regex_internal.c:1072-1104 | the scan stacks exactly the common elements that dest lacks, in order |
| NodeSets.MergeDown | src/regex/regex_internal.c:1106-1136 | the downward merge of old and new items reads nothing it has overwritten and leaves the merged order |
| NodeSets.NodeSet.Insert | src/regex/regex_internal.c:1284-1331 | the element goes to its place, everything else keeps its order |
| NodeSets.NodeSet.InsertLast | src/regex/regex_internal.c:1339-1355 | appends an element above all others |
| NodeSets.NodeSet.Contains | src/regex/regex_internal.c:1377-1395 | binary search: one plus the position, zero exactly when absent |
| NodeSets.UnionFacts | src/regex/regex_internal.c:1192-1195 | the sequence Merge leaves is increasing and has exactly the elements of both |
| NodeSets.AddCommonFacts | src/regex/regex_internal.c:1047-1050 | the sequence AddIntersect leaves is increasing and adds exactly the common elements |
| NodeSets.SameElemsSameSeq | src/regex/regex_internal.c:1362-1371 | two node sets with the same elements are the same array, so states may be compared by array |
| BinTrees.Postorder | src/regex/regcomp.c:1225-1254 | the stackless walk ends and visits the nodes in the order of the recursive postorder |
| BinTrees.Preorder | src/regex/regcomp.c:1257-1284 | the stackless walk ends and visits the nodes in the order of the recursive preorder |
| BinTrees.WalkOnce | src/regex/regcomp.c:1221-1284 | both orders contain every node of the tree exactly once |
| BinTrees.PostChildren | src/regex/regcomp.c:1225-1254 | in postorder, children come before their parent |
| BinTrees.PreChildren | src/regex/regcomp.c:1257-1284 | in preorder, children come after their parent |
| BinTrees.LeftFirst | src/regex/regcomp.c:1221-1284 | in both orders, the left subtree comes before the right one |
| BinTrees.BinTree.constructor | src/regex/regcomp.c:3825-3856 | a new node is linked with its children in both directions, the analysis fields cleared |
| DupTree.DuplicateTree | src/regex/regcomp.c:3902-3939 | the walk over two trees ends with a fresh copy: same tokens in the same places, parent pointers right, below the same parent; the source is untouched |
| DupTree.ClimbStep | src/regex/regcomp.c:3924-3935 | each step up finishes a copied subtree or arrives where the right side is next, and beyond the root it follows the ancestors out |
| DupOp.FetchNumber | src/regex/regcomp.c:3775-3794 | -1 for an empty field, -2 for a bad one or the end of the pattern, otherwise the value capped at RE_DUP_MAX + 1; reads the tokens up to the first comma, closing brace or end, and no further |
| DupOp.FieldOfDigits | src/regex/regcomp.c:3768-3794 | a digit string of any length has the value min(value, RE_DUP_MAX + 1) |
| DupOp.DecimalFront | src/regex/regcomp.c:3789-3793 | the value of a digit string, digit by digit from the front with powers of ten |
| DupOp.ParseInterval | src/regex/regcomp.c:2529-2591 | bounds are returned exactly for the well-formed texts in order and within RE_DUP_MAX; which malformed texts give REG_BADBR, REG_EBRACE, REG_ESIZE or the literal reading |
| DupOp.SpellsText | src/regex/regcomp.c:2529-2591 | which texts spell which bounds: `n}` n to n, with a comma a missing first number is 0 and a missing second one is no bound; and no other text spells any |
| DupOp.Row | src/regex/regcomp.c:2602-2621 | `n` duplicates in a row denote exactly the n-fold repetition |
| DupOp.OptionalPart | src/regex/regcomp.c:2622-2652 | the nested optional copies denote 0 to m repetitions, the star any number |
| DupOp.Repeat | src/regex/regcomp.c:2593-2655 | the heap tree built for r{n,m}, r{n,}, `*`, `+`, `?` is a tree, denotes the union of L(r)^k over n ≤ k ≤ m, and is well formed if r is |
| DupOp.ParseDupOp | src/regex/regcomp.c:2521-2660 | `*` gives 0 or more, `+` 1 or more, `?` 0 or 1, an interval what its text spells: the tree denotes these repetitions; which texts fail with which error, and exactly when the brace is taken literally, which leaves the operand alone |
| DupOp.ConcatRanges | src/regex/regcomp.c:2602-2655 | concatenation adds repetition ranges |
| Repetition.AddEnd | src/regex/regcomp.c:2127-2137 | the tree with END_OF_RE behind it, or END_OF_RE alone, is a pattern the analysis takes |
| Repetition.SearchRepetition | src/regex/regcomp.c:2521-2660 | an operand that is already lowered, with an operator or an interval behind it, compiled and searched: the leftmost-longest match for 0 or more, 1 or more, 0 or 1, or as many repetitions as the interval spells |
| Repetition.FoundIsRepetition | src/regex/regcomp.c:2521-2660 | read on the text: what is found is `n` to `m` words of the operand in a row, as long (or as short) as any there, and no such repetition begins at a start passed over |
| NfaBuild.DfaBuilder.CalcFirst | src/regex/regcomp.c:1381-1399 | `first` comes from the left child of a CONCAT, every other node gets a new NFA node |
| NfaBuild.CalcNext | src/regex/regcomp.c:1403-1422 | `next` of the children: right's first for a CONCAT's left, the star itself for its body, the parent's otherwise |
| NfaBuild.DfaBuilder.LinkNode | src/regex/regcomp.c:1426-1479 | the edges written for one node, by its token |
| NfaBuild.WiredUp | src/regex/regcomp.c:1378-1479 | the pointers set by the first two passes, linked by the third, are the wiring the language proof needs |
| NfaBuild.Analyze | src/regex/regcomp.c:1162-1219 | the three passes leave an NFA wired as the tree, with END_OF_RE at the end and edges inside it |
| Nfa.NfaSpellsLanguage | src/regex/regcomp.c:1378-1479 | a path from the entry to END_OF_RE spells w exactly when w is in the tree's language, nullable star bodies and missing branches included |
| Language.StarIsPow | src/regex/regcomp.c:2622-2632 | a star denotes exactly the powers of its body |
| Language.ConcatWords | src/regex/regcomp.c:1381-1399 | a concatenation denotes the words of its left side followed by words of its right side |
| Closure.Eclosures.CalcIter | src/regex/regcomp.c:1692-1763 | under cycles: a finished result is exact, an incomplete one covers all but what the nodes in progress will bring and is not recorded, except at the root, where it is exact |
| Closure.Eclosures.Calc | src/regex/regcomp.c:1651-1687 | the pass over all nodes leaves every slot filled with the exact closure |
| Closure.CalcEclosures | src/regex/regcomp.c:1651-1763 | every closure is the reflexive-transitive closure of the epsilon edges, strictly increasing |
| Closure.CalcInveclosure | src/regex/regcomp.c:1627-1646 | the exact converse of the closures, strictly increasing |
| Closure.LastExit | src/regex/regcomp.c:1721-1753 | a path that avoids the nodes in progress leaves the node for the last time by one of its edges |
| Closure.MergedComplete | src/regex/regcomp.c:1721-1763 | when no destination was in progress, the merged set is the exact closure |
| Groups.DivideNode | src/regex/regexec.c:3539-3594 | adding one node to a partition splits the classes it half covers and adds one for what is left |
| Groups.GroupNodes | src/regex/regexec.c:3416-3597 | disjoint non-empty byte classes covering exactly what some node accepts, each with exactly the nodes accepting each of its bytes, at most 256 |
| Groups.AtMost256 | src/regex/regexec.c:3226-3250 | disjoint non-empty classes of bytes are at most 256, so the tables never overflow |
| Dfa.Dfa.Lookup | src/regex/regex_internal.c:1502-1512 | the bucket search finds the state with this node set exactly when one is registered |
| Dfa.Dfa.Acquire | src/regex/regex_internal.c:1486-1520 | the one state with this node set, NULL exactly for the empty set; all other states stay |
| Dfa.Dfa.MergeFollows | src/regex/regexec.c:3282-3296 | the union of the closures of the nodes' successors |
| Dfa.Dfa.BuildTrtable | src/regex/regexec.c:3227-3407 | the state gets its table, and every table entry of the automaton is right |
| Dfa.Dfa.FillTable | src/regex/regexec.c:3326-3355 | every byte's entry is its class's destination, NULL outside all classes |
| Dfa.Dfa.TransitState | src/regex/regexec.c:2178-2231 | reads, or builds and reads, the entry: the registered state with exactly the successors, NULL exactly when no node of the state accepts the byte |
| Dfa.Dfa.Simulate | src/regex/regexec.c:2388-2401 | scanning the nodes with check_node_accept collects exactly the successor set |
| Dfa.Dfa.TransitStateSb | src/regex/regexec.c:2376-2410 | the slow transition gives the registered state with the successor set, NULL exactly when no node accepts the byte |
| Dfa.SameEntry | src/regex/regexec.c:2178-2231 | table and simulation give the same state, for every state and byte |
| Simulation.StepReads | src/regex/regexec.c:2388-2401 | from a closed set, a word starting with c is accepted exactly when the rest is accepted from the step by c |
| Simulation.AfterReads | src/regex/regexec.c:1086-1129 | after any prefix the state set accepts exactly the continuations of that prefix |
| Simulation.HaltsOnLanguage | src/regex/regexec.c:1009-1136 | the set of states after w contains END_OF_RE exactly when w is in the tree's language |
| Simulation.BackAtStart | src/regex/regexec.c:1104-1110 | back in the initial state, the automaton has forgotten what it read |
| Simulation.DeadStaysDead | src/regex/regexec.c:1090-1102 | after NULL no extension is accepted |
| Match.CheckMatching | src/regex/regexec.c:1009-1136 | the longest (or first) accepted end, -1 exactly when there is none, with an exact state log and a skip that no match starts in |
| Match.IdleSkips | src/regex/regexec.c:1104-1133 | while the automaton idles in its initial state and nothing matches, no later start in the skipped stretch matches |
| Match.CreateInitialState | src/regex/regcomp.c:996-1074 | the registered state of the closure of the first node |
| Sift.TargetAtEnd | src/regex/regexec.c:1535-1540 | in the text, what the sift must hold at the end position |
| Sift.TargetBefore | src/regex/regexec.c:1559-1570 | in the text, what it must hold before a position, from what it holds after it |
| Sift.TargetNotEmpty | src/regex/regexec.c:1547-1555 | with a final node that the log reached, no position's target is empty |
| Sift.KeepAtEnd | src/regex/regexec.c:1502-1519 | within any log: at the end stay the logged nodes that reach the final node by epsilon moves |
| Sift.KeepBefore | src/regex/regexec.c:1502-1519 | within any log: before a position stay the logged nodes that reach one accepting the byte into what stays behind it |
| Sift.NullEmpties | src/regex/regexec.c:1547-1555 | a gap in the log leaves nothing at it and before it, which is what the zero-fill exit stands for |
| Sift.KeepIsTarget | src/regex/regexec.c:1502-1519 | on the log of a text, staying in the log is reaching the final node by the text in between |
| Sift.BuildSiftedStates | src/regex/regexec.c:1582-1635 | exactly the nodes that accept the byte into the next sifted set |
| Sift.AddEpsilonSrcNodes | src/regex/regexec.c:1739-1764 | adds exactly the candidates that reach the set by epsilon moves |
| Sift.UpdateCurSiftedState | src/regex/regexec.c:1691-1735 | the registered state of that set, NULL for none |
| Sift.SiftStatesBackward | src/regex/regexec.c:1526-1578 | for any log of closed states: every position holds exactly the log's nodes from which the final node is reachable without leaving the log, and NULL where there are none |
| Sift.CheckHaltState | src/regex/regexec.c:1159-1170 | the halting node of a halting state is END_OF_RE |
| Sift.PruneImpossibleNodes | src/regex/regexec.c:872-959 | pruning succeeds for every accepted end and leaves the exact sifted log |
| Search.CompileFastmap | src/regex/regcomp.c:295-422 | exactly which bytes are marked, read off the nodes of the initial state, and exactly when can_be_null is set |
| Search.UnmarkedMisses | src/regex/regexec.c:677-706 | no match starts at an unmarked byte, nor at the end of the text when NUL is unmarked |
| Search.SkipForward | src/regex/regexec.c:677-691 | every start the forward fastmap loop passes over begins no match |
| Search.SkipBackward | src/regex/regexec.c:693-706 | the same for the backward loop |
| Search.NextPlausible | src/regex/regexec.c:659-740 | one round of acceleration loses no match and reports a miss only when none is left |
| Search.Attempt | src/regex/regexec.c:755-789 | one attempt at a start, with pruning: the best end, or none and how far to skip |
| Search.AttemptMissed | src/regex/regexec.c:755-792 | a failed attempt rules out the start and the whole skipped stretch |
| Search.ReSearchInternal | src/regex/regexec.c:552-868 | the first start in the direction of the search that matches, with its best end, or none at all; `Search.ResultText` reads this on the text |
| Search.ResultText | src/regex/regexec.c:597-608 | the result in slices of the text: what is found lies before `stop` and is accepted, no longer (or shorter) slice there is, and none that begins where the search passed |
| Regexp.Compile | src/regex/regcomp.c:725-818 | the compiled automaton decides the language of the tree |
| Regexp.ResultIsLeftmostLongest | src/regex/regexec.c:552-868 | the search result, read in terms of the language, is leftmost-longest |
| Regexp.MatchedText | src/regex/regexec.c:552-868 | leftmost-longest, in slices of the text alone: the match is a word of the pattern that ends at or before `stop`, no longer (or shorter) slice from its start is one, and no slice from a start passed over |
| Regexp.LeafFinds | src/regex/regexec.c:3907-3952 | searching for a character, a bracket or a period finds the first byte it takes; a period takes all but newline without RE_DOT_NEWLINE and NUL with RE_DOT_NOT_NULL |
| Regexp.CompileAndSearch | src/regex/regexec.c:552-868 | compile a tree, search a text: the leftmost-longest match in slices of the text, or none exactly when there is none |
| Getopt.GetoptData.Exchange | src/unistd/getopt.c:118-170 | an exact rotation of the two blocks, each in its own order, and the new bounds of the non-options |
| Getopt.SwapBlocks | src/unistd/getopt.c:141-146 | swaps two blocks and leaves the rest |
| Getopt.RotateShortBottom | src/unistd/getopt.c:133-149 | what is left after moving the short bottom block is a smaller rotation with the same result |
| Getopt.RotateShortTop | src/unistd/getopt.c:150-164 | the same for a short top block |
| Getopt.GetoptData.Initialize | src/unistd/getopt.c:369-400 | optstring with its prefix `-` or `+` split off, the ordering that and POSIXLY_CORRECT ask for, and an empty block of non-options |
| Getopt.GetoptData.Reorder | src/unistd/getopt.c:492-509 | moving the options ahead and passing over non-options changes nothing a caller can see |
| Getopt.GetoptData.DashDash | src/unistd/getopt.c:511-540 | `--` ends the scan with all options first and optind at the first non-option |
| Getopt.GetoptData.NextElement | src/unistd/getopt.c:481-599 | a call finds the end of the scan, an in-order non-option, a long option, or enters the next option element; what it worked on, and what that leaves in optopt |
| Getopt.GetoptData.EnterElement | src/unistd/getopt.c:553-598 | an option element is a long option, one value with its elements, or is entered unseen |
| Getopt.GetoptData.ProcessLongOption | src/unistd/getopt.c:181-364 | the value, argument and elements of the option a text names, and what is left in optopt; for a name to be read as short options it does nothing |
| Getopt.GetoptData.WordOption | src/unistd/getopt.c:616-657 | `-W name` and `-Wname` are `--name`; without a name it is a missing argument; the name must not be a null pointer |
| Getopt.GetoptData.TakeArgument | src/unistd/getopt.c:658-688 | the argument of a short option: the rest of the element, else the next element if it is not optional, else a missing argument |
| Getopt.FindLong | src/unistd/getopt.c:202-249 | the option a name stands for: exact match, else the first abbreviated one unless a second one competes |
| Getopt.FindByName | src/unistd/getopt.c:202-249 | a full name finds its option even when it abbreviates others, and an abbreviation of one option only finds that one |
| Getopt.OptoptIsCharacter | src/unistd/getopt.c:601-691 | what a short option leaves in optopt obeys the rule: its character exactly when no required argument is missing (or the character is the `?` returned) |
| Getopt.OptoptIsLost | src/unistd/getopt.c:669-690 | a call of the scanner that returns `?` and leaves `?` in optopt instead of the option's character |
| Getopt.LongIgnores | src/unistd/getopt.c:315-352 | what follows matters to a long option only as its argument, which it takes exactly when it requires one and has no `=` |
| Getopt.GetoptData.ShortOption | src/unistd/getopt.c:601-691 | one option character does what the reference says: the value, the elements used up, what is left of the element, and optopt; `OptionMeaning.CharacterMeans` says what that is |
| Getopt.GetoptData.NextCharacter | src/unistd/getopt.c:601-691 | the next character of an entered element: its value and argument head what was still to come, and optopt obeys its rule |
| Getopt.StepAgain | src/unistd/getopt.c:616-687 | a character that does not lack its argument reads no element behind those it uses up |
| Getopt.ElementTakes | src/unistd/getopt.c:642-687 | an option that lacks its argument has used up all elements, and takes more when there are more |
| Getopt.GetoptData.GetoptInternal | src/unistd/getopt.c:458-692 | a call returns the next value of the reference scan, or -1 with argv and optind final; argv is only permuted; the place of the element worked on, with value, optind and optopt as that element determines them |
| Getopt.RunAll | src/unistd/getopt.c:402-430 | the caller's loop ends; values, final argv and optind are those of the reference scan, for each ordering |
| Getopt.PlainScan | src/unistd/getopt.c:402-430 | an argv without null pointers, with no long option of value -1, is specified throughout |
| Getopt.PermuteKeepsOrder | src/unistd/getopt.c:46-54 | the final argv is a permutation: first option elements, each followed by its argument, and `--` at most at the end, then the non-options, both in their original order; where the scan stops for each ordering |
| Getopt.StablePartition | src/unistd/getopt.c:402-430 | the scan cuts argv into non-options and options with the elements right behind them that they take, and is the stable partition of these pieces; the values returned are those of the pieces in order |
| Getopt.PermutedIsStable | src/unistd/getopt.c:402-430 | scanning the permuted argv again gives the same outcome exactly unless the last option lacks its argument and there are non-options |
| Getopt.SecondScanDiffers | src/unistd/getopt.c:658-685 | the exception at work |
| OptionMeaning.CharacterMeans | src/unistd/getopt.c:601-691 | what a call makes of a character, read off optstring: not in it, `:` and `;` give `?`; no colon gives the character; with colons its argument is the text behind it, else the next element after one colon and none after two; a missing one gives `:` or `?` by the first character of optstring; the element and character that come next, and optopt |
| OptionMeaning.WordMeans | src/unistd/getopt.c:616-657 | where optstring has `W;`, the text behind `-W`, or else the next element, is looked up as a long option; without either the argument is missing |
| OptionMeaning.FindMeans | src/unistd/getopt.c:202-289 | which option a name stands for, and when it stands for none: the first of that name, else the first that starts with it unless a later one differs in more than its name, or there is any for getopt_long_only |
| OptionMeaning.NameMeans | src/unistd/getopt.c:315-363 | the argument of a long option is the text behind `=`, refused if it takes none; without `=` it is the next element if required, which may be missing; its value is 0 if it sets a flag; an unknown or ambiguous name gives `?` |
| OptionMeaning.ElementMeans | src/unistd/getopt.c:543-590 | an element a call handles as a whole is a non-option where these are returned in order, or its text behind `--` (or `-`, for getopt_long_only) is looked up; what that leaves in optopt |
| OptionMeaning.EnteredMeans | src/unistd/getopt.c:553-598 | an element whose characters are read starts with one `-` and is no long option: with getopt_long_only, a single character of optstring, or one that starts a name no option has |
| OptionMeaning.ScanNonOption | src/unistd/getopt.c:543-552 | a text that is empty, `-`, or does not start with `-` is moved behind, ends the scan, or is returned with the value 1, by the ordering |
| OptionMeaning.ScanNamed | src/unistd/getopt.c:557-564 | `--` with a text behind it brings the one value of the option named there and takes its argument along |
| Hsearch.IsPrime | src/search/hsearch_r.c:52-60 | trial division decides primality of odd numbers |
| Hsearch.TrialDivision | src/search/hsearch_r.c:52-60 | no odd divisor up to the square root means no divisor |
| Hsearch.HsearchData.Create | src/search/hsearch_r.c:62-110 | the size is the least prime from max(nel, 3) on, failing exactly when none is in range or a table exists |
| Hsearch.HsearchData.Destroy | src/search/hsearch_r.c:120-134 | no table is left, so another can be created |
| Hsearch.ProbesDistinct | src/search/hsearch_r.c:190-206 | with a prime size, the first `size` probes are distinct |
| Hsearch.ProbesCover | src/search/hsearch_r.c:194-206 | the probe sequence visits every slot before it returns to its start |
| Hsearch.ProbeWord | src/search/hsearch_r.c:198-201 | the unsigned 32-bit arithmetic of a move is exact |
| Hsearch.ComputeHash | src/search/hsearch_r.c:163-175 | the hash, which is never zero |
| Hsearch.HashIs | src/search/hsearch_r.c:163-175 | the hash in one formula: the characters as digits to the base 16 below the length, wrapped to 32 bits, and 1 for 0 |
| Hsearch.HsearchData.Locate | src/search/hsearch_r.c:177-216 | stops at the key if it is there, else at a free slot on the key's path, else with every slot in use |
| Hsearch.HsearchData.Search | src/search/hsearch_r.c:157-242 | one call does to the table what it does to a finite map: first-entered data is kept, ENTER fails exactly when the key is new and the table full |
| Hsearch.HsearchData.Run | src/search/hsearch_r.c:157-242 | any sequence of calls answers as the finite map does; `Hsearch.Answered` says which answers these are |
| Hsearch.FirstEntered | src/search/hsearch_r.c:157-242 | a key is in the table exactly when its first ENTER came after fewer than `size` other keys, with the data of that call |
| Hsearch.KeysTaken | src/search/hsearch_r.c:216-233 | the table holds every key offered until `size` are in, and then those |
| Hsearch.Answered | src/search/hsearch_r.c:157-242 | every answer from the calls alone: a FIND or a repeated ENTER gives the data the key was first entered with; a FIND of any other key fails; a first ENTER gives its own data, or fails exactly when `size` keys came before |
| Strverscmp.Verscmp | src/string/strverscmp.c:41-105 | the sign of the table-driven walk is the order of the sort keys |
| Strverscmp.TotalOrder | src/string/strverscmp.c:35-39 | antisymmetric, transitive, and zero exactly for equal strings |
| Strverscmp.BytesDecide | src/string/strverscmp.c:58-66 | outside numbers the bytes decide as with strcmp, unless a number without leading zeros starts in both strings; and wherever both go on with no digit |
| Strverscmp.PrefixFirst | src/string/strverscmp.c:58-66 | a string comes before every longer one it starts, unless it ends in leading zeros and the longer one goes on with a digit, and after it then |
| Strverscmp.OrderStep | src/string/strverscmp.c:77-86 | passing over a common byte with the state table keeps the order |
| Strverscmp.ResultIs | src/string/strverscmp.c:58-66 | the result table is the stated rule for all states and byte classes |
| Strverscmp.RuleDecides | src/string/strverscmp.c:88-104 | where bytes first differ, the rule gives the order of the sort keys |
| Strverscmp.CompareRuns | src/string/strverscmp.c:95-100 | the look-ahead compares the lengths of the two digit runs, reading no byte past a NUL |
| Strverscmp.NumbersByValue | src/string/strverscmp.c:35-39 | strings with numbers without leading zeros at the same place are in the order of the numbers |
| Strverscmp.MoreZerosFirst | src/string/strverscmp.c:35-66 | of two numbers with leading zeros at the same place, the one with more of them comes first |
| Strverscmp.FractionsByValue | src/string/strverscmp.c:35-66 | with equally many leading zeros they compare as fractions where two digits differ; zeros alone come last, and where one is a prefix of the other the byte behind it decides |
| Strverscmp.CommonPrefix | src/string/strverscmp.c:77-86 | a common prefix only matters through the state behind it |
| Obstack.ObstackData.Begin | src/malloc/obstack.c:116-166 | an obstack with one chunk of the size asked for, its first object at the first aligned place behind the header, and no objects |
| Obstack.CopyObject | src/malloc/obstack.c:252-270 | the word loop and the byte loop together move the object whole and touch nothing else |
| Obstack.ObstackData.Relocate | src/malloc/obstack.c:244-288 | the growing object moves to the new chunk; the old chunk goes only if no live object is in it; live objects keep address and bytes |
| Obstack.ObstackData.NewChunk | src/malloc/obstack.c:224-288 | asks for the usual size or for the room the source computes; fails exactly when the allocator has no chunk of that size, and then changes nothing; otherwise the new chunk is last, there is room for the request, the growing object is at its start, unchanged; the old chunk is released exactly when the object started it and maybe_empty_object was clear, and never with a live object |
| Obstack.OnlyData | src/malloc/obstack.c:272-282 | when maybe_empty_object is clear and the growing object starts the chunk, the chunk holds nothing else |
| Obstack.ObstackData.Grow | src/malloc/obstack.h:296-304 | where there is room it appends to the growing object and moves only the next free byte; otherwise it opens the chunk the allocator gives, or changes nothing where that refuses; every live object keeps address, bytes and chunk |
| Obstack.ObstackData.Blank | src/malloc/obstack.h:359-366 | the same, with the growing object longer by bytes that are not set |
| Obstack.ObstackData.BlankFast | src/malloc/obstack.h:256 | where there is room, the growing object gets longer and keeps its bytes |
| Obstack.ObstackData.Finish | src/malloc/obstack.h:388-401 | the growing object becomes the newest live object at the address returned, which is aligned if the object is not empty; the next one starts at the next aligned place, or at the limit where that lies beyond; maybe_empty_object is set by an empty object |
| Obstack.ObstackData.FreeChunks | src/malloc/obstack.c:321-349 | releases exactly the chunks newer than the owner of the address, gives up exactly when no chunk has it |
| Obstack.ObstackData.Free | src/malloc/obstack.h:403-409 | freeing a live object never gives up and leaves exactly the older ones, in place, with the next object at its address |
| Obstack.OwnerOnly | src/malloc/obstack.c:329-341 | the search for an object's address stops at the chunk the object is in |
| Obstack.FreeFits | src/malloc/obstack.c:321-349 | cutting the chain back to an object keeps every invariant of the older ones |
| Obstack.Run | src/malloc/obstack.h:24-98 | any run of grow, finish and free acts as a stack of byte strings; an object keeps its address from the moment it is handed out until it is freed, and is aligned if not empty; a run stops only where the allocator refuses a chunk that is needed, and one that frees nothing and whose bytes fit with alignment stays in its chunk and ends where they end |
| Argz.Vector.Append | src/argz/argz-append.c:5-17 | the bytes go behind the vector, the length grows by theirs |
| Argz.Vector.Add | src/argz/argz-append.c:19-23 | one entry more |
| Argz.NextWalks | src/argz/argz-next.c:3-15 | stepping visits the entries in order, each once, and ends |
| Argz.EntriesRoundTrip | src/argz/argz-next.c:3-15 | vectors and lists of NUL-free entries correspond one to one |
| Argz.EncodeConcat | src/argz/argz-append.c:5-17 | the vector of two lists of entries is the one behind the other |
| Argz.Substitute | src/argz/argz-replace.c:42-59 | the inner loops replace every leftmost non-overlapping occurrence in an entry (`Argz.ReplaceAllWeaves`) |
| Argz.ReplaceAllWeaves | src/argz/argz-replace.c:42-59 | the entry is cut at the occurrences, each the first one left, and the same pieces with the replacement between them are the result |
| Argz.ContainingCounts | src/argz/argz-replace.c:73-74 | the counter counts the entries in which the string occurs |
| Argz.StrAppend | src/argz/argz-replace.c:10-24 | appends and keeps the string terminated |
| Argz.Vector.Replace | src/argz/argz-replace.c:25-90 | the entries are mapped one by one wherever the first match is; nothing is copied without a match; the counter grows by the entries with a match |
| Argz.CopiedFirst | src/argz/argz-replace.c:62-66 | at the first match, the entries before it come over as they are |
| Argz.WriteSplit | src/argz/argz-ctsep.c:19-30 | the shared loop writes exactly the split's encoding and returns its length |
| Argz.SplitIs | src/argz/argz-ctsep.c:19-30 | what the split of a string is: the one list of separator-free entries, none empty but possibly the last, that joined is the string without leading and doubled separators |
| Argz.SplitKeepsBytes | src/argz/argz-ctsep.c:19-30 | the entries put together are the bytes of the string other than the separator |
| Argz.Vector.CreateSep | src/argz/argz-ctsep.c:7-45 | the vector's entries are the split of the string |
| Argz.Vector.AddSep | src/argz/argz-addsep.c:6-34 | the split's entries follow those already there |
| Argz.Stringify | src/argz/argz-stringify.c:4-16 | in place, every NUL but the last byte becomes the separator |
| Argz.StringifiedIsJoin | src/argz/argz-stringify.c:4-16 | on a vector, that is the entries joined with the separator |
| Argz.StringifyOfSplit | src/argz/argz-ctsep.c:7-45 | create_sep then stringify restores a non-empty string exactly when no separator leads or is doubled |
| Argz.SplitOfJoin | src/argz/argz-stringify.c:4-16 | stringify then create_sep restores exactly the vectors of separator-free entries, none empty but possibly the last, and not one empty entry alone |

## Left out

- Multibyte and locale code, case folding, translation tables, `COMPLEX_BRACKET`: they rest on tables that are not in the repository.
- Anchors, word operators and constraints; transition tables for newline and word contexts; back-references, registers and `set_regs`.
- The pattern parser itself, `lower_subexps` and `optimize_subexps`: the model starts from the parse tree they hand over, in the shapes `Language.WellFormed` lists.
- DupOp.ParseInterval: works on a sequence of already classified tokens, because the tokenizer is not modelled; `re_string_set_index` is the unchanged position.
- DupOp.Repeat: `mark_opt_subexp` and `free_tree` only touch token flags and token memory, which the model does not have. The source applies `parse_dup_op` to `SUBEXP` nodes, too, and `lower_subexps` replaces these before `calc_first` runs; `Language.Token` has no `SUBEXP`, so `DupOp` and the engine meet only on operands that are already lowered (`Repetition.SearchRepetition`).
- Regexp.Compile: assumes that every bracket contains some byte, as the source does (src/regex/regexec.c:3530-3531).
- BinTrees.Postorder: returns the visiting order; the passes apply their step to it afterwards, which is the same because no step changes a child or parent pointer.
- Groups.GroupNodes: bitset words are sets of bytes; the word loops of `bitset_*` are not modelled.
- NodeSets.NodeSet.Merge: the sources are passed as values, so a destination that is also a source is outside the model; the source's comment demands the same.
- Dfa.Dfa.Acquire: the hash chains per bucket are sequences; the growth of a bucket's array is not modelled.
- Allocation failure: constructions succeed, except that an obstack's allocator may give up; freeing of automata and lists is not modelled.
- Getopt.GetoptData.GetoptInternal: without the messages to stderr; option characters are positive. A call is not specified where the reference marks its value as astray: where a long option accepted has the value -1, which the caller cannot tell from the end of the scan, and where the name behind `-W` would be read through a null pointer.
- Getopt.GetoptData.ProcessLongOption: `*longind` and `*flag` are not written; the option accepted is an out-parameter, from which both follow.
- Hsearch.HsearchData.Search: the caller's write access to `entry.data` through the returned pointer and changes to a key's characters are not modelled; `char` is signed.
- Strverscmp.Verscmp: the shortcut for equal pointers is not modelled; equal strings compare equal anyway.
- Obstack.Align: masking is rounding up to a multiple, which agrees for the powers of two the header demands.
- Obstack.ObstackData.Begin: demands that the first chunk has room for its header and alignment, which the source leaves to its caller; lengths do not overflow, and negative `obstack_blank`, the other `_fast` macros and the extra allocator argument are left out.
- Argz.Vector.CreateSep: the separator is a byte value; C compares a signed `char` with an `int`, so separators above 127 given as unsigned values behave differently there.
- Argz.Vector.Replace: `strstr` is its own definition; the replacement text does not alias the vector.
- `argz_insert`, `argz_delete`, `argz_count`, `argz_extract`, `argz_create`, `tsearch`, and the small string and I/O functions would only add easy members.
