# A verified model of nemclass

nemclass searches and describes the memory of another process. This project models
the logic behind that in Dafny and proves what it promises:

* **Pointer scan** (`Memory`, `PointerMap`, `PointerScan`): chunked harvest of words into
  a sorted index, bounded reverse depth-first search with an on-path visited set, a
  shared suffix and a result cap.
* **Structure spider** (`SpiderWindow`, `SpiderGraph`, `SpiderComplete`, `Spider`,
  `SpiderMemory`, `SpiderScan`, `SpiderRefine`):
  level-by-level search of memory seen as a graph, over a reused window with a
  page-by-page fallback, and the later narrowing of its hits.
* **Value scanner** (`ValueType`, `ResultColumns`, `ScanWalk`, `ScanSession`, `Scanner`,
  `ScanRun`, `RegionFilter`): overlapping windows against a plain lattice scan, and the session of
  first scans, next scans, undo, failure and cancellation.
* **Address formulas** (`Formula`, `FormulaGrammar`, `FormulaDerives`, `FormulaPrint`,
  `FormulaValues`, `FormulaText`, `FormulaPaths`): tokenizer, recursive-descent parser with
  its depth guard against its grammar, wrapping evaluator, and the two printers as compilers
  that keep the meaning of a path.
* **Patterns and signatures** (`Pattern`, `ScriptPattern`, `Signature`): two independent
  pattern matchers and the generator of unique signatures.
* **Two concurrent protocols as step systems**: the breakpoint slots of the kernel module
  (`Breakpoints`, `BreakpointsEnd`, `BreakpointsEvents`) and the worker/main-thread bridge of
  the script engine (`ScriptBridge`, `ScriptWaits`).
* **Layout and trees** (`Layout`, `SelfEmbedding`, `Project`, `NodeTree`, `NodeDefs`): sizes
  over cyclic class graphs and the serialization of node trees.

Memory is a partial map from address to byte. A `Target` gives regions and a `read` that
may fail or come back short; `Faithful` says that it never invents bytes, `FullReads` that
a read wholly inside a region returns everything, `AllOrNothing` that pages are mapped
whole. Soundness results need only a faithful target; completeness results name the
stronger assumption they use. Within one pass the target does not change.

Where the code and its comments part, the model follows the code:

* `resolve` with no offsets reads the base, `to_formula` does not
  (`FormulaPaths.EmptyPathDisagrees`).
* The harvest reads the word at the start of every later window twice. It then sorts
  unstably by value alone before removing neighbours, although the comment expects the copy
  to go: for some orders the sort may choose the pair stays twice, exactly when another
  holder has the same value (`PointerMap.DistinctForEverySortIff`,
  `PointerScan.SeamsStandAloneIff`). When none has, no path is listed twice either.
* A first scan that fails or is cancelled after validation keeps the generations but has
  already reset `truncated` and `scanned_regions` (`Scanner.Scanner.FirstScan`).
* An allowlist of zero-size spans acts as none (`RegionFilter.ZeroSpansAllowEverything`,
  `RegionFilter.DocumentedIff`).
* A dangling nibble parses as a half wildcard although the comment calls it an error
  (`Pattern.ParseReadsWords`).
* At an aligned page start the fallback read asks for one byte first and for the rest of
  the page next; the proof covers both reads.
* A main-thread resolve is documented as free of deadlock; it is so exactly when no script
  in hand or queued still calls the host (`ScriptWaits.MainResolveReturnsIff`).
* A class that embeds itself may be measured differently by the project and by the
  generators (`SelfEmbedding.SizesAgreeIff`, `SelfEmbedding.SelfEmbedCountsTwice`).
* The spider's window has room for one pointer past the struct, so a longer value in its
  last slots is missed for some roots, unless the configuration leaves room for it
  (`SpiderMemory.NeverMissesIff`, `SpiderMemory.TailIsMissed`); by default there is room for
  13 bytes (`SpiderMemory.DefaultTail`).
* The test whether a value points into a region looks at one range only; it is membership
  when ranges do not overlap (`PointerMap.ProbeMissesIff`).

The whole project verifies with `dafny verify dfyconfig.toml`.

## Model

| member | source | states |
|---|---|---|
| `Memory.ReadWord` | crates/nemclass-scan/src/pointerscan.rs:325-331 | the accumulating loop yields the little-endian value of at most eight bytes |
| `Memory.WordHoldsItsBytes` | crates/nemclass-scan/src/pointerscan.rs:325-331 | byte i of a word is byte i of what was read, for each of the first eight, and nothing past the eighth counts |
| `Memory.WordReadsBack` | crates/nemclass-scan/src/pointerscan.rs:325-331 | a pointer stored in up to eight bytes is read back whole |
| `Memory.WordInjective` | crates/nemclass-scan/src/pointerscan.rs:325-331 | two words of the same width up to eight are equal exactly when their bytes are |
| `Memory.RegionHolds` | crates/nemclass-scan/src/target.rs:28-32 | a region contains exactly its own bytes, except the last address of all, where its end saturates |
| `Memory.NextMultipleIsNext` | crates/nemclass-scan/src/pointerscan.rs:167 | rounding up gives the least multiple at or above an address; every lattice step starts from it |
| `PointerMap.MappedIffInside` | crates/nemclass-scan/src/pointerscan.rs:339-343 | over ordered, non-overlapping ranges the single binary-search probe is membership in some range |
| `PointerMap.OverlapHidesAnAddress` | crates/nemclass-scan/src/pointerscan.rs:339-343 | a concrete pair of overlapping ranges for which the probe misses a covered address |
| `PointerMap.ProbeMissesIff` | crates/nemclass-scan/src/pointerscan.rs:339-343 | over ranges sorted by start the probe misses a covered address exactly when some range ends before an earlier one does and leaves room before the next starts |
| `PointerScan.MappedIffInsideRegion` | crates/nemclass-scan/src/pointerscan.rs:143-145 | over regions that do not overlap, in whatever order they are listed, the sorted probe is membership in a region |
| `PointerScan.AnchoredIffInside` | crates/nemclass-scan/src/pointerscan.rs:276-307 | with static ranges that do not overlap, a chain is anchored exactly at a holder inside one of them |
| `PointerMap.RangeIsExact` | crates/nemclass-scan/src/pointerscan.rs:292-298 | over a list sorted by value, the range query returns exactly the pairs with value in [lo, hi] |
| `PointerMap.SortByValue` | crates/nemclass-scan/src/pointerscan.rs:193 | the sorted index is a permutation ordered by value; nothing is said about ties |
| `PointerMap.DedupKeepsOrder` | crates/nemclass-scan/src/pointerscan.rs:194-196 | dropping equal neighbours keeps the order by value (and, by the function's own contract, the set) |
| `PointerMap.WindowExact` | crates/nemclass-scan/src/pointerscan.rs:166-182 | the words harvested from one window are exactly the aligned words wholly inside it whose value is mapped |
| `PointerMap.HarvestChunk` | crates/nemclass-scan/src/pointerscan.rs:167-182 | the inner word loop appends a prefix of the window's pointers, all of them unless the cap is reached |
| `PointerMap.HarvestWindow` | crates/nemclass-scan/src/pointerscan.rs:162-191 | one read: its words are pushed in order, the index is full exactly when they reach the cap, and the next window starts psize before the end of this one unless nothing is left |
| `PointerMap.HarvestRegion` | crates/nemclass-scan/src/pointerscan.rs:156-191 | the walk over a region pushes exactly the words of its windows in order, cut off at the cap; it fails exactly when a read fails before the cap is reached |
| `PointerMap.Harvest` | crates/nemclass-scan/src/pointerscan.rs:141-191 | all regions: the pushed list is exactly the words of the uncapped harvest, or its first max_map_entries; full is raised exactly when they reach the cap, and the harvest fails exactly when a read fails before that |
| `PointerMap.AllWordsSound` | crates/nemclass-scan/src/pointerscan.rs:156-191 | every word of the uncapped harvest is an aligned mapped word of one region, on any faithful target |
| `PointerMap.AllWordsComplete` | crates/nemclass-scan/src/pointerscan.rs:156-191 | with full reads no read fails and the overlapping windows lose no such word of any region |
| `PointerMap.AllTwice` | crates/nemclass-scan/src/pointerscan.rs:184-190 | over ascending regions holders come out ascending and a word is pushed at most twice, back to back, and twice only where a later window of its region starts |
| `PointerMap.SortedGroups` | crates/nemclass-scan/src/pointerscan.rs:193-196 | after an unstable sort by value the copies of a repeated pair stand together when no other pair shares its value |
| `PointerMap.SeamInAllTwice` | crates/nemclass-scan/src/pointerscan.rs:184-190 | with full reads a pointer held where a later window of its region starts is indeed pushed twice |
| `PointerMap.DedupDistinctIff` | crates/nemclass-scan/src/pointerscan.rs:194-196 | dropping equal neighbours leaves no pair twice exactly when copies stand together |
| `PointerMap.DistinctForEverySortIff` | crates/nemclass-scan/src/pointerscan.rs:193-196 | whatever order the sort gives equal values, no pair is left twice exactly when none that was pushed twice shares its value with another |
| `PointerScan.SeamsStandAloneIff` | crates/nemclass-scan/src/pointerscan.rs:184-196 | with full reads below the entry cap that is so exactly when no pointer held at the start of a later window shares its value with another holder |
| `PointerScan.Build` | crates/nemclass-scan/src/pointerscan.rs:141-199 | fails exactly when a read fails before the entry cap is reached; truncated exactly when the cap is reached; the index is sorted and holds exactly the pushed words, each an aligned word of one region whose value lies in a region; below the cap with full reads it holds all of them, and none twice when no such word at the start of a later window shares its value with another holder |
| `PointerScan.Sound` | crates/nemclass-scan/src/pointerscan.rs:241-289 | every listed path is the path of a chain: linked within max_offset, anchored only at its static end, goals pairwise distinct |
| `PointerScan.Complete` | crates/nemclass-scan/src/pointerscan.rs:241-289 | every such chain of 1 to max_depth hops is listed |
| `PointerScan.PathDeterminesChain` | crates/nemclass-scan/src/pointerscan.rs:241-289 | base and offsets determine the whole chain when each holder stores one value |
| `PointerScan.NoPathTwice` | crates/nemclass-scan/src/pointerscan.rs:241-289 | with distinct pairs no path is listed twice |
| `PointerScan.CappedTwice` | crates/nemclass-scan/src/pointerscan.rs:252-268 | capping a list piece by piece is capping the whole, so the shared result cap cuts one global prefix |
| `PointerScan.PathSearch.Solve` | crates/nemclass-scan/src/pointerscan.rs:241-289 | the depth-first search leaves suffix and visited as it found them and appends exactly the capped list of all paths; truncated stays clear only if nothing was cut and is raised only over a full result list |
| `PointerScan.PathSearch.SolveHops` | crates/nemclass-scan/src/pointerscan.rs:263-286 | the candidate loop under one goal, same contract |
| `PointerScan.PathSearch.SolveHop` | crates/nemclass-scan/src/pointerscan.rs:269-285 | one candidate: static holders are recorded, others searched from, the suffix restored |
| `PointerScan.FindPaths` | crates/nemclass-scan/src/pointerscan.rs:217-235 | exactly the first max_results paths of the unbounded search, each of a chain; truncated only with max_results paths, so never with fewer chains than that; untruncated all of them; no path twice over distinct pairs |
| `PointerScan.ResolvePath` | crates/nemclass-scan/src/pointerscan.rs:94-102 | the resolving loop equals the recursive meaning of a path, checked adds and failed reads included |
| `PointerScan.ChainResolves` | crates/nemclass-scan/src/pointerscan.rs:94-102 | resolving the path of a chain over memory that holds the chain's words gives the goal |
| `PointerScan.MemoryChainResolves` | crates/nemclass-scan/src/pointerscan.rs:94-102 | the same for chains of the target's memory rather than of the index |
| `PointerScan.Scan` | crates/nemclass-scan/src/pointerscan.rs:311-320 | end to end: fails exactly where the harvest does; the paths are the first max_results of the search over the pushed words; each starts in a static range, follows pointers really held in memory and resolves to the goal; truncated only when the entry cap or max_results was reached; untruncated with full reads every such path is reported; none twice when no word at the start of a later window shares its value |
| `Formula.Tokenizer.ReadNumber` | crates/nemclass-model/src/address/tokenizer.rs:41-67 | the cursor loop reads exactly the longest number literal, hexadecimal or decimal, or fails as the specification does |
| `Formula.Tokenizer.ReadName` | crates/nemclass-model/src/address/tokenizer.rs:70-97 | an identifier runs to the first closing quote or bracket, and fails without one |
| `Formula.Tokenizer.Tokenize` | crates/nemclass-model/src/address/tokenizer.rs:99-126 | the loop returns exactly the token list of the text, or its first error |
| `Formula.Parser.Additive` | crates/nemclass-model/src/address/parser.rs:59-77 | the loop over + and - consumes exactly what the recursive specification does and builds the same left-leaning tree |
| `Formula.Parser.Multiplicative` | crates/nemclass-model/src/address/parser.rs:79-102 | the same for *, / and % |
| `Formula.Parser.Unary` | crates/nemclass-model/src/address/parser.rs:104-119 | the same for signs, with the depth guard first |
| `Formula.Parser.Primary` | crates/nemclass-model/src/address/parser.rs:121-159 | the same for literals, names, parentheses and brackets, with every error case |
| `Formula.Parse` | crates/nemclass-model/src/address/parser.rs:55-171 | tokenizing, parsing and the trailing-token check together equal the specification of a text's expression |
| `FormulaGrammar.ReadsAdditive` | crates/nemclass-model/src/address/parser.rs:59-77 | a printed expression followed by anything but a multiplication is read back whole by the additive level, or refused as too deep, exactly by its nesting |
| `FormulaGrammar.ReadsMultiplicative` | crates/nemclass-model/src/address/parser.rs:79-102 | the same at the multiplicative level, for any continuation |
| `FormulaGrammar.ReadsUnary` | crates/nemclass-model/src/address/parser.rs:104-119 | the same at the unary level, for any continuation |
| `FormulaGrammar.ReadsBack` | crates/nemclass-model/src/address/parser.rs:55-171 | every expression printed with only the parentheses that precedence and left associativity require parses back to itself when it nests at most 128 deep, and is refused as too deep otherwise |
| `FormulaGrammar.AcceptedReadsBack` | crates/nemclass-model/src/address/parser.rs:55-171 | whatever the parser accepts prints again to a text with the same expression, so accepted texts are the printed ones up to redundant parentheses |
| `FormulaGrammar.UsualOrder` | crates/nemclass-model/src/address/parser.rs:59-102 | products bind tighter than sums, and differences group from the left |
| `FormulaDerives.AcceptsIffDerives` | crates/nemclass-model/src/address/parser.rs:55-171 | the parser accepts a list of tokens as an expression exactly when the usual grammar of sums, products, signs, parentheses and brackets derives it with at most 128 of the last three inside one another, redundant parentheses included |
| `FormulaDerives.OneMeaning` | crates/nemclass-model/src/address/parser.rs:55-171 | no list of tokens derives two expressions |
| `FormulaPrint.TextReadsBack` | crates/nemclass-model/src/address/tokenizer.rs:31-126 | any expression written as text, literals in decimal or in hexadecimal of either case, names in either quotes, any of the four blanks between tokens, parses back as itself, or is refused because a literal does not fit or it nests deeper than 128 |
| `FormulaPrint.TokensOfText` | crates/nemclass-model/src/address/tokenizer.rs:31-126 | every token is read back from its text, with all operators; a literal that does not fit is a bad number |
| `FormulaPrint.HexDigitsAre` | crates/nemclass-model/src/address/tokenizer.rs:47-57 | hexadecimal digits are exactly the ten digits and the six letters in either case |
| `FormulaPrint.Refusals` | crates/nemclass-model/src/address/tokenizer.rs:41-126 | a prefix without digits, an unclosed name and a character that starts no token each get their own error |
| `FormulaValues.ValuesAreWords` | crates/nemclass-model/src/address/interpreter.rs:15-60 | every value is a machine word if module bases and reads are |
| `FormulaValues.SubThenAdd` | crates/nemclass-model/src/address/interpreter.rs:26-31 | adding back what was subtracted gives the first operand, wrapping included |
| `FormulaValues.SubIsAddNegated` | crates/nemclass-model/src/address/interpreter.rs:29-53 | a difference is the sum with the negated |
| `FormulaValues.NegatedCancels` | crates/nemclass-model/src/address/interpreter.rs:50-53 | what is negated cancels out |
| `FormulaValues.AddCounts` | crates/nemclass-model/src/address/interpreter.rs:21-28 | adding zero changes nothing; adding one counts up and starts over past the last word |
| `FormulaValues.AddSteps` | crates/nemclass-model/src/address/interpreter.rs:26-28 | adding one more adds one |
| `FormulaValues.MulZero` | crates/nemclass-model/src/address/interpreter.rs:32-34 | a product with zero is zero |
| `FormulaValues.MulSteps` | crates/nemclass-model/src/address/interpreter.rs:32-34 | a product with one more is one operand more: multiplication is repeated addition, wrapping included |
| `FormulaValues.QuotientAndRemainder` | crates/nemclass-model/src/address/interpreter.rs:35-48 | quotient times divisor plus remainder is the dividend, with the remainder below the divisor |
| `FormulaValues.ByZero` | crates/nemclass-model/src/address/interpreter.rs:35-48 | division and remainder by zero fail, each with its own error |
| `FormulaValues.SumsFail` | crates/nemclass-model/src/address/interpreter.rs:26-34 | a sum, difference or product fails exactly when an operand does, with the left one's error first |
| `FormulaValues.QuotientsFail` | crates/nemclass-model/src/address/interpreter.rs:35-48 | so does a quotient or remainder by anything but zero, with the divisor's error first |
| `FormulaValues.UnaryFails` | crates/nemclass-model/src/address/interpreter.rs:50-60 | a negation fails with its operand, a dereference also when the read does |
| `FormulaText.HexReadsBack` | crates/nemclass-model/src/address/tokenizer.rs:47-57 | the digits printed for a number read back as that number |
| `FormulaText.TokensOfPointer` | crates/nemclass-scan/src/pointerscan.rs:106-117 | tokens of a printed pointer path, or a bad-number error exactly when a literal does not fit |
| `FormulaText.PointerTextParses` | crates/nemclass-scan/src/pointerscan.rs:106-117 | the printed pointer path parses to its expression exactly when all literals fit an i64 and there are at most 128 offsets; each failure has its own error |
| `FormulaText.ParentTextParses` | crates/nemclass-scan/src/spider.rs:200-225 | the same for spider paths, from a module or a raw root |
| `FormulaPaths.PointerFormula` | crates/nemclass-scan/src/pointerscan.rs:106-117 | the printing loop produces the specified text |
| `FormulaPaths.SpiderFormula` | crates/nemclass-scan/src/spider.rs:200-206 | the printing loop produces the specified text |
| `FormulaPaths.PointerExprEvaluates` | crates/nemclass-model/src/address/interpreter.rs:15-60 | the compiled expression evaluates to the address reached after each hop, or fails with it, wherever no add carries; a path that resolves never carries |
| `FormulaPaths.PointerFormulaMeans` | crates/nemclass-scan/src/pointerscan.rs:94-117 | the text parses exactly when its literals fit and there are at most 128 offsets; it then evaluates, for every path and memory, to the resolution with wrapping adds, which for a path of at least one offset that resolves is the address resolve returns |
| `FormulaPaths.EmptyPathDisagrees` | crates/nemclass-scan/src/pointerscan.rs:94-117 | with no offsets the formula names the base while resolve reads it: they agree exactly when the base points to itself |
| `FormulaPaths.SpiderFormulaMeans` | crates/nemclass-scan/src/spider.rs:180-225 | the spider formula, module-anchored or raw, parses exactly when it fits and evaluates, for every path and memory, to the resolution with wrapping adds and null pointers followed, which is the resolved address of a path that resolves; where the path does not resolve the formula fails too, or an add overflowed, or a hop read null |
| `SpiderWindow.ReadWindow` | crates/nemclass-scan/src/spider.rs:307-338 | after a window read every covered offset holds the target's byte; nothing is promised of the rest, which may be left over from an earlier frame |
| `SpiderWindow.HasImpliesReadable` | crates/nemclass-scan/src/spider.rs:278-297 | a covered slot is readable memory and lies below the limit that bounds the walk |
| `SpiderWindow.FallbackIsExact` | crates/nemclass-scan/src/spider.rs:278-338 | with all-or-nothing pages the retry's spans are ordered, disjoint and coalesced, and a slot counts as covered exactly when all its bytes are mapped, across page borders too |
| `SpiderGraph.LevelSound` | crates/nemclass-scan/src/spider.rs:435-521 | frames of level d have depth d, a path of d hops that leads to them, and were not seen before |
| `SpiderGraph.PathsAreSeen` | crates/nemclass-scan/src/spider.rs:490-514 | every struct that a path of n hops leads to is seen by level n |
| `SpiderGraph.ShortestPath` | crates/nemclass-scan/src/spider.rs:422-428 | a frame's path has the fewest hops of any path to its struct |
| `SpiderGraph.ExaminesReachableOnce` | crates/nemclass-scan/src/spider.rs:419-521 | with deduplication the search examines exactly the structs within max_depth hops, each once, each by a shortest path |
| `SpiderGraph.HitsShallowFirst` | crates/nemclass-scan/src/spider.rs:435-521 | hits come out in non-decreasing depth, with or without deduplication |
| `SpiderGraph.HitIsReal` | crates/nemclass-scan/src/spider.rs:470-480 | every hit's path leads to the struct whose slot matched |
| `SpiderComplete.SlotHitsComplete` | crates/nemclass-scan/src/spider.rs:467-518 | the slot walk of a frame skips no aligned matching slot |
| `SpiderComplete.EveryRouteHasAFrame` | crates/nemclass-scan/src/spider.rs:496-514 | without deduplication every path within the depth limit is examined as its own frame |
| `SpiderComplete.SearchMissesNothing` | crates/nemclass-scan/src/spider.rs:419-521 | for every path of at most max_depth hops and every matching slot of the struct it leads to, the search lists that slot with its bytes, by a path to the same struct with no more hops, and by that very path without deduplication |
| `Spider.TestSlot` | crates/nemclass-scan/src/spider.rs:470-471 | the value branch decides on memory alone: no stale window byte reaches a compare |
| `Spider.FollowSlot` | crates/nemclass-scan/src/spider.rs:490-495 | the pointer branch follows exactly the edges of the memory graph |
| `Spider.QueueChild` | crates/nemclass-scan/src/spider.rs:487-515 | visited set and next frontier after one slot |
| `Spider.WalkSlots` | crates/nemclass-scan/src/spider.rs:467-518 | the slot loop adds exactly the frame's hits and children, or a full prefix of its hits |
| `Spider.ExamineFrame` | crates/nemclass-scan/src/spider.rs:456-518 | reading the window and walking it adds what the graph says; an unreadable struct adds nothing |
| `Spider.ScanLevel` | crates/nemclass-scan/src/spider.rs:438-519 | one level: drained it adds exactly its hits and its next level; stopped at a cap, the list is full with the hits up to the frame that filled it, or the node budget is used up with a frame still waiting and the hits of all frames before it; cancelled only at the first refused tick, every 64th node |
| `Spider.RunLevels` | crates/nemclass-scan/src/spider.rs:435-521 | the level loop reaches each level of the breadth-first search in turn, or stops with a full list, a used-up node budget or a refused tick |
| `Spider.HaltedReports` | crates/nemclass-scan/src/spider.rs:439-484 | stopping at either cap leaves exactly the first max_results hits of the first max_nodes frames of the unbounded search |
| `Spider.Run` | crates/nemclass-scan/src/spider.rs:419-528 | the result is the first max_results hits of the first max_nodes frames of the unbounded search, with the exact node count; truncated exactly when those hits reach max_results or there are more frames than max_nodes |
| `Spider.ResolvePath` | crates/nemclass-scan/src/spider.rs:180-189 | the resolving loop equals the meaning of a spider path; a null hop or an overflowing add fails |
| `Spider.ResolvesIff` | crates/nemclass-scan/src/spider.rs:180-189 | a path resolves exactly when each hop adds without overflow and reads a pointer that is not null, to the offset in the struct the last one gives |
| `Spider.WalkIsHops` | crates/nemclass-scan/src/spider.rs:180-189 | walking the graph is dereferencing the memory |
| `Spider.HitsAreReal` | crates/nemclass-scan/src/spider.rs:469-480 | every hit's path resolves in the unchanged memory to readable bytes equal to the stored ones, which satisfy the compare |
| `SpiderScan.HitIsRight` | crates/nemclass-scan/src/spider.rs:405-480 | a hit of the search starts at the root, resolves in memory with the configured pointer size to an aligned slot, and carries bytes as wide as the needle that the needle's own test accepts |
| `SpiderScan.NothingMissed` | crates/nemclass-scan/src/spider.rs:369-528 | a search that misses nothing of the memory graph answers every value that a path of memory from the root leads to within the clamped depth |
| `SpiderScan.AcceptsIff` | crates/nemclass-scan/src/spider.rs:383-402 | the spider takes exactly the compares that look at one value, with a needle of the type and of some width |
| `SpiderScan.Scan` | crates/nemclass-scan/src/spider.rs:369-528 | end to end, in terms of memory, configuration and needle alone: refusals in the source's order, cancellation only at a refused tick; every hit starts at the root, resolves, and its bytes pass the needle's test; slots step by the configured alignment or, for 0, by the needle's width; hits are shallow first and exactly those the two caps let through; truncated only when a cap was reached; untruncated over whole pages with a fitting tail, every matching slot that a path of memory within the depth leads to has its hit |
| `SpiderMemory.SlotsAreMemory` | crates/nemclass-scan/src/spider.rs:278-338 | where pages are mapped whole and windows read whole or not at all, a slot is a hit exactly when memory matches there and the value ends inside the window, and pointers lead where memory says |
| `SpiderMemory.MissesNothingOfMemory` | crates/nemclass-scan/src/spider.rs:369-528 | on such targets, where the tail fits, missing nothing of the search's graph is missing no matching value of memory |
| `SpiderMemory.ShortReadKeepsItsBytes` | crates/nemclass-scan/src/spider.rs:308-318 | a short window read loses exactly the slots that do not lie wholly in the bytes that came back |
| `SpiderMemory.LongValuesMissTheTail` | crates/nemclass-scan/src/spider.rs:431-433 | on any faithful target a value that runs past the window is never a hit; one no longer than a pointer always fits |
| `SpiderMemory.AllFitIffTailFits` | crates/nemclass-scan/src/spider.rs:431-468 | every slot of every struct has its value inside the window exactly when align * ((struct_size - 1) / align) + stride is at most struct_size + pointer_size + 1 |
| `SpiderMemory.TailIsMissed` | crates/nemclass-scan/src/spider.rs:431-471 | where that fails, over zeros from a root one past a lattice point the root's last slot matches in memory and no hit of the whole search is for it |
| `SpiderMemory.NeverMissesIff` | crates/nemclass-scan/src/spider.rs:431-471 | so that condition holds exactly when no search of this shape, over any target with whole pages and windows, any root and any value, misses a match of memory |
| `SpiderMemory.DefaultTail` | crates/nemclass-scan/src/spider.rs:104-116 | with the default struct size, alignment and pointer size: exactly the values of up to 13 bytes |
| `SpiderRefine.Refine` | crates/nemclass-scan/src/spider.rs:540-631 | a refused or cancelled pass leaves the hits untouched; a finished one keeps exactly the survivors with their readings rotated |
| `SpiderRefine.ReadingIsMemory` | crates/nemclass-scan/src/spider.rs:592-607 | a fresh reading is exactly the bytes at the address the path resolves to in memory |
| `SpiderRefine.ReadsIffResolves` | crates/nemclass-scan/src/spider.rs:592-612 | over a target that returns whatever is mapped a path is read exactly when it resolves in memory to readable bytes |
| `SpiderRefine.PassMeans` | crates/nemclass-scan/src/spider.rs:540-631 | one pass over such a target keeps exactly the hits whose path resolves to bytes that the needle, or without one the change compare, accepts against the reading before, as wide as the needle or the type |
| `SpiderRefine.AcceptsIff` | crates/nemclass-scan/src/spider.rs:549-570 | a refinement takes any compare but a baseline, and without a needle only the four with the value before |
| `SpiderRefine.RefinedConcat` | crates/nemclass-scan/src/spider.rs:616-628 | survivors keep their order |
| `SpiderRefine.RefinedByExact` | crates/nemclass-scan/src/spider.rs:580-628 | after any number of passes the list holds exactly the hits that resolved in all of them and passed every compare against the reading before, carrying the last two readings |
| `ValueType.ReadInt` | crates/nemclass-scan/src/value_type.rs:355-376 | the accumulating loop with sign extension equals the two's-complement value, or None past the end |
| `ValueType.IntRoundTrip` | crates/nemclass-scan/src/value_type.rs:355-376 | encoding any value of the type's range and reading it back gives the value |
| `ValueType.IntOfInjective` | crates/nemclass-scan/src/value_type.rs:355-376 | two readings are equal exactly when their bytes are |
| `ValueType.RangeIsWhole` | crates/nemclass-scan/src/value_type.rs:60-68 | width and signedness of each integer type are those of its range, -0x80 to 0x7F for i8 and so on |
| `ValueType.ReadingIsStored` | crates/nemclass-scan/src/value_type.rs:355-376 | reading a type's bytes gives a value in its range, and exactly the stored bytes give each value |
| `ValueType.FirstCompareMeans` | crates/nemclass-scan/src/value_type.rs:400-414 | on a stored value: exact, not equal, greater, less, between with an open or a strict upper bound, and unknown |
| `ValueType.NextCompareMeans` | crates/nemclass-scan/src/value_type.rs:414-421 | on two stored values: increased, decreased, changed, unchanged, increased by and decreased by; none of them without the value before |
| `ValueType.ChangesAreOrdered` | crates/nemclass-scan/src/value_type.rs:88-118 | of increased, decreased and unchanged exactly one holds; changed is its negation; unchanged means equal bytes; increase and decrease are mirror images |
| `ResultColumns.ScanResults.Push` | crates/nemclass-scan/src/results.rs:115-134 | appends one row, both values fitted to the stride, and moves no other row |
| `ResultColumns.ScanResults.Get` | crates/nemclass-scan/src/results.rs:82-90 | the row at an index, or None out of range |
| `ScanWalk.ScanRowsExact` | crates/nemclass-scan/src/scanner.rs:573-648 | the plain scan lists exactly the lattice addresses whose whole value lies in a region and matches |
| `ScanWalk.ScanRowsAscend` | crates/nemclass-scan/src/scanner.rs:573-648 | in strictly ascending order, so each once |
| `ScanWalk.NextIsFirstBeyond` | crates/nemclass-scan/src/scanner.rs:639-645 | the window step lands on the first lattice address not yet covered |
| `ScanWalk.WindowThenRest` | crates/nemclass-scan/src/scanner.rs:605-645 | the rows of a window followed by the rows from the next start are the rows from this start |
| `ScanWalk.ScanWindow` | crates/nemclass-scan/src/scanner.rs:609-637 | one window appends its rows up to the limit |
| `ScanWalk.ScanRegion` | crates/nemclass-scan/src/scanner.rs:573-648 | the overlapping windows of a region equal the plain scan of it |
| `ScanWalk.ScanRegions` | crates/nemclass-scan/src/scanner.rs:419-440 | all regions: with full reads a prefix of the plain scan, exactly limit rows when truncated by a positive limit, and everything when not |
| `ScanSession.UndoAfterPass` | crates/nemclass-scan/src/scanner.rs:342-349 | undo right after a pass restores the earlier results, and the whole history while it is below its bound |
| `ScanSession.RunIsExplained` | crates/nemclass-scan/src/scanner.rs:682-687 | in every run of first, next, undo and failed steps the history stays within 3 and every generation is a first scan narrowed by next scans that follow it in the run, in their order |
| `ScanSession.NarrowedExact` | crates/nemclass-scan/src/scanner.rs:506-547 | the results after any number of next scans are exactly the first scan's addresses that passed every compare against the pass before |
| `ScanSession.PassesNarrow` | crates/nemclass-scan/src/scanner.rs:476-565 | from any session, a first scan and next scans of which none finds everything unreadable leave exactly the narrowed first scan as current results |
| `Scanner.Scanner.PushGeneration` | crates/nemclass-scan/src/scanner.rs:682-687 | appends a generation and evicts the oldest past 3 |
| `Scanner.Scanner.Undo` | crates/nemclass-scan/src/scanner.rs:342-349 | drops the current generation unless it is the only one |
| `Scanner.Scanner.constructor` | crates/nemclass-scan/src/scanner.rs:215-276 | a new scanner has no results, and its first scans step by the alignment given, or by the width of the type, or by one byte |
| `Scanner.Scanner.FirstScan` | crates/nemclass-scan/src/scanner.rs:386-450 | each refusal, a cancellation or a failed read leaves the history alone, though past validation the two walk counters are already reset; success pushes the walk's rows, all on the step's lattice, and with a filter that was never set those of the plain scan of the target's own regions |
| `Scanner.AcceptsFirstIff` | crates/nemclass-scan/src/scanner.rs:392-404 | what a first scan takes: a baseline of a type with a width, or a compare that looks at one value with a needle of the type and of some width |
| `Scanner.AcceptsNextIff` | crates/nemclass-scan/src/scanner.rs:482-497 | what a next scan takes: anything but a baseline, after a first scan, and without a needle only the four compares with the value before |
| `Scanner.BaselineKeepsAll` | crates/nemclass-scan/src/scanner.rs:573-648 | a baseline matches every readable lattice address |
| `Scanner.Scanner.RunFirst` | crates/nemclass-scan/src/scanner.rs:406-449 | the walk and what it publishes |
| `Scanner.Scanner.NextScan` | crates/nemclass-scan/src/scanner.rs:476-565 | a next scan is exactly one step of the session; cancelled, refused or with every address unreadable it changes nothing |
| `Scanner.Refine` | crates/nemclass-scan/src/scanner.rs:506-547 | the re-read loop keeps exactly the surviving rows and counts the unreadable ones |
| `Scanner.SessionMeaning` | crates/nemclass-scan/src/scanner.rs:386-565 | session with a fixed-width stride: the rows are exactly the lattice addresses of the first snapshot that matched and passed every later compare on what was re-read, with the last two captured values |
| `Scanner.ReadIsSnapshot` | crates/nemclass-scan/src/scanner.rs:518-534 | a re-read gives the bytes of its snapshot or nothing |
| `ScanRun.RunMeaning` | crates/nemclass-scan/src/scanner.rs:386-565 | over snapshots M0..Mk the narrowed rows are exactly the addresses that matched in M0 and that every pass could read and kept, Mi against M(i-1); current is Mk and previous M(k-1) |
| `ScanRun.SnapshotRunMeaning` | crates/nemclass-scan/src/scanner.rs:386-565 | with targets that return whatever is mapped, over snapshots alone: matched in M0, readable in every Mi, and every compare of Mi against M(i-1) passed |
| `ScanRun.DeadIffUnreadable` | crates/nemclass-scan/src/scanner.rs:549-556 | over such a target a pass finds its target dead exactly when there are rows and none is readable in its snapshot |
| `ScanRun.RunPasses` | crates/nemclass-scan/src/scanner.rs:386-565 | a caller's run of a Scanner on a fixed-width type: a first scan that fails does so for a stated reason and changes no results; after an untruncated one with full reads the results are exactly those addresses over the passes that succeeded, with the bytes of the last two snapshots; no pass that succeeded was one to refuse, and one that fails was refused, cancelled, or found every row unreadable |
| `ScanRun.IntegerRunMeaning` | crates/nemclass-scan/src/value_type.rs:355-421 | the same run in integers: the value compared in M0, and in each later snapshot against the integer of the one before |
| `ScanRun.IntegerSnapshotMeaning` | crates/nemclass-scan/src/value_type.rs:355-421 | the same over snapshots alone, with targets that return whatever is mapped |
| `ScanRun.RunIntegers` | crates/nemclass-scan/src/scanner.rs:386-565 | a Scanner's run with integer needles holds exactly those addresses, as far as the run got, and stops early only for a stated reason |
| `ScanRun.NeedlelessIsZero` | crates/nemclass-scan/src/value_type.rs:88-118 | a change compare without a needle is the compare against needle 0 |
| `RegionFilter.MergedAllow` | crates/nemclass-scan/src/target.rs:130-146 | the merging loop gives the sorted, coalesced allowlist |
| `RegionFilter.AllowlistExact` | crates/nemclass-scan/src/target.rs:124-146 | the merged allowlist names the same addresses and is ascending and disjoint |
| `RegionFilter.Apply` | crates/nemclass-scan/src/target.rs:90-122 | the clipping loops compute the specified filter |
| `RegionFilter.FilteredIsIntersection` | crates/nemclass-scan/src/target.rs:90-122 | for every filter, filtering is set intersection into ascending, disjoint pieces, each inside one input region; pieces that were cut are not empty |
| `RegionFilter.DefaultKeepsAll` | crates/nemclass-scan/src/target.rs:64-93 | a filter that was never set returns the regions as they are |
| `RegionFilter.ZeroSpansAllowEverything` | crates/nemclass-scan/src/target.rs:108-132 | an allowlist of zero-size spans only acts as no allowlist |
| `RegionFilter.DocumentedIff` | crates/nemclass-scan/src/target.rs:52-132 | a filter with a window is the window and, if there is one, the allowlist, exactly when the allowlist is empty or has a span that is not zero-size |
| `Pattern.Parse` | crates/nemclass-scan/src/pattern.rs:90-124 | the character loop equals the recursive reading of the pattern text |
| `Pattern.ParseReadsWords` | crates/nemclass-scan/src/pattern.rs:90-124 | a text is accepted exactly when all its words are nibbles, and then reads each word two nibbles to a byte with a dangling one as a half wildcard |
| `Pattern.BlamesFirst` | crates/nemclass-scan/src/pattern.rs:99-113 | a rejection names the first character that is neither space nor nibble |
| `Pattern.ByteOf` | crates/nemclass-scan/src/pattern.rs:175-187 | the masked byte matches exactly the bytes that agree with its significant nibbles |
| `Pattern.ExactMatches` | crates/nemclass-scan/src/pattern.rs:148-156 | an exact pattern matches at an index exactly when the window equals its bytes |
| `ScriptPattern.ParsersAgree` | crates/nemclass-script/src/host_api.rs:97-107 | every pattern the script host accepts the scanner accepts too, with the same length and the same matches byte by byte |
| `ScriptPattern.CheckedAcceptsIff` | crates/nemclass-script/src/host_api.rs:77-107 | the script host accepts exactly the texts whose words are ? or two nibbles; the scanner exactly those whose words are nibbles |
| `ScriptPattern.PackedIsScannerOnly` | crates/nemclass-scan/src/pattern.rs:104-115 | packed bytes and a dangling nibble are accepted by the scanner alone |
| `ScriptPattern.TryFindPattern` | crates/nemclass-script/src/host_api.rs:123-141 | returns exactly the ascending offsets where the scanner's own pattern of the same text matches, or the parse error |
| `Signature.FormatSignature` | crates/nemclass-scan/src/signature.rs:75-84 | the printing loop produces the specified text |
| `Signature.TextParses` | crates/nemclass-scan/src/signature.rs:75-84 | printed bytes parse back to exactly those bytes, in both parsers |
| `Signature.Narrow` | crates/nemclass-scan/src/signature.rs:57-61 | one retain step leaves exactly the places where the longer run occurs, in order |
| `Signature.UniqueGrows` | crates/nemclass-scan/src/signature.rs:69-71 | a longer run at the same place stays unique |
| `Signature.MakeSignature` | crates/nemclass-scan/src/signature.rs:36-72 | succeeds exactly when some run of at most max_len bytes is unique; the text is the run of length min(available, max(shortest unique, min_len)), and its pattern matches at the offset only |
| `Breakpoints.StepKeepsInv` | linux/nemclass_mod/src/debugger.c:57-421 | every atomic step of set, clear, hit, wait and release keeps the slot, ownership, teardown, id and ring invariants |
| `Breakpoints.RunsKeepInv` | linux/nemclass_mod/src/debugger.c:57-421 | hence every interleaving does |
| `Breakpoints.ReclaimIsSafe` | linux/nemclass_mod/src/debugger.c:233-379 | a slot is reclaimed at most once, by whoever unlinked it, with no handler running or able to start, and its inode and mm references come out even |
| `Breakpoints.StepOnSlot` | linux/nemclass_mod/src/debugger.c:254-265 | a step either leaves a slot's reclaim count alone or is exactly its reclaim |
| `Breakpoints.HandlersTouchLiveMemory` | linux/nemclass_mod/src/debugger.c:57-74 | while a handler runs its slot is not freed, its session not closed, and its id assigned |
| `Breakpoints.CloseLeaksNothing` | linux/nemclass_mod/src/debugger.c:359-379 | when the session is closed every slot ever allocated has been reclaimed exactly once with balanced references |
| `Breakpoints.EventsInOrder` | linux/nemclass_mod/src/debugger.c:381-421 | what was dequeued is, in order, a prefix of what the 256-deep ring accepted, and the rest is the ring |
| `BreakpointsEvents.EmitTakesWithRoom` | linux/nemclass_mod/src/debugger.c:57-74 | a hit is taken with its slot's id while fewer than 256 events wait, and dropped without a trace otherwise |
| `BreakpointsEvents.AcceptedAreFitting` | linux/nemclass_mod/src/debugger.c:57-74 | the accepted events of a run are exactly its hits that found room, in order |
| `BreakpointsEvents.ARunThatFills` | linux/nemclass_mod/src/debugger.c:57-74 | a run that fills the ring to any level up to 256 |
| `BreakpointsEvents.ARunThatDrops` | linux/nemclass_mod/src/debugger.c:57-74 | at 256 the next hit is lost, and after one event is read there is room again |
| `BreakpointsEvents.AClearWaits` | linux/nemclass_mod/src/debugger.c:147-265 | a uprobe set, hit and cleared: the clear can neither sync nor free while the handler runs, then does both and returns inode and address space |
| `Breakpoints.IdsNameOneSlot` | linux/nemclass_mod/src/debugger.c:292-301 | an id names at most one slot, so a clear can unlink only the slot meant |
| `Breakpoints.ARunThatCloses` | linux/nemclass_mod/src/debugger.c:267-421 | a complete run exists: set, hit, event read, file closed, so the statements above are not empty |
| `BreakpointsEnd.WindingDoesWork` | linux/nemclass_mod/src/debugger.c:233-379 | each step that finishes something, whoever takes it, lowers the work left |
| `BreakpointsEnd.NeverStuck` | linux/nemclass_mod/src/debugger.c:233-379 | in no reachable state before the close is every such step blocked: no clear, sync or teardown waits for good |
| `BreakpointsEnd.WindingIsBounded` | linux/nemclass_mod/src/debugger.c:233-379 | from any point of any run, winding down takes at most the computed number of steps, in whatever order |
| `BreakpointsEnd.EveryRunCanClose` | linux/nemclass_mod/src/debugger.c:267-379 | every run can be continued, by steps that start nothing new, to a closed session |
| `BreakpointsEnd.WindingEndsClosed` | linux/nemclass_mod/src/debugger.c:359-379 | winding down that goes on as long as it can ends in a closed session |
| `ScriptBridge.StepKeepsInv` | crates/nemclass-script/src/engine_rusty.rs:404-847 | every step of worker, main thread and resolver threads keeps flag, channel, ticket and shutdown invariants |
| `ScriptBridge.RunsKeepInv` | crates/nemclass-script/src/engine_rusty.rs:404-847 | hence every run does |
| `ScriptWaits.ResolverNeverWaits` | crates/nemclass-script/src/engine_rusty.rs:632-648 | in every run the worker waits for the host only inside ordinary script code, with the flag clear |
| `ScriptWaits.RepliesReachTheirRequests` | crates/nemclass-script/src/engine_rusty.rs:404-443 | each host call gets the answer given to that very request, in order and once; at most one is open |
| `ScriptWaits.AnswersReachTheirTickets` | crates/nemclass-script/src/engine_rusty.rs:501-518 | a resolve returns what was computed for its own ticket, or None only once the worker has exited |
| `ScriptWaits.PendingStands` | crates/nemclass-script/src/engine_rusty.rs:404-408 | while the main thread waits, host calls pending ahead of its command stay pending |
| `ScriptWaits.NeverReturns` | crates/nemclass-script/src/engine_rusty.rs:476-478 | with one pending, no run ends the wait |
| `ScriptWaits.WaitEndsIff` | crates/nemclass-script/src/engine_rusty.rs:501-518 | a wait of the main thread can end exactly when no host call is pending ahead of the command it waits for |
| `ScriptWaits.WaitIsBounded` | crates/nemclass-script/src/engine_rusty.rs:780-847 | with none pending, any interleaving brings the answer within a computed number of worker steps, and one of them is always enabled |
| `ScriptWaits.MainResolveReturnsIff` | crates/nemclass-script/src/engine_rusty.rs:476-478 | a resolve made on the main thread returns exactly when no script in hand or queued has a host call left to make |
| `ScriptWaits.DropReturnsIff` | crates/nemclass-script/src/engine_rusty.rs:445-453 | the drop's join ends under exactly the same condition |
| `ScriptWaits.QueuedCallHangsMain` | crates/nemclass-script/src/engine_rusty.rs:807-829 | a concrete run: one queued event whose handler calls the host, then a main-thread resolve or a drop, hangs for ever |
| `ScriptWaits.CycleIsDeadlock` | crates/nemclass-script/src/engine_rusty.rs:404-518 | any cycle of waits is the worker and the main thread waiting for each other |
| `ScriptWaits.CycleReachableIff` | crates/nemclass-script/src/engine_rusty.rs:404-518 | during a wait of the main thread a cycle can come about exactly when a host call is pending ahead |
| `ScriptWaits.NoCycleOffMain` | crates/nemclass-script/src/engine_rusty.rs:481-518 | when resolves come from other threads only and the engine is not dropped, no reachable state has a cycle of waits |
| `ScriptWaits.OtherReturns` | crates/nemclass-script/src/engine_rusty.rs:481-518 | while the main thread is free to pump, every resolve of another thread has a run that brings its answer |
| `ScriptWaits.OtherIsBounded` | crates/nemclass-script/src/engine_rusty.rs:481-518 | in every run that keeps the main thread free, another thread's answer is there after a computed number of worker steps, and until then a worker step or the pump brings it closer |
| `Layout.ResolvedNodeSize` | crates/nemclass-model/src/codegen/mod.rs:111-143 | terminates on every class graph, computes the cycle-guarded size, and hands the visited set back unchanged |
| `Layout.ResolvedClassSize` | crates/nemclass-model/src/codegen/mod.rs:99-107 | the same for a class: the saturating total over its nodes |
| `Layout.ResolveFields` | crates/nemclass-model/src/codegen/mod.rs:200-364 | each field starts at the saturating sum of those before it, the last ends at the class size, and every emitted width is the size its node contributed |
| `Layout.MoreVisited` | crates/nemclass-model/src/codegen/mod.rs:109-143 | marking more classes as visited never enlarges a size |
| `Layout.SizeIsTotal` | crates/nemclass-model/src/codegen/mod.rs:99-107 | a class is as large as its nodes together, up to the largest machine word |
| `Layout.NodeSizes` | crates/nemclass-model/src/node/builtins.rs:144-339 | an address takes eight bytes, a text its length, an array its elements together up to the largest machine word, a nested class its children together, an embedded one nothing of its own |
| `Layout.LeafSizes` | crates/nemclass-model/src/node/vector.rs:216-320 | a leaf is as many bytes as its elements have bits, over eight: two, three or four per vector, rows times columns per matrix, with the width in the name or of its floats |
| `SelfEmbedding.MarkIsIdle` | crates/nemclass-model/src/codegen/mod.rs:109-143 | marking a class that is embedded nowhere below changes no size |
| `SelfEmbedding.SizesAgree` | crates/nemclass-model/src/project.rs:52-57 | project-level and generator size agree for every class not embedded, however deeply, in itself |
| `Layout.GeneratorIsLarger` | crates/nemclass-model/src/project.rs:52-57 | for every class the generator's size is at least the project's |
| `SelfEmbedding.PositiveIff` | crates/nemclass-model/src/codegen/mod.rs:99-143 | a size is positive exactly when the nodes hold bytes or an embedding path the walk can take leads to some |
| `SelfEmbedding.MarkIff` | crates/nemclass-model/src/codegen/mod.rs:109-143 | marking a class changes a size exactly when some occurrence of it, not yet being expanded, adds bytes and the size is not saturated without them |
| `SelfEmbedding.AddsIff` | crates/nemclass-model/src/codegen/mod.rs:109-143 | an occurrence adds bytes exactly when an embedding path the walk can take leads through the class and on to bytes |
| `SelfEmbedding.SizesAgreeIff` | crates/nemclass-model/src/project.rs:52-57 | for every class of every graph: project and generator size agree exactly when no embedding path leads from its nodes through the class itself and on to bytes without repeating a class, or the project size is saturated |
| `SelfEmbedding.OwnBytesAgreeIff` | crates/nemclass-model/src/project.rs:52-57 | for a class with bytes of its own they agree exactly when it is not embedded, however deeply, in itself, or is saturated |
| `SelfEmbedding.DirectEmbedAgreesIff` | crates/nemclass-model/src/project.rs:52-57 | for a class that directly embeds itself the two agree exactly when it is empty or saturated |
| `SelfEmbedding.SelfEmbedCountsTwice` | crates/nemclass-model/src/project.rs:52-57 | a concrete class measured as 4 bytes by the project and 8 by a generator |
| `Project.ProjectModel.AddClass` | crates/nemclass-model/src/project.rs:28-34 | a new class goes last in the order, a known one is replaced in place; each id stays listed once |
| `Project.ProjectModel.ClassesInOrder` | crates/nemclass-model/src/project.rs:44-46 | every class of the map once, in order |
| `Project.ReferencesIffMentioned` | crates/nemclass-model/src/class.rs:52-84 | the recursive search finds a class exactly when some index path through children leads to a pointer to it or an instance of it |
| `Project.WithoutConcat` | crates/nemclass-model/src/project.rs:73 | the other classes keep their places in the order |
| `Project.ProjectModel.RemoveClass` | crates/nemclass-model/src/project.rs:60-75 | a missing class is ClassNotFound; removal succeeds exactly when no path in another class leads to a mention of it, reports the number of classes with one otherwise, and never leaves a mention of a missing class behind |
| `NodeTree.SerializeNodeRecursive` | crates/nemclass-model/src/node/registry.rs:66-72 | the pushing loop equals the recursive serialization |
| `NodeTree.CheckNodeDepth` | crates/nemclass-model/src/node/registry.rs:19-30 | the explicit-stack walk accepts exactly the trees of recursive height at most 128 |
| `NodeTree.DeserializeNode` | crates/nemclass-model/src/node/registry.rs:77-89 | the depth check, then the per-tag rebuilding with every default and error case |
| `NodeDefs.RebuildFailsIff` | crates/nemclass-model/src/node/registry.rs:77-89 | rebuilding fails exactly when it reaches, below vtables and classes, a definition with an unregistered tag or a class with an unreadable identity, and then with such a definition's error |
| `NodeDefs.MissingAttributes` | crates/nemclass-model/src/node/registry.rs:127-340 | what each attribute stands for when it is missing: no target, the nil class, 0 elements of size 1, length 64, void Func(), a new identity, an empty formula |
| `NodeDefs.TooDeepIff` | crates/nemclass-model/src/node/registry.rs:19-30 | a definition is too deep exactly when some index path through it has 128 steps or more |
| `NodeTree.SerializedHeight` | crates/nemclass-model/src/node/registry.rs:66-72 | serialization keeps the height |
| `NodeTree.ComesBack` | crates/nemclass-model/src/node/registry.rs:98-340 | rebuilding from the serialized form of any built-in tree gives the same tree |
| `NodeTree.RoundTrip` | crates/nemclass-model/src/node/registry.rs:66-89 | serialize then deserialize: the same tree up to height 128, a depth error above |

## Left out

- Overflow of address arithmetic near 2^64 (rounding up to a multiple, window ends): addresses are natural numbers there; checked, saturating and wrapping operations that the source spells out are modelled as such.
- A target whose region listing itself fails; the region list is part of the target value.
- Floating-point, string and byte-pattern needles of the value scanner: a needle is an arbitrary test on its bytes, and only integer needles are given a meaning.
- Progress totals, statistics wording and error message texts; which error is raised is modelled.
- `FilterState`, `SectionFilter` and the process-backed targets: one-step selections and system calls.
- `make_masked_signature` and the instruction decoder.
- RunIsExplained: does not model `set_value_type` or changes of filter and alignment between passes.
- Breakpoints: wrap-around of the 32-bit slot counter; `bp_set`'s own read of `slot->id` after publication; task references; contents of an event beyond its slot; the time-outs and interrupted waits of `wait_event`.
- ScriptBridge: scripts that never end, host functions that themselves resolve on the main thread, a panicking worker, module loading and the v8 runtime; a script is the number of replying host calls it goes on to make.
- NodeTree: TOML text, and the text form of UUIDs, which enters as a printer and a parser that invert each other.
- ResolveFields: field names, comments, primitive kinds and the text of the C++, C# and Rust generators; only offsets and widths.
- The user interface, dissection, cheat tables, script API catalogue, event bus, freeze list, and the kernel module's memory access.
