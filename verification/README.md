# Verified models of LLVM algorithms

Dafny models of eight algorithms of this LLVM release, with proofs about all their inputs and all their runs. Check
everything with `dafny verify dfyconfig.toml`.

- **The BrainF compiler** (`BrainF*.dfy`). A class reads the text with one symbol of lookahead and writes basic blocks;
  phis are begun when a loop opens and completed when it closes. `BrainFSource` has the reference interpreter, which
  takes one character at a time, `BrainFIR` the machine that runs the blocks. A ghost map ties text positions to points
  of the code; each tie says what code must stand there, and both machines go from tie to tie in step. `BrainFWellFormed`
  carries SSA form through every edit of the blocks.
- **Lazy value information** (`Lvi*.dfy`, `LazyValueInfo.dfy`, `ConstantRange.dfy`, `RangePrecision.dfy`). `LviProgram`
  defines programs of integer values and their executions; `LviFacts` says when a cached lattice value is true,
  `LviThreading` when it stays true over a change of the program. `LviVisits` has one visit of the solver as a function of
  the cache, and `LviPrecision` and `LviAnswers` say how little is given away on the way to an answer. The class has the
  cache, the record of overdefined pairs and the explicit work stack. All range operations are modelled in full, at every
  width, with what each must contain and (`RangePrecision.dfy`) what it may contain.
- **Dominance frontiers** (`Dominance.dfy`, `DominanceFrontier.dfy`). The walk with an explicit stack, against the
  definition by paths.
- **Alias sets** (`AliasSet*.dfy`). What the tracker does to its sets as functions, the proof about all histories, and
  the class that merges sets by forwarding, proved equal to the functions.
- **Address arithmetic** (`Words.dfy`, `Gep*.dfy`). Pointers as chains of casts and geps over 64-bit words, taken apart
  and compared.
- **Constant folding** (`BitCast*.dfy`, `Constant*.dfy`, `FoldedGep.dfy`). Vector casts, raw bytes of initializers and
  folded address arithmetic, in both byte orders.
- **The barrier** (`Barrier*.dfy`). A mutex and a condition variable as the steps of any number of threads.
- **Branch probabilities** (`Branch*.dfy`). The heuristics as functions, the table they fill, and the bound on its sums.

Seven of the results are negative, and each comes with the exact condition:

- In checked mode the compiled program stays on the tape exactly if the tape has a cell, or the text has no command or
  moves first; the first move then finds that there is no tape (`TapeDecides`). In all other respects it behaves like
  the text without a tape too.
- The sets of the alias set tracker are disjoint, whatever the analysis and the history, exactly if no three different
  metadata tags are in use (`ThirdTagDecides`). A conflict between two tags clears the tag on record for the first
  member of a must-alias set. A third tag, compatible with neither, may be that of another set at the same address; a
  merge then finds the first members of both to be must aliases, and goes on asking one alone that may be shorter than
  a member of the other.
- A join of facts is a smallest range that holds them only up to two facts (`TwoDecides`); for any number it stays within
  ranges of at most half of all values, and no more than half (`HalfDecides`). Unions are taken one by one, and each
  bridges the smaller gap.
- Sign extension of a range gives away no more than it must, except for a range that ends just below the sign bit
  (`SignExtendTight`): its end, which is not a member, is extended as a negative number.
- Casting between vectors keeps the bits exactly if one element count divides the other (`CastKeepsBits`).
- The barrier works exactly if it is released with the number of blocking threads (`RightTarget`).
- Branches on floating-point comparisons favour the edge taken by operands that differ, except on ordered equality
  (`DifferentNumbersLikely`).

Where the code and its comments disagree the model follows the code. A work item of the lazy solver that is postponed
always ends overdefined: on the second visit its entry, set to overdefined on the first, is taken as it is
(lib/Analysis/LazyValueInfo.cpp:503-516, against the comment at 369-371). Ordered equality of floating-point numbers is
predicted likely, because only the unordered comparison counts as true for equal operands
(lib/Analysis/BranchProbabilityInfo.cpp:426-429 and lib/IR/Instructions.cpp:3121-3127).

What the original takes from elsewhere is a parameter: the alias oracle, the analysis of known zero bits, the dominator
tree (assumed right), type layouts, input and output, and where the tape is allocated. Of the alias oracle it is asked
that it is symmetric, that must aliases are apart from the same accesses, that an access apart from another stays so when
it gets shorter or gets a tag it had none of, that an empty access aliases nothing, and that any other aliases itself
(lib/Analysis/BasicAliasAnalysis.cpp:1181-1191).

The program behind a cache of lazy value information may change at any time. `ProgramChanged` says when the cache is
valid for the new one. Facts are about the executions from a given set of calls: with all calls they are about all
executions, and with none the same theorems say that the records stay consistent over any change whatever.

## Model

| member | source | states |
|---|---|---|
| BrainFCompiler.BrainF.Parse | examples/BrainF/BrainF.cpp:40-50 | Compiling succeeds exactly on texts with balanced brackets. The function is then in SSA form and, for every tape position, earlier memory and input stream, behaves like the text: same reads, writes and message in the same order, same final tape and head, same termination. In checked mode every access is to allocated memory exactly if the tape has a cell or no command comes before the first move |
| BrainFTheorem.OutputCorrect | examples/BrainF/BrainF.cpp:184-467 | Whatever the compiler writes implements the text, with a tape or without: for every surrounding, each stop of either side is matched by a stop of the other with the same events, tape and head, and the events of endless runs keep up with each other |
| BrainFTheorem.TapeDecides | examples/BrainF/BrainF.cpp:106-115 | In checked mode, in every surrounding, all that is loaded, stored and cleared is memory that malloc was asked for and that has not been freed, if and only if the tape has a cell, or the text has no command or begins with a move: only moves are checked, and the header leaves the head where it is |
| BrainFTheorem.LeavesTape | examples/BrainF/BrainF.cpp:244-265 | Without a tape, a text whose first command is not a move loads or stores outside the allocated memory, whatever the surrounding |
| BrainFCompiler.BrainF.ReadLoop | examples/BrainF/BrainF.cpp:184-467 | One activation of the recursive reader: inside a loop it ends just after the matching bracket with the loop closed and only its test block still touched; outside it ends with the text. False means a missing bracket inside a loop, or a text that is not balanced outside |
| BrainFCompiler.BrainF.Lex | examples/BrainF/BrainF.cpp:311-415 | The next symbol, with runs of `+` and `-` or of `<` and `>` merged to their net value; one symbol may have been read ahead, and then it is the next command of the text. After any other symbol nothing has been read ahead |
| BrainFCompiler.BrainF.Extract | examples/BrainF/BrainF.cpp:320-328 | Reading one character skips white space, which is never a command, and reports the end only when no command is left |
| BrainFCompiler.BrainF.WriteLoop | examples/BrainF/BrainF.cpp:283-303 | A loop that is opened is written by the recursive call up to its closing bracket, with all earlier code and its ties to text positions kept |
| BrainFCompiler.BrainF.WriteCommand | examples/BrainF/BrainF.cpp:201-281 | The code of one command ties the position after its run to the point after its code, and keeps every earlier tie and the SSA invariant |
| BrainFCompiler.BrainF.WriteSymbol | examples/BrainF/BrainF.cpp:194-309 | The switch on the current symbol: on success the text up to a later position is code, and the symbol read ahead, if any, is the one at that position; failure means a loop that the text does not close |
| BrainFCompiler.BrainF.WriteMove | examples/BrainF/BrainF.cpp:237-267 | A move steps the head by its net value; in checked mode the tape test splits the block |
| BrainFCompiler.BrainF.WriteLoopTest | examples/BrainF/BrainF.cpp:423-455 | Closing a loop completes the half-finished phi with the head at the end of the body, writes the test and starts the block after the loop |
| BrainFCompiler.BrainF.Header | examples/BrainF/BrainF.cpp:78-181 | Entry, end and error block |
| BrainFTrack.TrackLoop | examples/BrainF/BrainF.cpp:283-301 | Opening a loop keeps the invariant of the reader, with a half-finished phi that is allowed to lack one entry |
| BrainFTrack.FinishLoop | examples/BrainF/BrainF.cpp:423-455 | Closing a loop ties its opening bracket, its closing bracket and the position after it to the test block, the back edge and the block after the loop |
| BrainFWellFormed.FinishedIsSSA | examples/BrainF/BrainF.cpp:283-301 | A function built with complete invariants has one terminator per block, phis with exactly one entry for each predecessor, one definition per register, and on every path from the entry a definition before each use |
| BrainFWellFormed.BackEdgeWF | examples/BrainF/BrainF.cpp:423-444 | Completing the phi of a loop with the register that holds the head at the back edge keeps the invariant of SSA form, whatever blocks the bounds checks have split off inside |
| BrainFCorrectness.Advance | examples/BrainF/BrainF.cpp:194-309 | From states in step, interpreter and code take some steps each and are in step again, or both stop in the same way |
| BrainFCorrectness.CodeStopsToo | examples/BrainF/BrainF.cpp:460-461 | If the text stops, the code stops, with the same events, tape and head |
| BrainFCorrectness.InterpreterStopsToo | examples/BrainF/BrainF.cpp:460-461 | If the code stops, the text stops, with the same events, tape and head |
| BrainFCorrectness.NeverStuck | examples/BrainF/BrainF.cpp:283-301 | The code never uses an undefined register or a phi without an entry for the block it came from |
| BrainFSource.RunChanges | examples/BrainF/BrainF.cpp:335-350 | A run of `+` and `-`, executed one at a time modulo 256, has the effect of its net value |
| BrainFSource.RunMoves | examples/BrainF/BrainF.cpp:356-371 | A run of `<` and `>`, executed one at a time with one check after the last, has the effect of one move by its net value |
| BrainFSource.BracketsMatch | examples/BrainF/BrainF.cpp:417-421 | The closing bracket found for an opening one and the opening bracket found for a closing one are inverse to each other |
| DominanceFrontier.DominanceFrontier.Calculate | lib/Analysis/DominanceFrontier.cpp:40-111 | The walk ends, and for every reachable block below the start its set is its dominance frontier as defined by paths: the blocks with a predecessor it dominates that it does not strictly dominate |
| DominanceFrontier.DominanceFrontier.InsertLocal | lib/Analysis/DominanceFrontier.cpp:62-73 | Adds the successors that the block does not immediately dominate |
| DominanceFrontier.DominanceFrontier.PushChildren | lib/Analysis/DominanceFrontier.cpp:75-88 | Pushes exactly the children that have not been visited, and says whether there are any |
| DominanceFrontier.DominanceFrontier.MergeUp | lib/Analysis/DominanceFrontier.cpp:99-105 | Adds to the parent's set what its block does not properly dominate |
| DominanceFrontier.TopComplete | lib/Analysis/DominanceFrontier.cpp:90-106 | When a block is about to be merged upward, all its children are finished and its set is its complete frontier |
| DominanceFrontier.LocalInFrontier | lib/Analysis/DominanceFrontier.cpp:66-72 | A successor that a block does not immediately dominate is in its frontier |
| DominanceFrontier.UpInFrontier | lib/Analysis/DominanceFrontier.cpp:99-104 | A frontier block of a child that the parent does not properly dominate is in the parent's frontier |
| DominanceFrontier.FrontierFromBelow | lib/Analysis/DominanceFrontier.cpp:66-104 | Conversely every frontier block comes from a successor or from the frontier of a child |
| Dominance.TreeDominatesIsDominance | lib/Analysis/DominanceFrontier.cpp:102 | Going up the tree reaches a block exactly when it dominates by paths |
| LazyValueInfo.LazyValueInfoCache.Solve | lib/Analysis/LazyValueInfo.cpp:457-465 | The work stack empties: each turn settles an open entry or shortens the stack. Every cached fact is true on all executions before and after, settled entries never change, each item that was on the stack has its entry, and the cache, the record and the stack are what a number of turns makes of them |
| LazyValueInfo.LazyValueInfoCache.SolveBlockValue | lib/Analysis/LazyValueInfo.cpp:488-555 | One work item: a reported success has pushed nothing, so that the item popped is the one solved; otherwise exactly the missing facts were pushed and the entry stays overdefined. A pair is recorded as overdefined exactly when this visit has settled it so |
| LazyValueInfo.LazyValueInfoCache.SolveBlockValueNonLocal | lib/Analysis/LazyValueInfo.cpp:584-658 | The entry becomes the join of the facts on the edges from the predecessors, which is true at the end of the block; or, if some are missing, all that are missing are pushed, in order |
| LazyValueInfo.LazyValueInfoCache.SolveBlockValuePHINode | lib/Analysis/LazyValueInfo.cpp:660-694 | The same for the entries of a phi |
| LazyValueInfo.LazyValueInfoCache.SolveBlockValueConstantRange | lib/Analysis/LazyValueInfo.cpp:696-775 | The entry becomes the range of an operator or cast, computed from the range of its left operand, and is true at the end of the block; or the left operand is pushed |
| LazyValueInfo.LazyValueInfoCache.GetEdgeValue | lib/Analysis/LazyValueInfo.cpp:870-910 | What the terminator says narrowed by what is known of the block, true on the edge; or the one missing fact pushed as work. With the fact about the source block in the cache it always succeeds |
| LazyValueInfo.LazyValueInfoCache.GetValueInBlock | lib/Analysis/LazyValueInfo.cpp:912-922 | The answer is true at the end of the block on every execution, and it is the settled entry, or what the first visit finds, or overdefined if that visit had to ask for work, however long the solving takes |
| LazyValueInfo.LazyValueInfoCache.GetValueOnEdge | lib/Analysis/LazyValueInfo.cpp:926-935 | The answer is true on the edge on every execution, and the query repeated after solving always succeeds |
| LazyValueInfo.LazyValueInfoCache.GetPredicateOnEdge | lib/Analysis/LazyValueInfo.cpp:1069-1109 | A comparison answered true holds, and one answered false does not, on every execution that takes the edge; the answer is true exactly if all values that the fact allows satisfy the comparison, and false exactly if none does |
| LviVisits.AnswerStands | lib/Analysis/LazyValueInfo.cpp:457-465 | However many turns empty the stack, the answer to the one item on it is what its first turn makes it |
| LviVisits.PredicateComplete | lib/Analysis/LazyValueInfo.cpp:1081-1109 | A range answers a comparison with true exactly if all its members satisfy it, and with false exactly if none does |
| LviPrecision.MergeAllWithin | lib/Analysis/LazyValueInfo.cpp:624-635 | A join of any number of facts stays within every range of at most half of all values that holds them |
| LviPrecision.HalfDecides | lib/Analysis/LazyValueInfo.cpp:191-269 | Half is the exact limit: for no larger size does that hold for all ranges and facts |
| LviPrecision.TwoDecides | lib/Analysis/LazyValueInfo.cpp:191-269 | No range that holds all the facts is smaller than their join, whatever they are, exactly up to two facts; for more there is a counterexample that joins three facts to nothing known although a range of 10 out of 16 values holds them |
| LviAnswers.BranchExact | lib/Analysis/LazyValueInfo.cpp:779-835 | What a branch says about a value on an edge allows exactly the values with which control takes the edge |
| LviAnswers.SwitchWithin | lib/Analysis/LazyValueInfo.cpp:839-862 | What a switch says about an edge that is not its default stays within every range of at most half of all values that holds the cases |
| LviAnswers.DefaultLeavesOut | lib/Analysis/LazyValueInfo.cpp:839-862 | The default edge leaves out the value of some case that leads elsewhere |
| LviAnswers.EdgeFactWithin | lib/Analysis/LazyValueInfo.cpp:884-903 | A fact on an edge stays within what holds both the constraint of the branch and the fact about the block, unless they have nothing in common |
| LviAnswers.EdgeFactExact | lib/Analysis/LazyValueInfo.cpp:898-901 | If they have a range in common, the fact is exactly that |
| LviAnswers.BinTight | lib/Analysis/LazyValueInfo.cpp:722-766 | A binary operator yields nothing without reason: sums and differences are exact, products, quotients and shifts lie between two results, bit operations are bounded by an operand, with exact conditions for shifts |
| LviAnswers.CastTight | lib/Analysis/LazyValueInfo.cpp:722-766 | The same for casts: truncation is exact, extensions lie between two members, but for one kind of range in sign extension |
| LviAnswers.AnswerWithin | lib/Analysis/LazyValueInfo.cpp:624-677 | The answer to a new question about a join lies within every range of at most half of all values that holds what is known on all its edges |
| LviAnswers.FixedByEdges | lib/Analysis/LazyValueInfo.cpp:624-658 | If every edge into a block fixes the value, the answer is that value, and every comparison with a constant on the way out is decided |
| LazyValueInfo.LazyValueInfoCache.ThreadEdge | lib/Analysis/LazyValueInfo.cpp:941-999 | The walk without a visited set ends, and drops exactly the entries, overdefined at the old successor, of the blocks reached from there through blocks with such entries, short of the new successor |
| LazyValueInfo.LazyValueInfoCache.ProgramChanged | lib/Analysis/LazyValueInfo.cpp:345-360 | After a change of the program the cache is valid for the new one if the facts carry over, so that all solves, deletions, erasures and edge threadings after it keep what they keep before it |
| LviThreading.CarriedTrue | lib/Analysis/LazyValueInfo.cpp:345-360 | A fact stays true if the value it is still about, on an execution of the new program, is one it had at that place on an execution of the old one |
| LviThreading.UncalledTrue | lib/Analysis/LazyValueInfo.cpp:345-360 | With no execution considered, a valid cache is one with entries of the right width: with `UncalledCarried`, the records stay consistent over any change whatever |
| LviThreading.ThreadingCarries | lib/Transforms/Scalar/JumpThreading.cpp:1330-1411 | After the edges from a block have been led past its successor, whose branch was known, and the phis at the new target take from it what they took from the block passed over, every cached fact is still true; what threadEdge drops it drops for a better answer only |
| LviThreading.Simulated | lib/Transforms/Scalar/JumpThreading.cpp:1330-1411 | Every execution of the new program has one of the old that ends in the same block with the same values of all that is defined there |
| LviThreading.AnswerMakesKnown | lib/Analysis/LazyValueInfo.cpp:1069-1109 | A definite answer to a query on an edge makes the branch of a block that does that comparison known for everything that comes over the edge |
| LazyValueInfo.LazyValueInfoCache.EraseBlock | lib/Analysis/LazyValueInfo.cpp:434-455 | Nothing about the block is left, even when the shortcut for unseen blocks is taken |
| LazyValueInfo.LazyValueInfoCache.Deleted | lib/Analysis/LazyValueInfo.cpp:413-432 | Nothing about the value is left |
| LazyValueInfo.WalkEnds | lib/Analysis/LazyValueInfo.cpp:967-998 | With the work list empty, every block on a marked path is clean and nothing else has been dropped |
| LazyValueInfo.UnsettledLess | lib/Analysis/LazyValueInfo.cpp:457-465 | Settling an open entry strictly shrinks the set of those that are open: the first component of the measure |
| LviFacts.NonLocalStep | lib/Analysis/LazyValueInfo.cpp:624-635 | Joining in one more predecessor keeps the join true on all runs that come from those seen so far |
| LviFacts.PhiStep | lib/Analysis/LazyValueInfo.cpp:666-677 | The same for one more entry of a phi |
| LviFacts.TransferTrue | lib/Analysis/LazyValueInfo.cpp:722-772 | The table of operators and casts gives a range that holds the result on every execution |
| LviFacts.IntersectOnEdge | lib/Analysis/LazyValueInfo.cpp:884-903 | The constraint of the branch and the fact about the block, intersected, are true on the edge |
| LviLattice.EdgeFactTrue | lib/Analysis/LazyValueInfo.cpp:779-866 | What a branch on a comparison, with or without an added constant, or a switch says about a value is true whenever control takes that edge |
| LviLattice.PredicateRight | lib/Analysis/LazyValueInfo.cpp:1081-1109 | What a range says about a comparison is right for every value in it |
| LviLattice.MergeCovers | lib/Analysis/LazyValueInfo.cpp:191-269 | A join allows what either side allows |
| LviProgram.EquationsHold | lib/Analysis/LazyValueInfo.cpp:779-865 | On every execution, the equation of a definition holds at the end of every block it dominates; facts about conditions rest on this |
| ConstantRange.RegionExact | lib/Support/ConstantRange.cpp:51-114 | The region of a comparison with one constant holds exactly the values that satisfy it |
| ConstantRange.ConstantRangeExact | lib/IR/Instructions.cpp:2997-3055 | The range made for a comparison holds exactly the values that satisfy it |
| ConstantRange.InverseExact | lib/Support/ConstantRange.cpp:708-714 | The inverse holds exactly the values that the range does not |
| ConstantRange.SubtractExact | lib/Support/ConstantRange.cpp:244-251 | Shifting the bounds down shifts the members |
| ConstantRange.IntersectCovers | lib/Support/ConstantRange.cpp:263-336 | The intersection holds every common value, for wrapped and flat ranges |
| ConstantRange.UnionCovers | lib/Support/ConstantRange.cpp:344-420 | The union holds every value of either range |
| ConstantRange.AddCovers | lib/Support/ConstantRange.cpp:535-554 | Every sum of members, as a machine integer, is a member |
| ConstantRange.SubCovers | lib/Support/ConstantRange.cpp:556-575 | Every difference of members is a member |
| ConstantRange.MultiplyCovers | lib/Support/ConstantRange.cpp:577-595 | Every product of members, as a machine integer, is a member |
| ConstantRange.UDivCovers | lib/Support/ConstantRange.cpp:623-650 | Every quotient by a member other than zero is a member |
| ConstantRange.ShlCovers | lib/Support/ConstantRange.cpp:678-693 | Every left shift of a member is a member |
| ConstantRange.LShrCovers | lib/Support/ConstantRange.cpp:695-706 | Every right shift of a member is a member |
| ConstantRange.TruncateCovers | lib/Support/ConstantRange.cpp:462-513 | Every member, cut to fewer bits, is a member, for wrapped ranges as well |
| ConstantRange.SignExtendCovers | lib/Support/ConstantRange.cpp:445-457 | Every member, sign-extended, is a member |
| RangePrecision.ContainsRangeExact | lib/Support/ConstantRange.cpp:222-242 | The test whether one range lies within another is exact |
| RangePrecision.UnionSmallest | lib/Support/ConstantRange.cpp:344-420 | No range that holds both operands is smaller than their union |
| RangePrecision.UnionWithin | lib/Support/ConstantRange.cpp:344-420 | What lies within a range of at most half of all values still does after a union |
| RangePrecision.IntersectWithin | lib/Support/ConstantRange.cpp:263-336 | An intersection lies within one of its operands |
| RangePrecision.IntersectExact | lib/Support/ConstantRange.cpp:263-336 | If the common values form a range, the intersection is that range |
| RangePrecision.AddReached | lib/Support/ConstantRange.cpp:535-554 | Every member of a sum is the sum of two members |
| RangePrecision.SubReached | lib/Support/ConstantRange.cpp:556-575 | Every member of a difference is the difference of two members |
| RangePrecision.TruncateReached | lib/Support/ConstantRange.cpp:462-513 | Every member of a truncation is what some member is cut to |
| RangePrecision.ZeroExtendBetween | lib/Support/ConstantRange.cpp:425-441 | A zero-extended range reaches from one member to another |
| RangePrecision.SignExtendTight | lib/Support/ConstantRange.cpp:445-457 | A sign-extended range reaches from one member to another exactly unless the range ends just below the sign bit, whose end is taken to be a negative number |
| RangePrecision.MultiplyReached | lib/Support/ConstantRange.cpp:577-595 | Every member of a product is what is left of a number between two products of members |
| RangePrecision.UDivBetween | lib/Support/ConstantRange.cpp:623-650 | Every member of a quotient lies between two quotients of members, unless nothing is known of the divisor |
| RangePrecision.ShlBetween | lib/Support/ConstantRange.cpp:678-693 | The same for left shifts that leave the highest bit clear |
| RangePrecision.LShrBetween | lib/Support/ConstantRange.cpp:695-706 | The same for right shifts |
| AliasSetsTags.ThirdTagDecides | lib/Analysis/AliasSetTracker.cpp:31-80 | Over all lawful oracles and all histories of additions and copies, pointers of different sets never alias if and only if there are no three different metadata tags among those in use, not counting no tag |
| AliasSetsTags.ThreeTagsFail | lib/Analysis/AliasSetTracker.cpp:95-124 | The counterexample for any three tags: an oracle that compares addresses and a tree of types, and five pointers after which a merged must-alias set is asked through a first member that is shorter than another |
| AliasSetsProof.HistoryInv | lib/Analysis/AliasSetTracker.cpp:267-290 | With no three tags in use, after every history the pointers are partitioned into sets that do not alias, each record covers its pointer and is vouched for by members at the same address, and the first member of a must-alias set answers for all |
| AliasSetsProof.MergedIsMay | lib/Analysis/AliasSetTracker.cpp:40-57 | With no three tags in use a merged set is never a must-alias set |
| AliasSetsProof.RecordsApart | lib/Analysis/AliasSetTracker.cpp:40-57 | Members of different sets at one address do not alias at the sizes and tags on record, unless three tags are in use |
| AliasSetsProof.CopyInv | lib/Analysis/AliasSetTracker.cpp:525-544 | A copy put unasked into the set of its original aliases no other set, and the first member answers for it |
| AliasSetsProof.PassedOver | lib/Analysis/AliasSetTracker.cpp:143-177 | A set that does not alias a location has no member that does, though only the first may have been asked |
| AliasSetTracker.Tracker.LiveSetsDisjoint | lib/Analysis/AliasSetTracker.cpp:218-233 | With no three tags in use, two pointers in the lists of different sets that are alive do not alias, and each record leads to the one set that lists its pointer |
| AliasSetTracker.Tracker.MembersChained | lib/Analysis/AliasSetTracker.cpp:218-233 | Pointers in the list of one set are linked by a chain of aliases and copies |
| AliasSetsLinks.SharedIsChained | lib/Analysis/AliasSetTracker.cpp:267-290 | After every history, under any symmetric oracle, two pointers share a set only if a chain links them of which each pointer overlapped the next at its record, or is a copy of it, when the later of the two was new |
| AliasSetsLinks.HitExactly | lib/Analysis/AliasSetTracker.cpp:143-177 | A set is hit exactly if a member that must be asked, the first of a must-alias set or any of another, is not apart from the location |
| AliasSetsLinks.NewExactly | lib/Analysis/AliasSetTracker.cpp:218-233 | A new set is made exactly if there is no such member in any set |
| AliasSetsLinks.MustStays | lib/Analysis/AliasSetTracker.cpp:95-124 | If the oracle can always tell whether two accesses are the same address, and one tag is in use, every set is a must-alias set |
| AliasSetTracker.Tracker.FindAliasSetForPointer | lib/Analysis/AliasSetTracker.cpp:218-233 | The first set that aliases a location, with all others that do merged into it |
| AliasSetTracker.Tracker.GetAliasSetForPointer | lib/Analysis/AliasSetTracker.cpp:267-290 | The pointer is in the list of the set returned; a new set is reported exactly when the pointer is new and no member that must be asked aliases it |
| AliasSetTracker.Tracker.AddPointer | lib/Analysis/AliasSetTracker.cpp:95-124 | The new pointer is in the list, a must-alias set is downgraded unless the oracle says must, and the assertion that a must-alias set is not joined by a pointer that aliases nothing holds |
| AliasSetTracker.Tracker.MergeSetIn | lib/Analysis/AliasSetTracker.cpp:31-80 | One set takes over the other's list, which forwards to it from then on |
| AliasSetTracker.Tracker.AliasesPointer | lib/Analysis/AliasSetTracker.cpp:143-162 | Whether the set aliases the location, by its first member or by all |
| AliasSetTracker.Tracker.CopyValue | lib/Analysis/AliasSetTracker.cpp:525-544 | A copy of a known pointer joins the same set unasked |
| AliasSetTracker.Tracker.GetForwardedTarget | include/llvm/Analysis/AliasSetTracker.h:237-247 | Following and shortening the chain gives the set it leads to and changes what no chain leads to |
| AliasSetTracker.FoundHit | lib/Analysis/AliasSetTracker.cpp:218-233 | The set found still aliases the location after all merges |
| GepExpressions.LinearRight | lib/Analysis/BasicAliasAnalysis.cpp:192-258 | In every execution the value is scale times variable plus offset, modulo 2^64 |
| GepExpressions.LinearStops | lib/Analysis/BasicAliasAnalysis.cpp:192-258 | The variable that is left cannot be taken apart any further, unless six operators have been taken off |
| GepDecomposition.DecomposeGEPExpression | lib/Analysis/BasicAliasAnalysis.cpp:274-405 | In every execution the pointer is the object found plus the constant offset plus the scaled variables, modulo 2^64; each variable is listed once with a scale that is not zero; and the parts are those that following the chain index by index gives |
| GepDecomposition.ConstantParts | lib/Analysis/BasicAliasAnalysis.cpp:330-360 | Constant indices leave no variable |
| GepDecomposition.GetUnderlyingObject | lib/Analysis/ValueTracking.cpp:1865-1891 | With a layout, and no gep into an unsized type, both functions end at the same object, so that the assertion in the caller holds |
| GepDecomposition.MergeIndex | lib/Analysis/BasicAliasAnalysis.cpp:373-395 | Merging a scale into the list changes the sum by that term and keeps variables distinct |
| GepDecomposition.GetIndexDifference | lib/Analysis/BasicAliasAnalysis.cpp:411-441 | The new list sums to the difference of the two, modulo 2^64, whatever the values |
| GepDecomposition.EqualCancel | lib/Analysis/BasicAliasAnalysis.cpp:411-441 | Equal lists cancel |
| GepAlias.CompareOffsets | lib/Analysis/BasicAliasAnalysis.cpp:985-1042 | For all values of the variables: no-alias means no common byte, must-alias equal addresses, partial alias from a constant offset a common byte, for accesses of less than 2^63 bytes, also around the end of the address space. And no answer is missed: a constant offset is decided if the size of the access that comes first is known, and with variables left the answer is no-alias exactly if some power of two divides all scales and separates two accesses of known size |
| GepAlias.AliasGEP | lib/Analysis/BasicAliasAnalysis.cpp:881-1042 | The same for two pointers whose bases are known to be equal, and no-alias for equal offsets from bases whose accesses are apart; the assertions about the underlying objects hold; and which of the answers is given is decided by the parts of the two pointers and what is known of the bases |
| GepAlias.ConstantsDecided | lib/Analysis/BasicAliasAnalysis.cpp:985-1012 | With constant indices, one base and known sizes the answer is definite |
| GepAlias.SameIndicesMust | lib/Analysis/BasicAliasAnalysis.cpp:985-995 | The same indices from one base are a must alias |
| GepAlias.ResiduesApart | lib/Analysis/BasicAliasAnalysis.cpp:1016-1029 | The residues modulo the lowest set bit keep the accesses apart |
| GepAlias.LowBitOfScales | lib/Analysis/BasicAliasAnalysis.cpp:1018-1021 | The lowest bit set in any scale divides all scales |
| GepAlias.LowestIsBest | lib/Analysis/BasicAliasAnalysis.cpp:1016-1029 | The lowest set bit separates two accesses whenever any power of two that divides all scales does |
| Words.LowestSetBit | lib/Analysis/BasicAliasAnalysis.cpp:1021 | Clearing the lowest set bit and taking the rest out leaves that bit |
| BitCastTheorem.CastKeepsBits | lib/Analysis/ConstantFolding.cpp:160-216 | Between integer vectors of the same number of bits, in either byte order, the cast keeps the bits of all vectors exactly when one element count divides the other |
| BitCastTheorem.RoundTrip | lib/Analysis/ConstantFolding.cpp:160-216 | Then casting there and back is the identity |
| BitCastTheorem.IntegerIsOneElement | lib/Analysis/ConstantFolding.cpp:79-92 | Casting a vector to a vector of one element gives the integer that shifting and inserting gives |
| BitCastTheorem.FoldBitCast | lib/Analysis/ConstantFolding.cpp:50-216 | The loops compute the cast, splat cases included |
| BitCastTheorem.VectorToInteger | lib/Analysis/ConstantFolding.cpp:79-92 | Shifting and inserting the elements gives the bits of the vector in the byte order of the target |
| BitCasts.MergeElements | lib/Analysis/ConstantFolding.cpp:164-190 | The shifted parts do not overlap: the element built is the bits of its slice |
| ConstantReader.ReadDataFromGlobal | lib/Analysis/ConstantFolding.cpp:257-377 | On success the window holds exactly the bytes of the constant's memory image from the offset on, zero in padding and past the end; nothing outside the window changes; it succeeds exactly if no byte of the window belongs to a part it does not understand |
| ConstantReader.ReadStruct | lib/Analysis/ConstantFolding.cpp:308-346 | The same for a struct, field by field, over padding and to the end |
| ConstantReader.ReadArray | lib/Analysis/ConstantFolding.cpp:348-375 | The same for an array, from an offset inside an element on |
| ConstantReader.ReadInt | lib/Analysis/ConstantFolding.cpp:271-287 | The same for an integer, in either byte order |
| ConstantLoad.FoldReinterpretLoad | lib/Analysis/ConstantFolding.cpp:410-453 | A folded load is the integer that the bytes in memory encode in the target's byte order; it is folded exactly if the width is handled, the offset is inside, and all bytes are understood, and undefined exactly at or past the end |
| ConstantLoad.Assemble | lib/Analysis/ConstantFolding.cpp:440-451 | Shifting the raw bytes in gives the integer they encode, cut to the width |
| ConstantLoad.StoredIsLoaded | lib/Analysis/ConstantFolding.cpp:433-453 | What an integer constant holds is what a load of its width gives |
| FoldedGep.SymbolicallyEvaluateGEP | lib/Analysis/ConstantFolding.cpp:650-801 | Whatever comes back, folded indices, literal address or difference, has the address of the original in every execution, modulo the pointer width, and the type asked for; and something comes back exactly for a byte pointer less a value, a null or literal root, and a root from which indices reach the whole offset |
| FoldedGep.PathFolds | lib/Analysis/ConstantFolding.cpp:730-783 | Constant indices are folded if some path of indices within bounds, through objects with a size and not through the wanted type, leads from the root to the whole offset |
| FoldedGep.RootIs | lib/Analysis/ConstantFolding.cpp:682-710 | The root is no cast and no gep with constant indices, and the original is at the offset from it |
| FoldedGep.DescendTo | lib/Analysis/ConstantFolding.cpp:730-783 | Indices recomputed down the type account for the whole offset but what is left; the descent ends with the type |
| FoldedGep.StripKeeps | lib/Analysis/ConstantFolding.cpp:633-646 | Looking through casts and zero indices keeps the address |
| Barrier.NobodyReturnsEarly | examples/ParallelJIT/ParallelJIT.cpp:149-214 | In every interleaving, no call is on its way out before all have entered |
| Barrier.CountWithinTarget | examples/ParallelJIT/ParallelJIT.cpp:149-156 | The assertion in block holds in every interleaving |
| Barrier.NeverStuck | examples/ParallelJIT/ParallelJIT.cpp:149-214 | A reachable state that cannot go on has all calls returned |
| BarrierTarget.RightTarget | examples/ParallelJIT/ParallelJIT.cpp:149-214 | Every interleaving ends with all calls returned exactly when releaseThreads is given the number of threads that block |
| BarrierTarget.RunsEnd | examples/ParallelJIT/ParallelJIT.cpp:149-214 | No schedule is longer than nine steps a thread |
| Barrier.StepInv | examples/ParallelJIT/ParallelJIT.cpp:149-214 | Every step of every thread keeps the invariant: gathering, releasing or departing, one holder of the mutex, and the count of those counted |
| BranchProbabilityInfo.BoundIsExact | lib/Analysis/BranchProbabilityInfo.cpp:519-531 | The sum of the weights of a block fits in 32 bits for all blocks with so many successors exactly up to 268435449 of them |
| BranchProbabilityInfo.AnalysedRow | lib/Analysis/BranchProbabilityInfo.cpp:471-503 | After the analysis every weight is at least 1, the sum of a block fits in 32 bits, and its probabilities sum to exactly one |
| BranchProbabilityInfo.MeaningfulRow | lib/Analysis/BranchProbabilityInfo.cpp:471-503 | After the analysis an edge that leads to unreachable, or else to a cold call, or else out of the loop, is strictly lighter than one that does not; explicit weights are followed; different pointers, positive integers and different numbers take the heavier edge, and so does an invoke that returns |
| BranchProbabilityInfo.Analysis.RunOnFunction | lib/Analysis/BranchProbabilityInfo.cpp:471-503 | Each block has the weights of the first heuristic that applies, decided from exactly the sets that the blocks before it have left; both sets are empty again at the end |
| BranchProbability.SeenLeads | lib/Analysis/BranchProbabilityInfo.cpp:124-150 | The sets collected on the way hold only blocks that lead to unreachable, or to a cold call |
| BranchProbability.UnreachableExact | lib/Analysis/BranchProbabilityInfo.cpp:124-150 | Where no edge leads back, the set holds exactly the blocks from which every path that ends without successors ends in unreachable |
| BranchMeaning.ColdExact | lib/Analysis/BranchProbabilityInfo.cpp:218-248 | Where no edge leads back and nothing else decides first, the cold set holds exactly the blocks from which every path to an end comes through a cold call in a block that goes on |
| BranchProbabilityInfo.Analysis.GetSumForBlock | lib/Analysis/BranchProbabilityInfo.cpp:519-531 | The sum in 32-bit arithmetic is the true sum, and each addition makes it larger |
| BranchProbabilityInfo.Analysis.GetEdgeProbability | lib/Analysis/BranchProbabilityInfo.cpp:608-613 | The fraction has a positive numerator no larger than its denominator |
| BranchProbability.ProbabilitiesSumToOne | include/llvm/Analysis/BranchProbabilityInfo.h:29-37 | The probabilities out of a block are never zero, sum to exactly one, and are one only for a single successor |
| BranchProbability.PathsEndUnreachable | lib/Analysis/BranchProbabilityInfo.cpp:124-150 | From a block in the set, every path that ends without successors ends in unreachable |
| BranchProbabilityInfo.Analysis.CalcUnreachableHeuristics | lib/Analysis/BranchProbabilityInfo.cpp:124-170 | Weights and set after looking at a block |
| BranchProbabilityInfo.Analysis.CalcColdCallHeuristics | lib/Analysis/BranchProbabilityInfo.cpp:218-269 | The same for cold calls; the assertion that the block is not yet in the set holds |
| BranchProbabilityInfo.Analysis.CalcLoopBranchHeuristics | lib/Analysis/BranchProbabilityInfo.cpp:306-358 | Every edge has the share of its class: back, inside or leaving |
| BranchProbabilityInfo.Analysis.CalcMetadataWeights | lib/Analysis/BranchProbabilityInfo.cpp:174-208 | All explicit weights, clamped, or none |
| BranchMeaning.UnreachableUnlikely | lib/Analysis/BranchProbabilityInfo.cpp:150-170 | Edges into the set of blocks that lead to unreachable are strictly lighter than all others |
| BranchMeaning.ColdUnlikely | lib/Analysis/BranchProbabilityInfo.cpp:249-269 | Edges into the set of cold blocks are strictly lighter than all others, unless unreachable or explicit weights decide |
| BranchMeaning.ExitUnlikely | lib/Analysis/BranchProbabilityInfo.cpp:306-358 | Edges that leave the loop are strictly lighter than those that stay in it |
| BranchMeaning.ProfileFollowed | lib/Analysis/BranchProbabilityInfo.cpp:174-208 | Explicit weights keep their order, and their values if all edges could have them |
| BranchMeaning.DifferentPointersLikely | lib/Analysis/BranchProbabilityInfo.cpp:271-303 | Different pointers take the heavier edge |
| BranchMeaning.UnwindUnlikely | lib/Analysis/BranchProbabilityInfo.cpp:456-469 | The normal way on from an invoke is heavier than the unwind edge |
| BranchWeights.MetadataFits | lib/Analysis/BranchProbabilityInfo.cpp:115-117 | Clamped to the largest weight for so many edges, explicit weights fit whatever they are |
| BranchWeights.DifferentNumbersLikely | lib/Analysis/BranchProbabilityInfo.cpp:420-454 | The edge that operands take which are numbers and differ is the heavier one exactly if the comparison is not ordered equality |
| BranchWeights.PositiveIntegersLikely | lib/Analysis/BranchProbabilityInfo.cpp:359-418 | Where the comparison of an integer with a constant is guessed at all, the edge that every positive integer takes is the heavier one |

## Left out

- BrainF run lengths: constants are integers as long as the run; the original's `int` would overflow past 2^31 - 1.
- BrainF addresses are unbounded integers; the tape does not wrap around the address space. Allocation always succeeds.
- BrainF `getchar` may return any integer, which is cut to a byte when stored; the driver, the bitcode writer and the JIT are not modelled.
- LazyValueInfo knows integer values only: pointers, null facts, loads, allocas and undefined constants are not modelled, nor are the two lattice states that serve them.
- LviThreading.ThreadingCarries: the block passed over is not copied onto the new edge; its values must not be in use at the end of the block before it, which holds unless it heads a loop.
- LazyValueInfo keeps one map with pairs of value and block as keys in place of a map of maps with handles.
- LviFacts.TransferTrue: division by zero yields any value, and shifts by the width or more give zero.
- Recorded overdefined pairs: an entry that a postponed visit left overdefined is not recorded by the code, so only one inclusion holds.
- AliasSetTracker: reference counts and the removal of forwarding sets, unknown instructions, access types, volatility, removal of pointers, and pointers that grow.
- GepDecomposition: sign and zero extensions of indices, of which the source says itself that high bits may be lost, and pointers narrower than 64 bits.
- GepAlias.CompareOffsets: the last answer, partial alias without a proof, promises nothing; the result marks it.
- GepAlias: phis, selects, object sizes and tags of the enclosing analysis.
- BitCasts: floating-point elements, which are cast to integers first, and elements that are not plain integers.
- ConstantMemory: integers whose size in memory differs from their width, floating-point constants, and struct fields of no size.
- ConstantLoad: finding the global and the offset behind a pointer expression.
- FoldedGep: vectors of pointers and address spaces.
- Barrier: spurious wakeups, which POSIX.1-2008 allows for `pthread_cond_wait`; the code has no loop around its waits.
- BranchProbability: probabilities by destination block, hot edges, and the order of the walk; any order that visits each block once will do.
