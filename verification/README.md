# Traffic control compiler: meaning-preservation proofs

tcng compiles `if` expressions of queuing disciplines - tests of packet fields, decisions, and
token bucket meters that are asked (`conform`) and charged (`count`) - into rules for an external
matcher, into `u32` filters, or into a `tcindex` class selection. The model follows this way and
proves that it keeps what the expressions say.

- **Expressions** (`Expr`, `Actions`, `Normalize`, `Redundancy`, `Bundling`, `Negation`, `Combine`). `Eval` gives an
  expression a truth value or a decision, and the counts performed on the way. `&&` and `||` shortcut,
  and a decision ends the evaluation. The passes are shown to keep `Eval`, counts included, for every
  packet, every answer of the meters, and every earlier history of counts.
- **Arithmetic** (`Bits`, `U128`, `Comparisons`, `RelAccess`, `RelToEq`, `Arithmetic`). Masks, shifts and orderings
  of fields become tests for equality.
- **Decision graphs** (`Graph`, `Static`, `Shape`, `Repeats`, `Retests`, `Duplicates`, `Merging`,
  `Collapsing`, `Emission`, `BitTree`, `BitFsm`, `IflibBit`, `Crossing`, `NewBit`, `Frequencies`). Nodes are
  a mutable heap that is shared between paths, as in the original; `Run` is what a packet meets there.
- **Rules** (`Rules`, `MaskedTests`, `ExtText`, `ExtDump`, `ExtParse`, `ExtMatch`, `ExtTransfer`, `U32`).
  They are printed, read back and matched against the bytes of packets, or made into `u32` keys.
- **Class selection paths** (`Qdiscs`, `Ways`, `Indexing`, `Selection`, `IndexWalk`) and **token buckets**
  (`BucketSetup`, `Buckets`).

A packet is a function from offset group and bit number to bits. The meters are a function from a
bucket and the number of times it was counted so far to an answer; a count affects nothing but later
answers of the same bucket.

## Model

| member | source | states |
|---|---|---|
| BitFsm.Fsm.SmartDump | tcc/iflib_bit.c:1193-1263 | The rules printed, the first matching one of which applies, give the decision and the counts of the whole graph for every packet and meter answer, if it is about one offset group and no path tests a bit twice; each round takes out a test, so it ends |
| BitFsm.Fsm.DumpAllPathsTo | tcc/iflib_bit.c:1012-1088 | Rules are added that hold, for packets with the bits of the history, exactly where the graph takes this branch of this test, and that name its action |
| BitFsm.Fsm.EliminateBundle | tcc/iflib_bit.c:1217-1240 | With a branch cut, the graph does as before for all packets that do not take it, its test is redundant, and what dumping relies on still holds |
| BitFsm.Fsm.RemoveDuplicates | tcc/iflib_bit.c:488-537 | Nodes behave as before however shared; below the walk no path tests a bit again, nor asks for the conformance to a bucket again unless it was counted in between |
| BitFsm.Fsm.Eliminate | tcc/iflib_bit.c:457-485 | Cutting out a test whose answer is known copies what other walks share, so that every node behaves as before, and leads on to its successor |
| BitFsm.Fsm.BubbleStatic | tcc/iflib_bit.c:395-444 | No packet test is left below any meter, and decision and counts are kept; afterwards a path tests a bit twice if and only if one did before, or a bit was tested on both sides of a conformance test |
| Crossing.BuildCrossed | tcc/iflib_bit.c:324-444 | Of an expression that tests a bit on both sides of a conformance test, the graph as built, with its tests moved up, has a path that tests the bit twice, while it still does what the expression does |
| Crossing.CrossedFails | tcc/iflib_bit.c:418-444 | Such a graph of that expression, written out: a path asks for both values of the bit, and the rule for that path matches a packet that the graph sends elsewhere |
| BitFsm.Fsm.MergeCommon | tcc/iflib_bit.c:690-705 | All equal subgraphs become one, no redundant test is left, and all decisions and counts are kept |
| BitFsm.Fsm.CollapseCommon | tcc/iflib_bit.c:713-797 | A node that all paths meet before any count stands for its ancestors; from the node returned on, there is none left from which all ways meet again before a count. Decisions, counts and the shape needed for dumping are kept |
| BitFsm.Fsm.NumberActions | tcc/iflib_bit.c:885-936 | Every action node below gets a number, whose line in the action table is that of the node with the numbers of its successors |
| Emission.PerformIsRun | tcc/ext/match.c:133-166 | Carrying out a numbered action does what its node does, counts included, for every packet and meter answer |
| BitTree.ValueFsm | tcc/iflib_bit.c:226-242 | Leads to the one continuation if and only if the field has the value in all masked bits, and to the other one otherwise |
| BitTree.EqualityExact | tcc/iflib_bit.c:245-321 | The graph of an equality is right for every packet if and only if the constant fits the field or has bits outside the masks |
| BitTree.Build | tcc/iflib_bit.c:324-383 | The graph of an expression with continuations does what the expression does, counts included, and then what the continuation for its value does; it tests no other bits than the fields have |
| IflibBit.Compile | tcc/iflib_bit.c:1269-1303 | An expression that always decides becomes a table of actions and rules with the same decision and the same counts for every packet, if no bit is tested on both sides of a conformance test |
| Rules.SortExact | tcc/iflib_bit.c:1044-1053 | Sorting a path by bit number alone, dropping equal numbers, keeps what it asks for if and only if no number comes in different groups or with different values |
| Rules.MergeSteps | tcc/iflib_bit.c:1055-1064 | Runs of consecutive bits make fields that hold for exactly the packets with these bits |
| NewBit.SortDag | tcc/iflib_newbit.c:795-801 | Any graph is sorted by the bits it tests: tests strictly increase on every path, lie above all meters, and decision and counts are kept |
| NewBit.SortSubdag | tcc/iflib_newbit.c:739-791 | The same for a subgraph and a sorted list of bits that includes all it tests |
| NewBit.ReduceDag | tcc/iflib_newbit.c:708-730 | The result does what the node does for packets with the bit so given, and no longer mentions the bit; no other node changes |
| NewBit.StoreBit | tcc/iflib_newbit.c:290-307 | The list stays sorted by offset group and number and has exactly one bit more, or is unchanged if it had it |
| Frequencies.Counter.CountPaths | tcc/iflib_newbit.c:1019-1028 | Every test gets the number of paths from the root to it, and for every leaf edge the number of paths from it to the edge; the two multiplied are the paths to the edge by way of the test |
| Frequencies.Counter.CountInFrequency | tcc/iflib_newbit.c:960-977 | The worklist in bit order visits every test that is reached after all its parents that are, and each gets the number of paths to it |
| Frequencies.NoParentPending | tcc/iflib_newbit.c:909-946 | When a test is first in the list, every parent of it that the root leads to has been visited |
| Frequencies.Counter.CountOutFrequency | tcc/iflib_newbit.c:996-1016 | Visiting each test once, its table gets the number of paths to every leaf edge; no other finished table changes |
| Frequencies.Counter.NumberLeafEdges | tcc/iflib_newbit.c:858-903 | Leaf edges that are reached are numbered from 1 on, each once, and listed by number; tests and what follows them are counted, each once |
| Frequencies.ThroughProduct | tcc/iflib_newbit.c:980-984 | The paths that pass a node are as many as lead to it times as many as lead on |
| Actions.SelfContainedSound | tcc/iflib_act.c:42-105 | What is said to decide always does, what is said to be never true or never false never is, whatever is counted or decided on the way |
| Normalize.SettlingMayBe | tcc/iflib_act.c:42-105 | The classes are exact: an expression decides, is never true or is never false if and only if it is known so from which of its parts may be true and which may be false |
| Actions.TrimSelfContained | tcc/iflib_act.c:257-272 | Nothing follows what always decides, and the meaning is kept |
| Actions.PruneShortcuts | tcc/iflib_red.c:450-529 | No operator has a constant or a decision on its left, nor a constant on its right, except one that is kept for the side effects before it; the meaning is kept |
| Normalize.IflibNormalize | tcc/iflib_red.c:122-129 | For every expression: chains lean right, and `\|\|` is left below `&&` only on the left of it, if its right alternative has a side effect, or on the right, if it is an action that decides. Decisions and counts are kept if no rewrite on the way evaluates a second time what decides or counts (`Careful`), as without counts where none is allowed by the escape guard alone (`Escapes`), for tables, and for plain conditions; the latter come out in disjunctive form |
| Normalize.BubbleOr | tcc/iflib_red.c:33-97 | Makes the rewrites of the code until none applies, by a measure with `&&` as product and `\|\|` as sum; leaves normal forms alone and keeps tables, conditions and tests, and the meaning of what is rewritten carefully |
| Normalize.BubbleSound | tcc/iflib_red.c:33-97 | Decisions and counts are kept, for every packet, meter answer and history, by rewriting that is careful at each step, which can be checked by following it |
| Normalize.CarelessStep | tcc/iflib_red.c:62-78 | Without counts, a step is not careful only if the escape guard alone allows it, `b` of `(a \|\| b) && c` may decide, `a` may be true and `c` may be false |
| Normalize.EscapeFree | tcc/iflib_red.c:33-97 | Without counts, rewriting is careful wherever none of the rewrites on the way is allowed by the escape guard alone |
| Normalize.TrustedCareful | tcc/iflib_red.c:33-97 | Rewriting is careful for normal forms, for rows without counts, and for tables of conditions and actions, counts and all |
| Normalize.DecidedCareful | tcc/iflib_comb.c:43-48 | Putting the class or drop of a filter behind it makes its rewriting neither more nor less careful |
| Normalize.Linearize | tcc/iflib_red.c:100-120 | Chains lean right, the meaning is kept, and so is what is known of each part |
| Normalize.NormalNotLinear | tcc/iflib_red.c:122-129 | An expression no rewrite applies to, one of which applies once its chain is turned |
| Normalize.TurnNormal | tcc/iflib_red.c:104-114 | Turning `(a && b) && c` keeps a normal form if and only if not: `a` is an `\|\|`, `b` is never false and `c` always decides; turning `\|\|` always does |
| Normalize.DistributeLeft | tcc/iflib_red.c:62-78 | `(a \|\| b) && c` may be distributed if and only if `b` takes no decision where `a` is true and `c` false |
| Normalize.EscapeUnsound | tcc/iflib_red.c:68-70 | An expression and packets for which distributing under the escape guard changes the decision |
| Redundancy.CommonSubexpressions | tcc/iflib_red.c:135-185 | Follows the removals of the code; without counts the meaning is kept |
| Redundancy.TestsThinned | tcc/iflib_red.c:147-176 | What is left of a chain of tests: each where it comes first and no other, except that the one that comes first last stays twice, if it is there again |
| Redundancy.ThinnedChain | tcc/iflib_red.c:147-185 | The same removals, and those within the operands, make up what happens to any chain that leans right |
| Redundancy.FirstsDistinct | tcc/iflib_red.c:147-176 | In the list of first occurrences no operand is there twice, and none is missing |
| Redundancy.ThinnedSmaller | tcc/iflib_red.c:135-185 | An expression either stays as it is or becomes strictly smaller |
| Redundancy.TwiceAtEnd | tcc/iflib_red.c:166-173 | `a && a` and `a \|\| a` stay as they are |
| Bundling.Bundle | tcc/iflib_red.c:415-444 | Follows the rounds of the code, type errors included, and ends without growing the expression; decisions and counts are kept if every round is careful: rows share common cells that may as well be asked once, or make way for a shorter last row and have no side effects |
| Bundling.ShortExact | tcc/iflib_red.c:378-396 | Where the last row of the block is no longer than the common cells, the round keeps the meaning if and only if no packet that gets to the block and meets the common cells is decided by its other rows |
| Bundling.RoundSound | tcc/iflib_red.c:363-409 | A careful round succeeds, and decides and counts as before |
| Bundling.LongerCareful | tcc/iflib_red.c:399-409 | Without counts, a round is careful if all rows of the block go on after the common cells |
| Bundling.PlainRounds | tcc/iflib_red.c:415-444 | Conditions without side effects are bundled carefully, if there is a result |
| Bundling.BundledOrSame | tcc/iflib_red.c:415-444 | If there is a result, it is strictly smaller where the expression or an operand of it, however far down, has a block, and is the same expression where there is none |
| Bundling.BundledApart | tcc/iflib_red.c:441-443 | Operands of `!` and `&&` are bundled each on its own, and all of them are |
| Bundling.ShortRowFails | tcc/iflib_red.c:378-396 | `(a && drop) \|\| a` becomes `a`: in a filter for a class, packets with `a` get the class instead of being dropped |
| Bundling.OperandMissing | tcc/iflib_red.c:391-394 | `a \|\| (a && b)` has no result: an operand is missing |
| Bundling.BundleRebuild | tcc/iflib_red.c:363-409 | The rows with one in place of the block, or nothing if and only if a row that is not the last has no cells of its own while the last one has |
| Bundling.BundleFindBest | tcc/iflib_red.c:309-342 | The block of rows with a common beginning that has the most cells, and of these the first; there is none only if no neighbours begin alike |
| Negation.IflibNot | tcc/iflib_not.c:101-165 | No `!` and no `!=` is left; wherever the expression decides, decision and counts are kept, and no outcome is new if every negation stands where a decision follows, as in combined filters |
| Negation.SingleBitTest | tcc/iflib_not.c:45-72 | `!=` is turned into `==` if and only if there is an outer mask of one bit and the constant is 0 or that bit, and then means the same |
| Combine.IflibCombine | tcc/iflib_comb.c:92-109 | The joined expression does what trying the filters one by one does, counts included |
| Combine.ComplementMeans | tcc/iflib_comb.c:28-48 | Where a filter decides or comes true the class is that of the filter, whatever class is named inside; an inner `drop` or `continue` stays; filters of the drop class drop what they do not leave alone; counts are kept |
| Combine.JoinedClasses | tcc/iflib_comb.c:28-109 | If the joined filters select a class, it is that of one of them |
| Combine.Prepare | tcc/if_ext.c:659-680 | Filters, joined, with the default at the end and negation removed, decide like the first filter that decides, or like the default, and count the same |
| Combine.CompileFilters | tcc/if_ext.c:628-680 | The same for the actions and rules made of them |
| Arithmetic.IflibArith | tcc/iflib_arith.c:941-959 | Comparisons of masked and shifted fields become tests for equality (and for difference, if these are to stay), with the same meaning if every one keeps it by itself; for fields of up to 32 bits the result is what the later passes take. There is no result if and only if prefixes are asked for and an ordering is left for which there is none; if all keep their meaning, one of them is then a `>` or `>=` that is true of no packet |
| Arithmetic.CompileArith | tcc/if_ext.c:628-680 | Filters with orderings, masks and shifts, joined and then worked out, become actions and rules that decide and count like the first filter that decides; there are no rules if and only if prefixes are asked for and a filter has an ordering for which there is none, which is then true of no packet |
| RelAccess.RelAccess | tcc/iflib_arith.c:358-492 | For all six relations and any masks and shifts, the result means the same if and only if the stated condition on relation, mask and shifted constant holds, as it always does for `==` and `!=`; what is left is one mask within the field and a constant |
| RelAccess.RightWord | tcc/iflib_arith.c:450-487 | Within 32 bits the condition fails only for `>`, where bits of the constant are lost and the masked field can be one more than what is left |
| RelAccess.ShiftedGreater | tcc/iflib_arith.c:462-463 | `(field << 1) > 3` does not keep its meaning |
| RelAccess.WrongEnd | tcc/iflib_arith.c:479-480 | `(field & 0x1_0000_0000) < 1`, for any field of 128 bits, does not keep its meaning |
| RelToEq.RelToEq | tcc/iflib_arith.c:507-552 | An ordering at a power of two becomes one masked test, which means the same if and only if the masked field has 32 bits like the constant, or, for a longer constant, cannot have the lowest bit |
| RelToEq.Log2Any | tcc/iflib_arith.c:43-80 | The logarithm of the constant or of the next number, or failure if and only if that is no power of two |
| Comparisons.BuildLeBit | tcc/iflib_arith.c:703-744 | The chain of single-bit tests is `<=`, or `>` |
| Comparisons.BuildLtPrefix | tcc/iflib_arith.c:754-775 | The alternatives of prefixes are `<`, or `>`; there are none if and only if no bit can make the difference |
| Comparisons.BuildRel | tcc/iflib_arith.c:778-821 | Any ordering, by either form; nothing is built if and only if prefixes are asked for and the mask has no bit that the constant, less one for `>=`, does not have |
| Comparisons.RelGeneral | tcc/iflib_arith.c:824-841 | The same for a whole expression: there is a result with the same meaning and no ordering, unless one of them has no prefix |
| Comparisons.BuildNeBit | tcc/iflib_arith.c:846-879 | Single-bit tests for difference from the part of the constant within the mask, unless the mask is empty |
| Comparisons.BuildNePrefix | tcc/iflib_arith.c:884-909 | Prefix tests for difference from a constant within the mask, unless that is empty |
| U128.Add | shared/u128.c:15-28 | The sum modulo 2^128 |
| U128.Sub | shared/u128.c:31-44 | The difference modulo 2^128 |
| U128.Minus | shared/u128.c:47-59 | The negation modulo 2^128 |
| U128.AndWords | shared/u128.c:62-69 | The bits both have |
| U128.OrWords | shared/u128.c:72-79 | The bits either has |
| U128.XorWords | shared/u128.c:82-89 | The bits one of them has |
| U128.NotWords | shared/u128.c:92-99 | The complement within 128 bits |
| U128.ShiftLeft | shared/u128.c:102-115 | The shifted number within 128 bits, for any count |
| U128.ShiftRight | shared/u128.c:118-130 | The shifted number, for any count |
| U128.Add32 | shared/u128.c:160-167 | The sum with a word modulo 2^128 |
| U128.Sub32 | shared/u128.c:170-179 | The difference from a word modulo 2^128 |
| U128.SubFrom32 | shared/u128.c:182-185 | The difference of a word and a number modulo 2^128 |
| U128.OrderExact | shared/u128.c:212-219 | The comparison is right for all lowest words if and only if the upper words are equal |
| MaskedTests.DecomposeExact | tcc/if_ext.c:361-392 | The tests made of a masked comparison are exact if and only if the value fits the field or has bits outside the mask |
| ExtDump.Dumper.DecomposeMatch | tcc/if_ext.c:361-392 | The list holds, after adding the tests of a masked comparison, for exactly the packets for which it and the comparison held, or it is said that there are none |
| ExtDump.Dumper.SortBits | tcc/if_ext.c:271-290 | Within each offset group bits are in ascending order, and groups and tests are those of before |
| ExtDump.Dumper.CollectBits | tcc/if_ext.c:293-316 | The fields stand for the listed tests, in order, and could not be longer |
| ExtDump.Dumper.DumpOr | tcc/if_ext.c:449-503 | Rows of plain tests with an action at the end become rules by which every packet gets the action of the first row whose tests hold, or none |
| ExtDump.Dumper.DumpAnd | tcc/if_ext.c:479-490 | One rule is added for a row, which holds for exactly the packets that meet all its tests; none is added if and only if no packet does |
| ExtDump.TableToRows | tcc/if_ext.c:629-645 | Normalization makes such rows, with the same meaning, of every table of plain tests and deciding actions, counts included |
| ExtParse.ParseRule | tcc/ext/tccext.c:304-334 | A printed rule is read back, in either style of digits |
| ExtParse.PackDigits | tcc/ext/tccext.c:280-300 | Digits become bytes of the same value, right-aligned |
| ExtTransfer.Transfer | tcc/ext/tccext.c:774-815 | All lines printed, barriers included, are read back as they were |
| ExtMatch.ExtractBits | tcc/ext/match.c:32-47 | The value of the bits, or failure if and only if they do not lie within 32 bits from a byte boundary |
| ExtMatch.Offset | tcc/ext/match.c:50-60 | The position of an offset group, through any number of dependent fields |
| ExtMatch.GroupBits | tcc/ext/match.c:50-60 | Bit `n` of a dependent group is the bit of its base group that is further on by the number the packet has in the field of the group, times two to the shift |
| ExtMatch.GroupFound | tcc/ext/match.c:50-60 | A group is found if and only if its base is, and its field is and lies within 32 bits from a byte boundary |
| ExtMatch.PacketBits | tcc/ext/match.c:50-60 | The bits of group 0 are those of the packet |
| ExtMatch.MatchOne | tcc/ext/match.c:63-80 | Whether the packet has the field, or failure if and only if the matcher cannot look at it |
| ExtMatch.MatchPacket | tcc/ext/match.c:193-208 | The bytes of a packet are classified as the printed lines say, barriers included, if the matcher can look at all fields |
| ExtMatch.BarriersTry | tcc/if_ext.c:719-752 | Rules of several filters with barriers between them are tried filter by filter |
| ExtTransfer.Deploy | tcc/if_ext.c:628-680 | The lines of filters, printed and read, make the matcher do what the filters say |
| ExtTransfer.ServePacket | tcc/ext/match.c:133-208 | For the bytes of any packet the matcher comes to what the filters say of them |
| ExtTransfer.DeployRows | tcc/if_ext.c:449-510 | The same for rows of tests and numbered actions |
| U32.KeyTable.DumpEq | tcc/if_u32.c:600-654 | The keys hold after adding an equality for exactly the packets for which they and the equality held; it is refused only where no packet meets both. At most one key is made for a byte; no answer is given only if the bytes of the field exceed the room in the table, or some are left over |
| U32.AllPartsLeft | tcc/if_u32.c:613-652 | The fixed sequence of sizes leaves no byte over if and only if offset and size are not among the stuck ones; accesses of 1, 2, 4 and 16 bytes at any offset never are |
| U32.KeyTable.AddKey | tcc/if_u32.c:426-469 | A key is put at its place in a word and joined with one already there, so that exactly the packets with both remain; it is refused only if there are none, and there is no answer if and only if the table is full |
| U32.KeyTable.DumpMatch | tcc/if_u32.c:373-418 | The printed matches hold for exactly the packets with all keys, and there is at least one |
| U32.KeyTable.DumpRow | tcc/if_u32.c:1175-1192 | The matches of a row hold for exactly the packets that meet all its equalities; a row given up is met by none. Matches are missing only if the fields have more bytes in all than the table takes keys, or offset and size of one are stuck |
| Selection.Context.RegisterSelectionPath | tcc/csp.c:209-246 | The path registered selects the listed classes in their order; other paths stay. It ends well if and only if there is a path through all classes of the list to one of them and no discipline on it has filters; that a path has filters is said if and only if there is one and it has |
| Ways.WayOnce | tcc/csp.c:171-246 | A list is selected by at most one path |
| Selection.Context.FindLastClass | tcc/csp.c:171-206 | If the search ends well, at most one path was registered: from the root through the listed classes, all of them, to the class found |
| Selection.Context.AssignBits | tcc/csp.c:255-293 | Every discipline in use gets a field wide enough for its numbers above those of all disciplines below |
| Selection.Context.EndSelectionPaths | tcc/csp.c:460-484 | Numbers are made of fields if and only if the fields of all that is selected fit 15 bits together with those that tell equal paths apart, and just count otherwise; it fails if and only if they do not fit and there are too many paths to count. Every path gets a number of at most 15 bits by which each filter on it selects its class, and none beyond its end; different paths get different numbers if no GRED is involved or numbers just count |
| Indexing.NumberInjective | tcc/csp.c:343-383 | Without GRED a number made of fields determines the path and its place among equal ones |
| IndexWalk.NumberFindsPath | tcc/ext_all.c:62-188 | Following a number that leads along a path comes to it if and only if its lowest bits fit the GRED disciplines there |
| IndexWalk.SelectPaths | tcc/csp.c:209-500 | It ends well if and only if every list has a path without filters, and the fields of these paths fit or the lists can be counted. Then every list is found again by following its number, unless a GRED discipline is on the path and the fields do not fit, and lists have different numbers, unless they do fit with GRED |
| BucketSetup.Generator.AddBucket | tcc/if_c.c:77-104 | A bucket is printed with the least scale that fits its fill time into the table; which errors occur is stated exactly |
| BucketSetup.LinesFit | tcc/if_c.c:77-104 | The table and the fill time printed for a bucket are those of its rate and of the depth of its chain |
| Buckets.CreditExact | tcc/tcm_cls.c:130-168 | The credited time is exact for all times if and only if the fill time is at most five seconds |
| Buckets.PourConserves | tcc/tcm_cls.c:130-168 | Of tokens poured, exactly as many as the chain has room for stay in it |
| Buckets.Classifier.RefillBucket | tcc/tcm_cls.c:130-168 | Tokens for the time passed are poured into the chain, time that makes no whole table entry is carried over, and the table index stays in range |
| Buckets.RefillEarns | tcc/tcm_cls.c:130-168 | A refill leaves in the chain what was there and rate times the time gone by, with the time carried over and but for less than a byte, or the chain is full, but for that and what the rate allows in a microsecond |
| Buckets.GapFills | tcc/tcm_cls.c:130-168 | After a gap of the fill time the chain is full, up to one step of the table |
| Buckets.GapExact | tcc/tcm_cls.c:130-168 | It is quite full if and only if no more was missing than the rate allows in the whole steps of the fill time |
| Buckets.GapShort | tcc/tcm_cls.c:144-155 | A bucket that no gap fills up when it is empty |
| Buckets.Classifier.PoliceCount | tcc/tcm_cls.c:183-192 | After refilling, the length of the packet or the minimum unit, whichever is more, is taken from the bucket |
| Buckets.RateBound | tcc/tcm_cls.c:130-192 | Over every run at non-decreasing times, what conforming packets are charged and what is left never exceed what was there and rate times time |
| Buckets.FreshBound | tcc/tcm_cls.c:130-192 | The same for a bucket from its first packet on: its depth, and rate times time and one table step |
| Buckets.LeastLeft | tcc/tcm_cls.c:130-192 | Over every run the chain holds at least what it held and rate times the time to its last refill, up to its depth, less what packets took, a byte for every refill and one table step |

## Findings

What the code does not do for all inputs, with the exact condition where it does. Unless said
otherwise the condition can be checked before the call.

- `>` with bits lost (tcc/iflib_arith.c:462-463): where a left shift is taken to the other side of `>` and
  bits of the constant are lost, the constant is made one too large; `>=`, `<` and `<=` are adjusted
  correctly. Masks beyond 32 bits may be taken to be below a constant, because numbers are compared
  from the lowest word on (shared/u128.c:212-219). `RelAccess.RelAccess` has the exact condition for all six
  relations, `RightWord` what is left of it within 32 bits, `ShiftedGreater`, `WrongEnd` and
  `U128.OrderExact` the failures.
- The escape guard of `bubble_or` (tcc/iflib_red.c:68-70): `EscapeUnsound` changes a decision by it.
  `DistributeLeft` has the exact condition for one step, but as one on the meaning of the operands. For the
  whole pass `Careful` can be checked by following the rewrites, and is sufficient (`BubbleSound`): without
  counts it fails only at a step that the escape guard alone allows (`CarelessStep`, `EscapeFree`). The classes put behind
  filters have no part in it (`DecidedCareful`).
- Normalization twice (tcc/iflib_red.c:122-129): turning chains may enable a rewrite
  that was not possible before (`NormalNotLinear`); `TurnNormal` says exactly when one turn does.
- Short rows in `bundle` (tcc/iflib_red.c:363-396): where the last row of a block has nothing after the common
  cells, it stands for the whole block, and decisions of the other rows are lost (`ShortRowFails`);
  `ShortExact` says exactly when that makes no difference, as a condition on the meaning. What can be checked
  is that those rows have no side effects (`CarefulBlock`), which is sufficient. Where another row has nothing
  after them, but not the last one, compilation stops with a type error (`OperandMissing`). Without counts,
  blocks of longer rows are always fine.
- Powers of two (tcc/iflib_arith.c:541-551): the mask for constants beyond 32 bits has the lowest bit in
  addition, and the one for other constants ends at 32 bits; `RelToEq.RelToEq` says exactly when the test is right.
- Long fields (tcc/ext/match.c:32-37): adjacent tests are merged without a limit, and the matcher stops at a
  field that does not lie within 32 bits from a byte boundary, such as source and destination address tested
  together. `ExtMatch.MatchOne` says exactly when it can look, and `ServePacket` asks for it. It also
  gives up on offset groups that are not listed, where tcc/ext/tccext.c:139-149 stops on reading.
- Repeated bits after `bubble_static` (tcc/iflib_bit.c:418-444): `BubbleStatic` says exactly when paths test a
  bit twice, `CrossedFails` has an ordinary expression with a wrong rule. Filters are fine if
  no bit is tested on both sides of a conformance test (`FiltersApart`).
- Sorting by bit number (tcc/iflib_bit.c:1044-1053): `SortExact` says when that keeps the meaning of a path.
- Constants larger than the field (tcc/iflib_bit.c:245-321, tcc/if_ext.c:361-392): `EqualityExact` and
  `DecomposeExact` say exactly when tests are right.
- Accesses of some sizes (tcc/if_u32.c:613-652): the fixed sequence of key sizes leaves bytes over exactly
  for the offsets and sizes of `Stuck`, none of which is a size a field type has.
- Numbers that just count (tcc/csp.c:399-422): they do not fit GRED disciplines, which look at the lowest four
  bits; `NumberFindsPath` says exactly when following one works.
- Repeats at the end of a chain (tcc/iflib_red.c:147-176): the last two operands are never compared with each
  other, so that `a && a` stays (`TwiceAtEnd`); `TestsThinned` says exactly what is left.
- Full buckets (tcc/tcm_cls.c:144-155): an empty bucket need not be full after its fill time, which is rounded
  down to microseconds and then to steps of the table (`GapShort`); `GapExact` says exactly when it is.
- More than five seconds (tcc/tcm_cls.c:144-147): a gap of that length is credited as a full bucket;
  `CreditExact` says exactly when that is right.
- Prefixes that cannot be (tcc/iflib_arith.c:754-775): with a mask that rules all values out, the prefix form
  of `>` builds nothing; `Comparisons.Covered` and `Arithmetic.Unbuildable` say exactly when.

## Left out

- Normalize.DistributeLeft: its condition speaks of meanings; the guards of the code are shown to be sufficient, not necessary.
- Redundancy.CommonSubexpressions: stated without counts, as the code repeats or drops operands with them.
- IflibBit.Compile: equality tests are of accesses of up to 32 bits, as the single-bit algorithm takes them; keeping bits apart is sufficient for an expression, while the exact condition is on its graph (`BubbleStatic`), because removing duplicates may take repeated tests away.
- Arithmetic.IflibArith: without multiplication, division and modulus, sums and differences with constants, and `|` and `^` around fields (`mul_div_mod`, `rel_math`, `rel_eq_or`); the tests made at powers of two are stated on their own (`RelToEq`), such orderings being unfolded like the others here.
- Crossing.CrossedFails: the rule of one path; the printed list of such a graph is not worked out.
- BucketSetup.Generator.AddBucket: policers with neither rate nor peak rate, whose rate is not defined, and fill times that do not fit 32 bits, for which the conversion is not defined in C.
- Constants folded when operators are built (tcc/op.c:477-499).
- The expression passes work on values; the code changes expressions in place.
- Reference counts, which only decide when nodes are freed.
- `make_dag` and the selection of the best path in tcc/iflib_newbit.c, and resetting the frequency counters.
- The choice of the next test to dump (`pick_best`): the proofs hold for any.
- ExtTransfer.DeployRows: a numbering of action trees (tcc/iflib_actdb.c) that performs the actions is assumed.
- Offset and field root expressions: accesses name their offset group.
- Position arithmetic of offset groups beyond 2^31 bits.
- Text of action, bucket and offset lines; numbers with more digits than a field has.
- Meta fields other than the protocol, links between hash tables and offset rules of `u32`.
- Overflow of 32 bits in sums of bucket depths; dual-rate buckets; the buckets of tcc/ext/match.c, which use floating point.
- IndexWalk.NumberFindsPath: filters attached to classes rather than disciplines (tcc/ext_all.c:157-170), of which csp makes none; the default class of CBQ and the `priomap` parameter.
- The C code generator beyond bucket parameters, and the kernel module around the classifier.
