# aoc2021 solvers in Dafny

A model of the pure algorithms behind a set of Advent of Code 2021
solvers written in C++20. Each day's solver is an independent program;
what they share are small utility headers: a character grid
(`charmap_t`), 2-D and 3-D points (`point_t`, `vector_t`) and string
tokenizers (`split.h`). This project restates each algorithm as immutable
Dafny datatypes and pure functions, with a handful of methods where the
source's loop structure is itself the point. It proves what each one
computes against an independent reference: a set-level meaning, an
inverse, a conserved quantity or a brute-force definition.

One module per file:

| file | module | models |
|---|---|---|
| wrappers.dfy | Wrappers | `Option`, standing for thrown exceptions and undefined reads |
| arith.dfy | Arith | shared arithmetic: `Abs`, `Min`, `Max`, `Sum`, powers of two |
| bags.dfy | Bags | multiset sums over hash ranges (for day 14's counting maps) |
| binary.dfy | Binary | bit strings and their values (days 3 and 20) |
| points.dfy | Points | `point_t`/`vector_t` of day0, day19 and day22 |
| tokenize.dfy | Tokenize | `split_str`, `split_int`, `split_size_t`, day 17's `split`/`split_int`, `from_string`'s number scanner, `atoi`/`stol` |
| charmap.dfy | Charmaps | `charmap_t` |
| cuboids.dfy | Cuboids | day 22: `cube_t` algebra and the reboot fold |
| bitstream.dfy | Bitstream | day 16: hex decoding and the bit cursor |
| packets.dfy | Packets | day 16: the packet decoder and the version sum |
| snailfish.dfy | Snailfish | day 18: snailfish numbers as trees, explode/split/reduce, magnitude, parsing |
| amphipod.dfy | Amphipod | day 23: the burrow's move graph and the successor generator |
| polymer.dfy | Polymer | day 14: pair counting against the literal polymer |
| lanternfish.dfy | Lanternfish | day 6: age tallies against individual fish |
| dice.dfy | Dice | day 21: deterministic and Dirac dice |
| syntax.dfy | Syntax | day 10: bracket reduction against a stack |
| bingo.dfy | Bingo | day 4: boards, scores, first and last winners |
| origami.dfy | Origami | day 13: paper folds |
| vents.dfy | Vents | day 5: line rasterising and overlaps |
| caves.dfy | Caves | day 12: path enumeration |
| trajectory.dfy | Trajectory | day 17: the probe simulation |
| crabs.dfy | Crabs | day 7: median and mean fuel costs |
| diagnostic.dfy | Diagnostic | day 3: bit counts and the gamma/epsilon words |
| dive.dfy | Dive | day 2: submarine commands |
| trench.dfy | Trench | day 20: image enhancement against the infinite image |
| octopus.dfy | Octopus | day 11: flash cascades |
| scanners.dfy | Scanners | day 19: distance fingerprints, rotations, matrix product |
| tiles.dfy | Tiles | day 15: map tiling |
| smoke.dfy | Smoke | day 9: low points and risk |
| segments.dfy | Segments | day 8: entry parsing and unique-length counts |

Conventions used throughout:

- Integers are unbounded. Where the source's unsigned wrap-around matters
  it is written out: the 64-bit accumulator of day 16's literals, day 3's
  `size_t` complement, day 8's `npos + 1`, and day 15's truncation to
  `char`.
- A C++ exception or an out-of-range read in reachable code becomes
  `None`.
- `std::unordered_map` counters are multisets, since a missing key counts
  as zero.
- Recursion whose termination the source does not guarantee takes a
  `fuel` bound and returns `None` when the fuel runs out.

## Model

| member | source | states |
|---|---|---|
| Cuboids.MakeCube | day22/cube.h:33-40 | the six-coordinate constructor demands lower ≤ upper on every axis, and the cube it builds is non-empty and holds both corners |
| Cuboids.MakeCube2 | day22/cube.h:27-31 | the four-coordinate constructor demands lower ≤ upper in x and y; its cube is non-empty and every point of it has z = 0 |
| Cuboids.DefaultCubeIsEmpty | day22/cube.h:18-19 | the default cube (1,1,1)-(-1,-1,-1) is empty and holds no lattice point |
| Cuboids.CubeLessIsStrictTotalOrder | day22/cube.h:48-58 | ordering cubes by lower corner, then upper corner, is irreflexive, transitive, total and asymmetric, with `==` comparing both corners |
| Cuboids.EmptyIffNoPoint | day22/cube.h:60-64 | `is_empty` (some lower coordinate above its upper one) holds exactly when the cube contains no lattice point |
| Cuboids.IntersectsSymmetric | day22/cube.h:66-73 | `intersects` is symmetric |
| Cuboids.DisjointIffNoCommonPoint | day22/cube.h:66-73 | for non-empty cubes, not intersecting means sharing no lattice point |
| Cuboids.Intersection | day22/cube.h:75-90 | a point is in the intersection exactly when it is in both cubes; an empty intersection is the default empty cube |
| Cuboids.IntersectsIffOverlap | day22/cube.h:66-90 | the intersection is non-empty exactly when the cubes intersect and neither is empty |
| Cuboids.IntersectionInsideBoth | day22/cube.h:75-90 | a non-empty intersection lies inside both operands |
| Cuboids.Volume | day22/cube.h:92-100 | the volume is zero exactly for an empty cube |
| Cuboids.Subtract | day22/cube.h:108-157 | without an intersection the result is `[this]`; otherwise at most 6 pieces, each non-empty, inside `this` and apart from `other` |
| Cuboids.PiecesSplit | day22/cube.h:117-154 | the six candidate pieces, cut left/right, front/back, bottom/top around the overlap, are non-empty, inside `this`, apart from `other` and from each other |
| Cuboids.SubtractPiecesDisjoint | day22/cube.h:108-157 | no two pieces of a split intersect |
| Cuboids.PiecePoints | day22/cube.h:120-154 | a point lies in some candidate piece exactly when it is in `this` and outside the overlap |
| Cuboids.SubtractIsDifference | day22/cube.h:108-157 | the pieces cover exactly the points of `this` that are not in `other` |
| Cuboids.PieceVolumes | day22/cube.h:120-154 | each candidate piece's volume is the product of its slab widths, zero when the piece is absent |
| Cuboids.SubtractConservesVolume | day22/cube.h:108-157 | volume(this) = sum of the pieces' volumes + volume of the overlap |
| Cuboids.VolumeSumAppend | day22/solution.cpp:33-41 | the total volume of a list is additive over concatenation |
| Cuboids.SubtractAllCovers | day22/solution.cpp:65-72 | the pieces kept by `add_cube` cover exactly the old points outside the new cube |
| Cuboids.SubtractAllDisjoint | day22/solution.cpp:65-72 | splitting a pairwise-disjoint list of non-empty cubes gives a pairwise-disjoint list |
| Cuboids.SubtractAllVolume | day22/solution.cpp:65-72 | splitting never increases the total volume |
| Cuboids.AddCube | day22/solution.cpp:65-78 | when the instruction turns cubes on, the new cube ends the list |
| Cuboids.AddCubeCovers | day22/solution.cpp:65-78 | after `add_cube` a point is covered iff it was covered and is outside the new cube, or it is in the new cube and `turn_on` |
| Cuboids.AddCubeShape | day22/solution.cpp:65-78 | every kept cube is apart from the new cube, the new cube is last iff `turn_on`, and disjointness of the list is preserved |
| Cuboids.AddCubeOffShrinks | day22/solution.cpp:65-78 | with `turn_on` false the total volume does not grow |
| Cuboids.Reboot | day22/solution.cpp:81-111 | the folded on-list is always non-empty cubes, pairwise disjoint; in the first phase every cube lies within [-50, 50]³ |
| Cuboids.RebootMeaning | day22/solution.cpp:81-111 | a point is covered by the folded list exactly when the last applied instruction containing it turns it on; the first phase skips boxes leaving [-50, 50] |
| Bitstream.HexDigitInvertsHexChars | day16/bitstream.h:10-15 | `decode_hex(char)` maps each of '0'-'9', 'A'-'F' back to its digit value 0-15 |
| Bitstream.HexDigitLowerCaseIsZero | day16/bitstream.h:10-20 | lower-case 'a'-'f' fall through to the error path and decode to 0 |
| Bitstream.DecodeHex | day16/bitstream.h:22-32 | the string decoder yields ⌈n/2⌉ bytes, byte i = 16·h[2i] + h[2i+1], a missing trailing nibble read as 0 |
| Bitstream.DecodeHexOfEncodeHex | day16/bitstream.h:22-32 | decoding the upper-case hex rendering of any bytes gives those bytes back |
| Bitstream.Open | day16/bitstream.h:40-45 | the constructor holds the decoded text and starts the cursor (`tell`) at bit 0 |
| Bitstream.ReadAsWritten | day16/bitstream.h:47-67 | `read` as written fails exactly when byte (pos+bits)/8 is past the buffer; otherwise it returns the MSB-first field [pos, pos+bits) and advances the cursor by `bits` |
| Bitstream.ReadAsWrittenOverruns | day16/bitstream.h:50-60 | reading all 8 bits of a one-byte buffer indexes a second byte as written; the corrected read returns 255 |
| Bitstream.Read | day16/bitstream.h:47-67 | the corrected `read` fails exactly when the field leaves the buffer, advances the cursor by `bits` and returns a value below 2^bits |
| Bitstream.ReadIsField | day16/bitstream.h:58-66 | the shifted-in bytes, shifted right and masked, are the buffer bits [pos, pos+bits) read MSB-first |
| Bitstream.ReadAsWrittenAgrees | day16/bitstream.h:47-67 | wherever the as-written read is defined it returns what the corrected read returns |
| Packets.Decode | day16/solution.cpp:109-124 | a decoded packet has a 3-bit version and id, a literal has no sub-packets, an operator has value 0, and the cursor moved at least 6 bits |
| Packets.DecodeLiteral | day16/solution.cpp:126-135 | the literal reader consumes whole 5-bit groups and keeps the accumulator within `size_t` |
| Packets.DecodeSubpackets | day16/solution.cpp:137-155 | the sub-packet reader only moves forward and yields packets with valid headers |
| Packets.DecodeCount | day16/solution.cpp:141-145 | length type 1 decodes exactly the counted number of packets |
| Packets.DecodeUntil | day16/solution.cpp:146-152 | length type 0 decodes packets until the cursor reaches start + length, at least one when the length is positive |
| Packets.VersionSumIsSumOverTree | day16/solution.cpp:173-182 | the recursive `version_sum` is the sum of the versions of every packet in the tree |
| Packets.LiteralReadableDecodes | day16/solution.cpp:126-135 | reading groups led by 1 and a last group led by 0 shifts in every nibble, in order |
| Packets.AllReadableDecodes | day16/solution.cpp:141-145 | with length type 1, reading the counted number of packets gives back exactly the packets encoded there and stops right after them |
| Packets.AllReadableDecodesUntil | day16/solution.cpp:146-152 | with length type 0, reading packets until the cursor reaches the end of their encodings gives back exactly those packets, and no packet more |
| Packets.DecodeOfEncode | day16/solution.cpp:109-155 | the decoder reads back any well-formed packet encoded at any position, whichever length type (0 with a bit length, 1 with a packet count) each of its operators was written with, and stops right after its encoding |
| Packets.DecodeTransmission | day16/solution.cpp:109-155 | a transmission holding an encoded packet followed by any padding decodes to that packet |
| Packets.Part1 | day16/solution.cpp:171-193 | `part1` has a total exactly when every line decodes |
| Packets.LineVersionSumOfEncoding | day16/solution.cpp:184-190 | a line with the hex text of an encoded packet contributes the sum of the versions over that packet's tree |
| Snailfish.InOrder | day18/solution.cpp:79-89 | the left-to-right leaves of a snailfish number; every number has at least one |
| Snailfish.LeavesBound | day18/solution.cpp:79-103 | a number of depth d has at most 2^d leaves, and a pair has at least two |
| Snailfish.Find | day18/solution.cpp:105-113 | the first position holding the node, or the list's length when it is absent; no earlier position holds it |
| Snailfish.FindDistinct | day18/solution.cpp:105-113 | in a list of distinct leaves, find returns the leaf's own position |
| Snailfish.Prev | day18/solution.cpp:115-122 | there is a previous leaf exactly when the position is past the first and inside the list, and it is the one before |
| Snailfish.Next | day18/solution.cpp:124-131 | there is a next leaf exactly when a position follows inside the list, and it is the one after |
| Snailfish.ExplodeListOfParts | day18/solution.cpp:151-172 | exploding the pair [x,y] that sits after the leaves p and before s adds x to the last of p, y to the first of s, and leaves 0 in its place |
| Snailfish.PrevAddsToLast | day18/solution.cpp:154-157 | adding the left value to the previous leaf touches only the last leaf before the pair |
| Snailfish.NextAddsToFirst | day18/solution.cpp:159-162 | adding the right value to the next leaf touches only the first leaf after the pair |
| Snailfish.AddLeftmost | day18/solution.cpp:159-162 | adding a carried value into a subtree changes only its first leaf and keeps its depth |
| Snailfish.AddRightmost | day18/solution.cpp:154-157 | adding a carried value into a subtree changes only its last leaf and keeps its depth |
| Snailfish.ExplodeAtNoneIff | day18/solution.cpp:133-149 | the recursive explode from a depth finds nothing exactly when no pair lies four pairs deep |
| Snailfish.ExplodeAtLeaves | day18/solution.cpp:133-175 | when a pair lies four deep, the explosion splits the leaves into p, [x,y], s and rewrites them as described by the list operation |
| Snailfish.Explode | day18/solution.cpp:133-175 | explode applies exactly when some pair is nested inside four pairs |
| Snailfish.ExplodeLeaves | day18/solution.cpp:133-175 | on a number of depth 5 the explosion acts on the leaf list as the list operation at the leftmost deep pair |
| Snailfish.FirstBig | day18/solution.cpp:177-208 | the position of the leftmost leaf above 9, or the leaf count when there is none |
| Snailfish.FirstBigAppend | day18/solution.cpp:207 | the leftmost big leaf of a pair is in its left side if that side has one, else in its right side |
| Snailfish.Split | day18/solution.cpp:177-208 | split applies exactly when some leaf exceeds 9, and deepens the number by at most one |
| Snailfish.SplitHalves | day18/solution.cpp:182-188 | the floor and ceiling halves of a split leaf add back to it and differ by at most one |
| Snailfish.SplitLeaves | day18/solution.cpp:177-208 | a split replaces only the leftmost leaf above 9 by its two halves; every other leaf stays in order |
| Snailfish.Reduce | day18/solution.cpp:210-221 | a finished reduction has no pair four deep and no leaf above 9 |
| Snailfish.ReduceFixpoint | day18/solution.cpp:210-221 | a number is unchanged by reduce exactly when it is already reduced |
| Snailfish.ReduceIdempotent | day18/solution.cpp:210-221 | reducing a reduced result again gives it back |
| Snailfish.ReduceStepDepth | day18/solution.cpp:213-218 | a reduction step on a number of depth at most 5 keeps the depth at most 5 |
| Snailfish.ExplodeAtDepth | day18/solution.cpp:133-175 | exploding never deepens a number |
| Snailfish.AddNodes | day18/solution.cpp:223-233 | the sum of two numbers, when the reduction finishes, is reduced |
| Snailfish.AddNodesStart | day18/solution.cpp:223-230 | the pair of two reduced numbers has depth at most 5 and their leaves side by side |
| Snailfish.EvalIsWeightedSum | day18/solution.cpp:279-287 | the magnitude is the sum of each leaf times 3 to the number of left turns and 2 to the number of right turns above it |
| Snailfish.EvalMonotone | day18/solution.cpp:279-287 | raising one leaf never lowers the magnitude, and changes only that leaf |
| Snailfish.Parse | day18/solution.cpp:235-258 | a successful parse moves the position forward within the text and yields leaves that are single digits |
| Snailfish.ParseShownAt | day18/solution.cpp:235-258 | when the text at a position spells out a number, parsing there returns it and stops just past its text |
| Snailfish.ShowWidth | day18/solution.cpp:59-69 | the printed form of a digit number is as long as its width |
| Snailfish.ParseOfShow | day18/solution.cpp:235-258 | parsing the printed form of a number, followed by anything, gives the number back and its length |
| Amphipod.StateRelations | day23/solution.cpp:20-35 | equality compares the cells only, so it is an equivalence under which states of different cost can be equal; `<` compares costs only, a strict weak order under which two states are unordered exactly when their costs are equal |
| Amphipod.AllMoves | day23/solution.cpp:99-115 | the move table has an entry only for a cell of the burrow that is not a hallway cell in front of a room, and every move in it leads to a cell of the burrow and costs at least one step |
| Amphipod.MoveGraphSymmetric | day23/solution.cpp:99-115 | every move in the table can be made back the other way at the same cost of 1 or 2 steps |
| Amphipod.AmphipodCost | day23/solution.cpp:117-122 | only A, B, C and D have an energy cost per step, and it is positive |
| Amphipod.AmphipodHome | day23/solution.cpp:124-129 | only A, B, C and D have a home room: two cells, one above the other, in the rooms' top row 11-14 |
| Amphipod.RestrictedMovesEnterHome | day23/solution.cpp:99-129 | a restricted move always leads into a cell of the home of the amphipod it names |
| Amphipod.RoomContainsOnly | day23/solution.cpp:131-144 | true exactly when the character is an amphipod and its home holds nothing but empty cells and amphipods of its own kind |
| Amphipod.Occupied | day23/solution.cpp:146-156 | lists, in increasing order, exactly the occupied cells in a range |
| Amphipod.FindAmphipodsAsWritten | day23/solution.cpp:146-156 | the loop as written scans only cells 0-17, so it reports the occupied cells among those |
| Amphipod.FindAmphipodsMissesLastCell | day23/solution.cpp:149 | an amphipod at the bottom of room D, in cell 18, is never found |
| Amphipod.FindAmphipods | day23/solution.cpp:146-156 | the corrected scan lists every occupied cell of the 19, in increasing order |
| Amphipod.FilterMoves | day23/solution.cpp:163-174 | keeps exactly the moves that are allowed: to an empty cell other than the one the amphipod came from, and through a restriction only into its own home when that room is free of strangers |
| Amphipod.ValidMoves | day23/solution.cpp:159-177 | the valid moves are defined exactly at the cells the table knows, and are the table's moves that the rules allow |
| Amphipod.ValidMoveIsEdge | day23/solution.cpp:159-177 | a valid move follows an edge of the burrow into an empty cell other than the previous one; a restricted move enters only the mover's own home, and only when that room holds no strangers |
| Amphipod.Swap | day23/solution.cpp:185 | exchanges the two cells and leaves every other cell alone |
| Amphipod.SwapIsPermutation | day23/solution.cpp:185 | a swap rearranges the cells without changing what is in them, and swapping again undoes it |
| Amphipod.Successor | day23/solution.cpp:184-186 | a move makes a new state only for an amphipod, swapping it into the target cell and adding its cost per step times the move's steps |
| Amphipod.SuccessorProperties | day23/solution.cpp:184-186 | the new state holds the same amphipods, costs strictly more, and has the mover at the target |
| Amphipod.Visit | day23/solution.cpp:188-198 | after a state is visited, the states found include it at no more than its cost, and every earlier finding is kept or improved |
| Amphipod.NextStatesFrom | day23/solution.cpp:180-200 | the recursive search only adds or cheapens states, each a rearrangement of the start that costs more, and every state one valid move of this amphipod reaches is found at its cost or cheaper |
| Amphipod.TryMoves | day23/solution.cpp:183-199 | trying a list of moves in turn keeps every earlier finding, kept or improved, and finds the state each move leads to at its cost or cheaper |
| Amphipod.FromEach | day23/solution.cpp:207-209 | searching from each amphipod in turn keeps every earlier finding, kept or improved, and finds every state one valid move of any of them reaches |
| Amphipod.NextStates | day23/solution.cpp:203-217 | the next states never include the starting arrangement; each is a rearrangement of the start's cells that costs strictly more; and every state that one valid move of any amphipod reaches is among them, at its cost or cheaper |
| Polymer.PairHash | day14/solution.cpp:27-30 | the hash of two characters fits in 16 bits |
| Polymer.UnhashOfHash | day14/solution.cpp:27-34 | for 8-bit characters, unhashing a pair's hash gives the pair back |
| Polymer.HashOfUnhash | day14/solution.cpp:27-34 | every 16-bit hash is the hash of its unhashed pair |
| Polymer.GenerationOfPair | day14/solution.cpp:60-72 | in one generation a pair XY with rule Z occurring n times adds n to XZ, n to ZY and n to Z's count on top of what the other pairs give; a pair without a rule gives nothing and disappears |
| Polymer.PairsOf | day14/solution.cpp:44-48 | a pattern of length L has L - 1 adjacent pairs |
| Polymer.FastFoldZero | day14/solution.cpp:44-49 | before any generation the counts are the pattern's letter frequencies, as many as its length |
| Polymer.Insert | day14/solution.cpp:55-70 | one step of pair insertion on the polymer keeps its first element |
| Polymer.InsertCounts | day14/solution.cpp:55-72 | after one insertion step the polymer's pairs are the pairs spawned by ruled pairs plus the unruled pairs, and its elements are the old ones plus one inserted element per ruled pair |
| Polymer.FastFoldIsPolymer | day14/solution.cpp:36-79 | for 8-bit patterns and rules, the counts after t generations are exactly the element counts of the polymer grown by t steps of pair insertion |
| Polymer.FastFold | day14/solution.cpp:36-79 | computes the counts only; `Polymer.FastFoldZero` and `Polymer.FastFoldIsPolymer` state that they are the element counts of the polymer grown letter by letter |
| Polymer.MaxCount | day14/solution.cpp:86 | the largest count among the 8-bit characters, attained by one of them |
| Polymer.MinCount | day14/solution.cpp:86 | the smallest count among the characters present, attained by one of them; zero exactly when none is present |
| Polymer.Spread | day14/solution.cpp:82-98 | the answer is the largest difference between the counts of two elements present, and some two elements differ by exactly that much |
| Polymer.ExtremesPresent | day14/solution.cpp:86 | the maximum and minimum are counts of elements present, the minimum no larger than the maximum |
| Polymer.SpreadZeroIff | day14/solution.cpp:82-98 | the answer is 0 exactly when every element present occurs equally often |
| Lanternfish.Tally | day6/solution.cpp:33-38 | the count vector has one entry per age 0..max_age, and each entry is how many starting fish have that age |
| Lanternfish.TallySum | day6/solution.cpp:33-38 | the counts add up to the number of starting fish |
| Lanternfish.StepShape | day6/solution.cpp:41-53 | after one day, age i holds what age i+1 held, and ages 6 and 8 also receive every fish that was at age 0 |
| Lanternfish.StepSum | day6/solution.cpp:41-53 | one day adds exactly as many fish as were at age 0 |
| Lanternfish.SpawnFishNoDays | day6/solution.cpp:32-57 | with no days the answer is the number of starting fish |
| Lanternfish.SpawnFishGrowth | day6/solution.cpp:40-56 | from one day to the next the answer grows by that day's age-0 count |
| Lanternfish.AgedCounts | day6/solution.cpp:43-50 | ageing every fish once moves each age down by one and sends the fish at age 0 to age 6 |
| Lanternfish.TallyOfIndividuals | day6/solution.cpp:40-53 | one day on the count vector is the count vector of the fish-by-fish simulation of that day |
| Lanternfish.DaysAreTallies | day6/solution.cpp:40-54 | after any number of days the count vector is the count vector of the fish-by-fish simulation |
| Lanternfish.SpawnFishIsSimulation | day6/solution.cpp:32-57 | the answer is the number of fish the fish-by-fish simulation holds after that many days |
| Lanternfish.SpawnFish | day6/solution.cpp:32-57 | computes the count only; `Lanternfish.SpawnFishNoDays`, `Lanternfish.SpawnFishGrowth` and `Lanternfish.SpawnFishIsSimulation` state that it is the size of the fish-by-fish simulation |
| Dice.Advance | day21/solution.cpp:41 | from a space of the track a forward roll lands on a space 1..10 |
| Dice.AdvanceWraps | day21/solution.cpp:41 | the space reached is `roll` spaces on, modulo 10 |
| Dice.Roll | day21/solution.cpp:34-38 | turn n's total is the sum of the three deterministic rolls 3n-2, 3n-1 and 3n |
| Dice.Mover | day21/solution.cpp:39 | odd turns move the first player and even turns the second |
| Dice.TenSidedTurn | day21/solution.cpp:33-44 | a turn changes only the player whose turn it is |
| Dice.TurnMovesMover | day21/solution.cpp:33-44 | the mover advances by the turn's roll and adds the space reached to a score that strictly grows; both pawns stay on the track |
| Dice.MaxScoreIsMax | day21/solution.cpp:46-53 | no score exceeds the maximum, and unless it is 0 some player holds it |
| Dice.PlayFromIsGame | day21/solution.cpp:60-65 | the loop ends after some number of turns n, at the position reached by turns 1..n, with a score of at least 1000 |
| Dice.PlayFromStopsFirst | day21/solution.cpp:60-65 | no turn count between the start and the end of the loop has a score of 1000 |
| Dice.Part1StopsAtFirstWin | day21/solution.cpp:56-72 | part 1 plays exactly until a score first reaches 1000: the turn count it uses is the first at which some score is at least 1000 |
| Dice.Part1 | day21/solution.cpp:56-72 | computes the answer only; `Dice.Part1StopsAtFirstWin` states that it stops at the first turn where some score reaches 1000 |
| Dice.ThreeDiceTable | day21/solution.cpp:76-84 | three three-sided dice roll the totals 3..9 in 1, 3, 6, 7, 6, 3 and 1 ways |
| Dice.RollWaysAreDiceCounts | day21/solution.cpp:76-84 | the table lists the totals 3..9 in order, each with its number of dice outcomes, 27 in all |
| Dice.Branch | day21/solution.cpp:92-97 | a roll keeps the pawn on the track and strictly raises the score |
| Dice.QuantumAdditive | day21/solution.cpp:74-100 | the win counts are additive in the number of ways a call stands for |
| Dice.QuantumLinear | day21/solution.cpp:74-100 | a call standing for k ways counts k times the wins of a call standing for one |
| Dice.QuantumCoversAll | day21/solution.cpp:74-100 | every universe a call stands for is won by someone: the two counts add up to at least the ways |
| Dice.QuantumZero | day21/solution.cpp:74-100 | a call standing for no ways counts no wins |
| Dice.Quantum | day21/solution.cpp:74-100 | computes the win counts only; `Dice.QuantumZero`, `Dice.QuantumAdditive`, `Dice.QuantumLinear` and `Dice.QuantumCoversAll` state how they depend on the ways |
| Dice.Part2 | day21/solution.cpp:102-113 | the answer is the larger of the two win counts, and at least one |
| Syntax.Find | day10/solution.cpp:25 | finds the first occurrence of the two-character pattern, or reports that there is none |
| Syntax.ReducePattern | day10/solution.cpp:23-31 | deleting one pattern until it is gone removes an even count of characters, leaves no occurrence, and removes nothing exactly when there was none |
| Syntax.Round | day10/solution.cpp:36-40 | one round of the four deletions removes nothing exactly when no matching pair is adjacent, and then leaves the line unchanged |
| Syntax.RoundStack | day10/solution.cpp:36-40 | a round of deletions leaves unchanged the result of scanning the line with a bracket stack |
| Syntax.ReduceString | day10/solution.cpp:33-44 | the result has no adjacent matching pair and is no longer than the line |
| Syntax.ReduceStringIdempotent | day10/solution.cpp:33-44 | a line without adjacent pairs is its own reduction, and reducing twice is reducing once |
| Syntax.DeletePair | day10/solution.cpp:27 | erasing one adjacent matching pair does not change the bracket-stack scan |
| Syntax.ReduceStringIsStack | day10/solution.cpp:33-44 | the reduction is exactly what a left-to-right bracket stack leaves: opening brackets pushed, a closer popping its match, other closers kept |
| Syntax.ScoreChar | day10/solution.cpp:46-59 | a character scores more than 0 exactly when it is one of the closers `)]}>` |
| Syntax.FindCloser | day10/solution.cpp:65 | the first position of a closer, or none when the line has no closer |
| Syntax.StackShowsFirstIllegal | day10/solution.cpp:64-71 | the first closer left by the stack scan is the first character that closes the wrong bracket |
| Syntax.LineScore | day10/solution.cpp:64-75 | a line scores the table value of its first wrongly closing character, and 0 exactly when it has none |
| Syntax.Part1CountsCorrupted | day10/solution.cpp:62-79 | the total is 0 exactly when no line is corrupted |
| Syntax.Part1 | day10/solution.cpp:62-79 | no lines total 0; `Syntax.Part1CountsCorrupted` states that the total is 0 exactly when no line is corrupted |
| Bingo.EraseKeeps | day4/solution.cpp:35 | after erasing a number a row holds exactly its other numbers |
| Bingo.RemoveNumber | day4/solution.cpp:31-44 | the number is erased from every row of the board, and the flag is raised exactly when some row is then empty |
| Bingo.RemoveNumberNumbers | day4/solution.cpp:31-44 | after a draw the board holds exactly its old numbers less the one drawn |
| Bingo.BoardScoreIsSetSum | day4/solution.cpp:48-58 | the board score is the sum of the set of numbers left on the board, each counted once |
| Bingo.ScoreAfterRemove | day4/solution.cpp:31-58 | a draw lowers the board score by the number drawn when it was on the board, and otherwise leaves it alone |
| Bingo.AddCols | day4/solution.cpp:114-127 | the board keeps its rows and gains one more row per column, holding that column's entries in row order |
| Bingo.EraseAllKeeps | day4/solution.cpp:31-44 | after a sequence of draws a row holds exactly its numbers that were not drawn |
| Bingo.RowUsedUp | day4/solution.cpp:36 | a row is empty after the draws exactly when every entry of it was drawn |
| Bingo.EmptyRowIsBingo | day4/solution.cpp:112-127 | with the columns added, some row becomes empty exactly when a whole row or a whole column of the original square board was drawn |
| Bingo.RemoveAllStep | day4/solution.cpp:66-68 | drawing one more number acts on the board as erasing it from the board left by the earlier draws |
| Bingo.DrawNone | day4/solution.cpp:67-71 | a pass over the boards finds no winner exactly when no board wins on this number, and then every board has the number erased |
| Bingo.DrawFirst | day4/solution.cpp:67-71 | the pass answers for the first board, in list order, that wins on this number: its score times the number |
| Bingo.Part1FirstWinner | day4/solution.cpp:63-75 | part 1 answers for the earliest draw at which some board wins, and the first board in order that wins on it |
| Bingo.Part1NoWinner | day4/solution.cpp:74 | part 1 answers 0 when no board ever wins |
| Bingo.Part1 | day4/solution.cpp:63-75 | computes the answer only; `Bingo.Part1FirstWinner` and `Bingo.Part1NoWinner` state that it is the score of the first board in order to win at the earliest winning draw, times that draw, and 0 when no board ever wins |
| Bingo.KeepAfter | day4/solution.cpp:90-97 | the boards part 2 keeps after a draw are the boards that have not yet won, with all numbers drawn so far erased |
| Bingo.Part2IsLastWinner | day4/solution.cpp:80-110 | part 2 answers at the first draw where exactly one board is still in play and it wins, with that board's score times the number; 0 when that never happens |
| Bingo.Part2 | day4/solution.cpp:80-110 | computes the answer only; `Bingo.Part2IsLastWinner` states that it is read off the original boards at the first draw where exactly one board is in play and it wins |
| Origami.FoldDot | day13/solution.cpp:33-46 | a folded dot lands on the kept side of the line and keeps its coordinate along the line |
| Origami.FoldPoints | day13/solution.cpp:30-50 | after a fold no dot lies beyond the line |
| Origami.FoldPointsShows | day13/solution.cpp:30-50 | a dot shows after the fold exactly when it is on the kept side and it, or its mirror image across the line, was a dot before |
| Origami.FoldDotKept | day13/solution.cpp:37-38 | a dot on the kept side does not move |
| Origami.ImageNoLarger | day13/solution.cpp:30-50 | a fold never adds dots |
| Origami.FoldIdempotent | day13/solution.cpp:30-50 | folding twice along the same line is folding once |
| Origami.Part1 | day13/solution.cpp:80-86 | the count after the first fold is at most the starting count |
| Origami.FoldAllNoLarger | day13/solution.cpp:91-94 | folding along every line in turn never adds dots |
| Origami.FoldAllKeptByLast | day13/solution.cpp:91-94 | after all the folds every dot is on the kept side of the last line |
| Origami.FoldAll | day13/solution.cpp:91-94 | computes the folded dots only; `Origami.FoldAllNoLarger` and `Origami.FoldAllKeptByLast` state that folding never adds dots and leaves every dot on the kept side of the last line |
| Vents.MakeLine | day5/solution.cpp:24-31 | the first two numbers give the start, the next two the end, and a point whose numbers are missing stays at the origin |
| Vents.Segment | day5/solution.cpp:51-63 | the walk of a line lists one point per step plus the end point |
| Vents.ArrivesAt | day5/solution.cpp:57-60 | on a horizontal, vertical or 45-degree line the unit steps reach the end point |
| Vents.PointsOn | day5/solution.cpp:51-63 | the loop lists the walk: it starts at p1, ends at p2, and each point is the previous one moved by the sign of each coordinate's change |
| Vents.SegmentIsOnLine | day5/solution.cpp:51-63 | a point is on the walk exactly when it lies in the box spanned by the end points and on the straight line through them |
| Vents.SegmentDistinct | day5/solution.cpp:51-63 | the walk never visits a point twice |
| Vents.AxisLines | day5/solution.cpp:70-72 | the filter keeps exactly the lines whose end points share an x or a y coordinate |
| Vents.CoverCount | day5/solution.cpp:75-79 | the count recorded for a point is the number of lines whose walk covers it |
| Vents.HitsTwice | day5/solution.cpp:82-84 | a point is counted at least twice exactly when two different lines cover it |
| Vents.OverlappingIsTwoLines | day5/solution.cpp:66-103 | the points the answer counts are exactly those covered by two different lines |
| Vents.OverlappingIsCrossings | day5/solution.cpp:75-84 | the points counted more than once are exactly the points on two different lines |
| Vents.Part1 | day5/solution.cpp:66-87 | the answer is the number of points that lie on two different horizontal or vertical lines |
| Vents.Part2 | day5/solution.cpp:89-103 | the answer is the number of points that lie on two different lines |
| Caves.SearchStops | day12/solution.cpp:98-104 | reaching "end" records the path ending there and goes no further |
| Caves.SearchUnfold | day12/solution.cpp:106-119 | elsewhere the search erases the cave from the map unless it is the promoted one (which clears the promotion), and recurses into each neighbour in order |
| Caves.SearchShape | day12/solution.cpp:43-62 | every recorded path continues the current path through the current cave and ends at "end" |
| Caves.SearchWalks | day12/solution.cpp:43-62 | every recorded path follows passages of the original map |
| Caves.SearchVisits | day12/solution.cpp:52-56 | every recorded path enters each small cave other than the promoted one at most once, and the promoted one at most twice |
| Caves.SearchFinds | day12/solution.cpp:43-62 | every route that enters no small cave twice and follows passages to "end" is recorded |
| Caves.Search | day12/solution.cpp:43-62 | computes the recorded paths only; `Caves.SearchStops`, `Caves.SearchUnfold`, `Caves.SearchShape`, `Caves.SearchWalks`, `Caves.SearchVisits` and `Caves.SearchFinds` state what it records |
| Caves.Part1Routes | day12/solution.cpp:38-68 | part 1 records exactly the routes from "start" to "end" along passages that enter no small cave twice |
| Caves.Part1 | day12/solution.cpp:38-68 | computes the count only; `Caves.Part1Routes` states that the paths counted are exactly the routes from "start" to "end" along passages that enter no small cave twice |
| Caves.FlattenIsJoin | day12/solution.cpp:70-80 | flattening non-empty names joins them with commas |
| Caves.FlattenSplits | day12/solution.cpp:70-80 | splitting a flattened path at the commas gives back its cave names |
| Caves.InPath | day12/solution.cpp:82-90 | true exactly when the cave is on the path |
| Caves.Part2Rule | day12/solution.cpp:92-127 | every path part 2 records goes from "start" to "end" along passages, entering some promotable cave at most twice and every other small cave at most once |
| Caves.RecordedInjective | day12/solution.cpp:70-80 | two recorded paths with the same flattened text are the same path |
| Caves.Part2CountsPaths | day12/solution.cpp:92-133 | the number of distinct strings part 2 collects is the number of distinct paths recorded for all the promoted caves |
| Caves.Part2IsImage | day12/solution.cpp:92-133 | the strings part 2 collects are the flattened texts of the paths recorded for all the promoted caves |
| Caves.Part2 | day12/solution.cpp:92-133 | computes the count only; `Caves.Part2IsImage` and `Caves.Part2CountsPaths` state that it is the number of distinct paths recorded, and `Caves.Part2Rule` what each path is |
| Trajectory.Step | day17/solution.cpp:60-61 | a step never moves the probe left, moves it up by its vertical speed, and lowers both speeds by one |
| Trajectory.Simulate | day17/solution.cpp:54-70 | simulate returns the highest point up to the first step that lands in the box, or 0 when the probe passes the box or drops below it first |
| Trajectory.HeightAfter | day17/solution.cpp:61 | after n steps the vertical speed is dy - n and the height is n·dy - n(n-1)/2 |
| Trajectory.DriftAfter | day17/solution.cpp:60 | the horizontal speed falls by one per step, the probe never moves left, and from step dx on it stays where it is |
| Crabs.Sort | day7/solution.cpp:30-31 | the sorted crabs are in order and are a rearrangement of the input |
| Crabs.CostPermutation | day7/solution.cpp:37-43 | the fuel to reach a position does not depend on the order of the crabs |
| Crabs.MedianIsCheapest | day7/solution.cpp:33-43 | on sorted positions, any point between the two middle crabs costs no more than any other position |
| Crabs.Part1IsOptimal | day7/solution.cpp:28-45 | part 1's cost, at the upper median, is the least fuel over every meeting position, and some position costs exactly that |
| Crabs.Part1 | day7/solution.cpp:28-45 | computes the answer only; `Crabs.Part1IsOptimal` states that it is the least fuel over every meeting position and that some position costs exactly that |
| Crabs.TriIsGauss | day7/solution.cpp:53-55 | the closed form d(d+1)/2 is the sum 1 + 2 + ... + d |
| Crabs.FuelExpenseZero | day7/solution.cpp:50-59 | no fuel is spent exactly when every crab is already at the position |
| Crabs.FuelStep | day7/solution.cpp:50-59 | moving the meeting point one to the right changes the fuel by n·p - (sum of positions) + (crabs at or left of p) |
| Crabs.FuelFallsToMean | day7/solution.cpp:61-68 | the fuel does not rise when the meeting point moves right towards the floored mean |
| Crabs.FuelRisesFromMean | day7/solution.cpp:61-68 | right of the floored mean plus one, the fuel does not fall when the point moves further right |
| Crabs.Part2IsOptimal | day7/solution.cpp:61-71 | trying only the floored mean and the next position finds the least fuel over every meeting position |
| Crabs.Part2 | day7/solution.cpp:61-71 | computes the answer only; `Crabs.Part2IsOptimal` states that no meeting position costs less fuel at the growing rate |
| Diagnostic.OnesCountsLines | day3/solution.cpp:27-39 | the running count for a bit position is the number of lines with a '1' there |
| Diagnostic.CountOnes | day3/solution.cpp:27-32 | the lambda adds one to each position where the line has a '1' and leaves the other counts alone |
| Diagnostic.BitCounts | day3/solution.cpp:37-39 | the accumulated counts give, for each position of the first line's width, the number of lines with a '1' there |
| Diagnostic.CommonBits | day3/solution.cpp:39-42 | the transform gives one bit, 0 or 1, per position of the width |
| Diagnostic.PushNoWrap | day3/solution.cpp:46-53 | a shift that stays inside the 64-bit word appends the bit, or its complement, below the value |
| Diagnostic.Push | day3/solution.cpp:45-53 | computes one shift only; `Diagnostic.PushNoWrap` and `Diagnostic.WordComplement` state that inside the word it appends the bit or its complement |
| Diagnostic.WordComplement | day3/solution.cpp:44-54 | up to 64 bits the fold reads the bits as a binary number, and the two folds add up to all ones over the width |
| Diagnostic.Part1 | day3/solution.cpp:26-58 | part 1 is the most-common-bits number times the least-common-bits number, taken mod 2^64 |
| Diagnostic.GammaEpsilon | day3/solution.cpp:37-54 | bit i of the most-common-bits number is set exactly when more than half the lines (rounded down) have a '1' at i, and the two numbers add up to 2^width - 1 |
| Dive.CommandIsWellFormed | day2/solution.cpp:60-70 | exactly the words "forward", "down" and "up" give a command, and each goes ahead or vertically, never both and never back |
| Dive.PositionIsSum | day2/solution.cpp:28-36 | part 1's final position is the componentwise sum of the commands |
| Dive.Part1 | day2/solution.cpp:28-36 | the answer is the total of the forward moves times the total of the vertical moves |
| Dive.Steer | day2/solution.cpp:40-48 | a forward move goes ahead by d and down by aim·d, keeping the aim; any other command changes only the aim, by its vertical part |
| Dive.SteerIdle | day2/solution.cpp:40-48 | a command with no forward and no vertical part changes nothing |
| Dive.NavigateFollowsPosition | day2/solution.cpp:28-53 | on read commands part 2's position equals part 1's, its aim equals part 1's depth, and its depth is the sum over forward moves of d times the vertical total before them |
| Dive.Part2 | day2/solution.cpp:38-53 | on read commands the answer is the total of the forward moves times the descent, the sum over forward moves of d times the vertical total before it |
| Trench.BoundsOf | day20/solution.cpp:39-51 | the box from bounds_of holds every point of a non-empty set |
| Trench.BoundsTight | day20/solution.cpp:39-51 | each side of the box touches some point of the set |
| Trench.OutsetHoldsNeighbors | day20/solution.cpp:53-61 | outsetting a box by one more holds the whole neighbourhood of every pixel in it, and a pixel outside the box outset by one has no neighbour in the box |
| Trench.Neighbors | day20/solution.cpp:63-75 | the nine neighbourhood pixels in row-major order, from the upper left to the lower right, with the pixel itself in the middle |
| Trench.PixelValue | day20/solution.cpp:77-87 | the loop computes the neighbourhood read as a 9-bit number, first neighbour first |
| Trench.PixelIndexBits | day20/solution.cpp:77-87 | the value is below 512, and bit 8 - i is set exactly when neighbour i is in the set |
| Trench.Index | day20/solution.cpp:116-119 | the index used for the rule lookup is always below 512 |
| Trench.OddIndexIsComplement | day20/solution.cpp:117-119 | on odd passes the index reads each neighbour as set when it is not in the set |
| Trench.EnhanceMember | day20/solution.cpp:110-127 | a pass keeps exactly the scanned pixels whose rule character is the one checked on this pass |
| Trench.OutsideIsBackground | day20/solution.cpp:110-113 | for flashing rules, a pixel outside the scanned box is background after the step: lit after an odd number of steps, dark after an even number |
| Trench.KeptTracks | day20/solution.cpp:113-127 | for flashing rules a pixel is kept exactly when it is lit in the infinite image after the step, with the sense flipped on odd steps |
| Trench.EnhanceTracks | day20/solution.cpp:107-132 | for flashing rules, if the set holds the lit pixels (even steps) or the dark pixels (odd steps) before a pass, it does so after it |
| Trench.Enhance | day20/solution.cpp:107-132 | computes one pass only; `Trench.EnhanceMember` states which pixels it keeps and `Trench.EnhanceTracks` that it follows the infinite image |
| Trench.RunTracks | day20/solution.cpp:103-132 | for flashing rules, the passes keep the set following the infinite image: its lit pixels after even passes and its dark ones after odd passes |
| Trench.Run | day20/solution.cpp:103-132 | computes the passes only; `Trench.RunTracks` and `Trench.RunCountsLit` state what the set holds after them |
| Trench.RunCountsLit | day20/solution.cpp:103-132 | after an even number of passes the set is exactly the lit pixels of the infinite image |
| Trench.Part1CountsLit | day20/solution.cpp:92-142 | for flashing rules the set whose size part 1 reports holds exactly the lit pixels of the infinite image after 50 steps |
| Trench.Part1 | day20/solution.cpp:92-142 | computes the answer only; `Trench.Part1CountsLit` states that it counts the lit pixels of the infinite image after 50 passes |
| Octopus.InBox | day15/charmap.h:223-232 | the walk over all points covers exactly the cells of a w by h grid |
| Octopus.BoxCount | day15/charmap.h:223-232 | a w by h grid has w * h cells |
| Octopus.Increase | day11/solution.cpp:34-42 | raising a cell adds the time to that cell only, does nothing off the grid, and reports whether the cell went past '9' |
| Octopus.OffsetIsNeighbor | day11/solution.cpp:59-63 | each of the eight direction offsets leads to an adjacent cell, and each is a different direction |
| Octopus.NeighborIsOffset | day11/solution.cpp:59-63 | every adjacent cell is reached by one of the eight offsets |
| Octopus.RaiseAll | day11/solution.cpp:50-56 | the first sweep raises every cell by the time, and the pending set is exactly the cells now past '9' |
| Octopus.Spread | day11/solution.cpp:68-73 | one flash raises exactly the flasher's in-grid neighbours by the time, and afterwards a cell is past '9' exactly when it is pending or has flashed |
| Octopus.Pop | day11/solution.cpp:64-74 | one round of the pending loop keeps the cascade invariant, flashes one more cell so the loop ends, and flashes only cells that every set closed under the flashing rule holds |
| Octopus.Cascade | day11/solution.cpp:64-74 | once nothing is pending, the flashed cells are exactly those past '9', each cell has been raised once for each flashed neighbour, and the flashed cells lie in every set closed under the flashing rule |
| Octopus.Reset | day11/solution.cpp:76-82 | every cell past '9' goes back to '0', and no other cell changes |
| Octopus.Flash | day11/solution.cpp:46-85 | a cell flashes exactly when its start value plus the time and one more time per flashed neighbour passes '9', and the flashed set is the least such set; flashed cells end at '0', the rest keep that raised value, every cell ends at most '9', and the count returned is the number of flashed cells |
| Octopus.Part1 | day11/solution.cpp:88-100 | a hundred steps flash at most a hundred times the number of cells |
| Charmaps.UpdateSize | day15/charmap.h:314-319 | the height becomes the row count and the width the first row's length, a map without rows keeps its width, and the map is a rectangle exactly when its rows are all as long |
| Charmaps.FromRows | day15/charmap.h:32-39 | a map read from lines holds the lines as rows, and is a rectangle exactly when every line is as long as the first |
| Charmaps.Filled | day15/charmap.h:42-53 | the sized constructor gives a rectangle of the fill character, with no width when there are no rows |
| Charmaps.AddLine | day15/charmap.h:73-77 | adding a line keeps the old rows and appends one row of the map's width filled with the character |
| Charmaps.Widest | day15/charmap.h:84-88 | the width found is at least the old width and every row's length, and it is one of them |
| Charmaps.FillLines | day15/charmap.h:79-96 | every row is padded on the right with the filler up to the widest length, and keeps its own cells |
| Charmaps.FillLinesSquares | day15/charmap.h:79-96 | padding gives a rectangle exactly when the recorded height is the row count, and padding twice is padding once |
| Charmaps.Set | day15/charmap.h:148-153 | writing a cell keeps the sizes, and writing off the grid changes nothing |
| Charmaps.GetSet | day15/charmap.h:133-153 | reading after a write gives the written value at that cell when it is in the grid, and the old value everywhere else |
| Charmaps.GetFromRows | day15/charmap.h:133-136 | reading a map built from equal-length lines gives the line's character inside the grid and the default outside it |
| Charmaps.FindChar | day15/charmap.h:258-268 | the search returns the first cell in row-major order holding the character, or (0, 0) when no cell holds it |
| Scanners.DistanceIsMetric | day19/solution.cpp:20-25 | the distance is symmetric, is zero exactly for points equal in x, y and z, and obeys the triangle inequality |
| Scanners.DoneIsPairs | day19/solution.cpp:37-43 | the first i rows of the pair loops visit i * (2n - i - 1) / 2 pairs |
| Scanners.CountedStep | day19/solution.cpp:38-41 | visiting one pair adds one count to its own distance and none to any other |
| Scanners.CountRow | day19/solution.cpp:39-41 | one row of the inner loop counts, for every distance, the pairs (i, j) with j after i at that distance, and adds one entry per later beacon |
| Scanners.SetDistances | day19/solution.cpp:37-43 | the histogram holds, for every distance, the number of pairs of beacons at that distance, and n * (n - 1) / 2 entries in all |
| Scanners.NewScanner | day19/solution.cpp:32-34 | a scanner keeps its number and beacons, and its histogram counts the pairs at each distance |
| Scanners.DropKey | day19/solution.cpp:55-58 | taking one distance out of the first histogram takes the smaller of its two counts out of the common count |
| Scanners.CommonDistances | day19/solution.cpp:53-62 | the common count is the size of the multiset intersection of the two histograms: the smaller count summed over shared distances |
| Scanners.CommonBounds | day19/solution.cpp:53-62 | the common count is the same either way round, and at most either histogram's total |
| Scanners.ReportRow | day19/solution.cpp:163-169 | one row of part 1 reports only pairs at or over the threshold, and by the end reports every such pair with scanner i first |
| Scanners.Part1 | day19/solution.cpp:160-173 | part 1 reports exactly the pairs of scanners, in input order, sharing at least 78 distances, and answers "0" |
| Scanners.Rotate | day19/solution.cpp:125-132 | a rotated point is a fresh point, with w reset to zero |
| Scanners.RotationsTable | day19/solution.cpp:93-132 | the table has 24 entries and rotating by the first leaves a point's x, y and z unchanged |
| Scanners.RotationsAreRotations | day19/solution.cpp:93-123 | every entry sends the axes to the axes with signs, on three different axes, with determinant one |
| Scanners.AxesSum | day19/solution.cpp:20-25 | the distances along three different axes add up to the distance |
| Scanners.PermutationKeepsDistance | day19/solution.cpp:20-25 | any signed permutation of the axes keeps the distance between two points |
| Scanners.RotatePreservesDistance | day19/solution.cpp:20-132 | rotating two points by the same entry keeps their distance, so a scanner's histogram does not depend on its orientation |
| Scanners.Identity | day19/solution.cpp:65-72 | the identity is a 4 by 4 matrix |
| Scanners.Compose | day19/solution.cpp:145-157 | composing two 4 by 4 matrices gives a 4 by 4 matrix |
| Scanners.ComposeIdentity | day19/solution.cpp:145-157 | composing with the identity on either side gives the matrix back |
| Points.FromVector | day0/point.h:53-63 | the vector constructor takes x, y and z from the first up-to-three elements and leaves the rest at zero |
| Points.LessIsStrictTotalOrder | day0/point.h:65-82 | ordering by z, then y, then x is irreflexive, transitive and total, and two points are incomparable only when they are equal |
| Points.Add | day0/point.h:95-106 | the sum differs from the left operand by the right operand in each coordinate |
| Points.AddIsCommutativeMonoid | day0/point.h:95-106 | addition is commutative and associative with the origin as its unit |
| Points.AddKeepsOrder | day0/point.h:65-106 | adding the same point to two points keeps their order |
| Points.FromString | day0/point.h:108-126 | reading a point succeeds exactly when every number run in the text reads as a number |
| Points.FromStringOfShow | day0/point.h:108-126 | a point written as "x,y,z" reads back as the same point |
| Points.MakeVector | day22/vector.h:20-22 | the four-argument constructor gives a planar position and direction, with z zero in both |
| Points.MakeVectorInjective | day22/vector.h:20-22 | two constructed vectors are equal exactly when all four arguments are |
| Points.VectorLessIsStrictTotalOrder | day22/vector.h:34-44 | ordering by position, then direction, is a strict total order, and two vectors are equal exactly when position and direction are |
| Points.WLessIsStrictWeakOrder | day19/point.h:63-84 | day 19's order is a strict weak order whose incomparable pairs are the points equal in x, y and z, whatever their w |
| Points.WAdd | day19/point.h:96-107 | the sum keeps the left operand's w |
| Points.WSub | day19/point.h:109-120 | the difference keeps the left operand's w |
| Points.WAddSubInverse | day19/point.h:96-120 | subtracting a point undoes adding it, w included, and the reverse; addition is commutative up to w |
| Points.WFromVector | day19/point.h:50-61 | day 19's vector constructor fills x, y and z as day 0's does, with w zero |
| Points.WFromString | day19/point.h:122-140 | reading succeeds exactly when every number run reads as a number, and the point read has w zero |
| Points.WFromStringOfShow | day19/point.h:122-140 | a point written as "x,y,z" reads back with the same coordinates and w zero |
| Tokenize.TokenLen | day17/split.h:13 | the offset find_first_of reports is the length of the leading run without delimiters, the string's length standing for npos |
| Tokenize.SepLen | day17/split.h:17 | the offset find_first_not_of reports is the length of the leading run of delimiters |
| Tokenize.Tokens | day13/split.h:44-57 | the strtok tokens are non-empty, hold no delimiter, and joined together they are the input with its delimiters removed |
| Tokenize.TokensSeparated | day13/split.h:49-53 | tokenizing two texts joined by a delimiter gives the tokens of the first followed by the tokens of the second |
| Tokenize.TokensOfJoin | day13/split.h:44-57 | splitting words joined by a delimiter gives the words back, when each is non-empty and holds no delimiter |
| Tokenize.SplitStr | day13/split.h:44-57 | split_str gives non-empty tokens holding no delimiter which together are the input with its delimiters removed |
| Tokenize.Stol | day19/point.h:130 | stol reads an optional minus sign and the digits after it; it fails exactly when the sign has no digit after it, and the sign decides the sign of the value |
| Tokenize.Atoi | day13/split.h:67 | atoi gives the value stol gives, and zero where stol fails |
| Tokenize.StolOfShow | day19/point.h:130 | an integer written in decimal reads back as itself through stol and atoi, whatever non-digit text follows it |
| Tokenize.SplitIntOfJoin | day13/split.h:59-74 | split_int of comma-joined integers gives the integers back |
| Tokenize.SplitSizeTOfJoin | day13/split.h:76-91 | split_size_t of comma-joined naturals gives the naturals back |
| Tokenize.Split | day17/split.h:7-21 | split gives the possibly empty text before the first delimiter, then the strtok tokens of the rest |
| Tokenize.SplitVersusSplitStr | day17/split.h:7-21 | split agrees with split_str, except that it adds a leading empty token when the input is empty or starts with a delimiter |
| Tokenize.SplitIntStoi | day17/split.h:23-39 | when the text starts with a number, the first value of split_int is stoi of the text |
| Tokenize.SplitIntStoiOfJoin | day17/split.h:23-39 | day 17's split_int of comma-joined integers gives the integers back |
| Tokenize.NumbersOf | day0/point.h:108-123 | split_numbers gives one value for every maximal run of digits and minus signs |
| Tokenize.NumbersOfJoin | day0/point.h:108-123 | the runs of comma-joined integers read back as the integers |
| Tiles.FillRow | day15/solution.cpp:43-56 | one row of the loop writes every cell of that row with its raised source cell and leaves every other row unchanged |
| Tiles.Multiply | day15/solution.cpp:40-59 | the tiled map is dx times as wide and dy times as tall as the source, and every cell is the source cell at the same offset in its tile, raised by the tile's distance from the first |
| Tiles.RaiseWraps | day15/solution.cpp:50-52 | within eight tiles a digit stays a digit and wraps cyclically: ((d + distance - 1) mod 9) + 1 |
| Tiles.Raise | day15/solution.cpp:50-52 | computes the raised code only; `Tiles.RaiseWraps` states that within eight tiles a digit wraps cyclically through '1'..'9' |
| Tiles.Store | day15/solution.cpp:55 | computes the stored character only; `Tiles.RaiseWraps` states that a raised digit is stored as a digit |
| Tiles.TileIsRaisedSource | day15/solution.cpp:44-52 | tile (tx, ty) is the source raised by tx + ty, and the first tile is the source itself |
| Tiles.CellIsDigit | day15/solution.cpp:44-55 | every cell of a tiling of a digit map at most eight tiles from the first is a digit |
| Tiles.Cell | day15/solution.cpp:44-55 | computes one cell only; `Tiles.TileIsRaisedSource` and `Tiles.CellIsDigit` state that it is the source cell raised by its tile's distance, and a digit |
| Tiles.MultiplyKeepsDigits | day15/solution.cpp:61-62 | the five by five tiling of part 2 holds only digits |
| Smoke.StepIsOrthogonal | day15/charmap.h:211-220 | the four directions of neighbors_of reach exactly the orthogonal neighbours |
| Smoke.IsLowIff | day9/solution.cpp:28-35 | a cell is low exactly when it is below every orthogonal neighbour inside the grid; neighbours off the edge are not compared |
| Smoke.LowNotAdjacent | day9/solution.cpp:28-35 | two orthogonal neighbours are never both low |
| Smoke.StrictMinimumIsLow | day9/solution.cpp:28-35 | a cell below every other cell of the grid is low |
| Smoke.RowPoints | day15/charmap.h:226-229 | one row of the walk is the cells of that row, left to right |
| Smoke.AllPointsCover | day15/charmap.h:223-232 | the walk over all points visits exactly the cells of the grid |
| Smoke.AllPointsOrdered | day15/charmap.h:223-232 | the walk visits each cell once, in row-major order |
| Smoke.LowRisksBounds | day9/solution.cpp:37-45 | on digits every risk kept is between 1 and 10, the risks sum to at most ten per cell visited, and every low point visited adds its risk |
| Smoke.Part1Bounds | day9/solution.cpp:27-49 | on a grid of digits the answer is at most ten per cell, and at least the risk of any low point, which is at least one |
| Smoke.Part1 | day9/solution.cpp:27-49 | computes the answer only; `Smoke.Part1Bounds` states that on digits it is at most ten per cell and at least the risk of any low point |
| Segments.Find | day8/solution.cpp:63 | find gives the first position of the character, and npos exactly when the character is absent |
| Segments.Substr | day8/solution.cpp:64-65 | substr gives at most count characters from pos, stopping at the end of the string |
| Segments.ParseAtBar | day8/solution.cpp:62-66 | a line with a bar gives the tokens before its first bar as patterns and the tokens after it as outputs |
| Segments.ParseWithoutBar | day8/solution.cpp:63-66 | a line without a bar gives the tokens of the whole line twice, since npos + 1 wraps round to zero |
| Segments.ParseOfShow | day8/solution.cpp:52-71 | a line written as the patterns, a bar between spaces and the outputs, all plain words, reads back as the same entry |
| Segments.ParseLine | day8/solution.cpp:62-66 | computes the entry only; `Segments.ParseAtBar`, `Segments.ParseWithoutBar` and `Segments.ParseOfShow` state how it splits a line |
| Segments.ReadDataLines | day8/solution.cpp:52-71 | without blank lines every line gives one entry, in order, and blank lines give none |
| Segments.Part1 | day8/solution.cpp:26-46 | the nested loops compute the number of output values over all lines with 2, 3, 4 or 7 segments |
| Segments.CountUniqueIsIndices | day8/solution.cpp:35-42 | the count for one line is the number of positions of its outputs holding 2, 3, 4 or 7 segments |
| Segments.TotalProperties | day8/solution.cpp:31-43 | the count over lines is additive over concatenation and at most the number of outputs |
| Segments.TotalIgnoresPatterns | day8/solution.cpp:31-43 | two inputs with the same outputs line by line give the same count, whatever their patterns |

## Left out

- Every `main`, `print_result`, timer, `cout`/`cerr` diagnostic and `read_data` that only opens a file. The parsing they do is modelled where it is part of the core: day 5's line reader, day 8's bar split, day 18's `parse_node`, day 16's hex lines and `charmap_t`'s line constructor.
- day4 `read_data`: the board reader, which relies on `split_size_t` and leaves a trailing empty board, is not modelled. The boards are taken as given.
- day15/dijkstra.h and the `part1`/`part2` of day 15 that call it: only the declarations exist. `multiply` is modelled.
- The `std::hash` specialisations, the `std::formatter` specialisations, `show`/`show_state` and every `operator<<`: formatting and bit mixing, not behaviour.
- `charmap_t`'s range views and iterator class: the model walks the grid by index (`Smoke.AllPoints`, `Octopus.Box`). The walk over the rows' own lengths equals the walk over the recorded sizes only for a rectangular map, which `Smoke.Part1` and `Octopus.Flash` require.
- `charmap_t::from_points` is not modelled (only day 13's `part2` printing uses it).
- `is_valid` and `get` have no contract of their own: they are the predicate `Charmaps.IsValid` and the function `Charmaps.Get`, and `Charmaps.GetSet` and `Charmaps.GetFromRows` state their meaning.
- `point_t`'s `!=` is Dafny's `!=` on the datatype, and assignment is value copying. So `!=` negates `==`, and assignment copies all of x, y, z and w, by construction.
- `Points.Add` and day 19's `WAdd`/`WSub`: the `long` coordinates do not wrap.
- day18: the raw pointers, `dynamic_cast`, `delete` and the aliasing in `part2` give way to an immutable tree. The `floor`/`ceil` of a double in `split` become `v / 2` and `(v + 1) / 2`. The `part1`/`part2` loops over the homework list and `read_data` are left out; `Snailfish.AddNodes` and `Snailfish.EvalIsWeightedSum` cover what they call.
- Snailfish.Reduce: takes a fuel bound, because the source gives no termination argument. Its contract speaks only of results reached within the fuel.
- day23: `part1` only prints successors and `part2` returns 0, so there is no search to model. The recursive `next_states` chain takes a fuel bound (`Amphipod.NextStates`). The burrow is read through `charmap_t` in the source and is given directly as a 19-cell string here.
- day12: the path enumeration takes a fuel bound (`Caves.Search`), since two adjacent big caves make the source recurse forever. `Caves.Part1Routes` proves part 1 complete and sound. For part 2, `Caves.Part2Rule` proves soundness only.
- Caves.Part2Rule: states soundness (every recorded path obeys the visiting rule) but not completeness, unlike part 1.
- day19: `transform` is not modelled; it is unused and adds where it should multiply. `read_data` and `read_points` are not modelled. Part 1's printing is reduced to the list of reported pairs.
- Scanners.Rotate: its own contract only says that w is reset. What the rotation does is stated by `Scanners.RotationsTable` and `Scanners.RotatePreservesDistance`.
- Scanners.Compose: its entries are the `uint64_t` products, wrapped to 64 bits. Only the identity laws are proved, not associativity.
- day20: `read_data` depends on members not present in the headers shown and is not modelled. `part2` returns 0. `Trench.Part1` is stated over sets. Its link to the infinite image holds for "flashing" rules (rule 0 lit, rule 511 dark), which is what the odd-pass inversion at lines 117-119 assumes.
- day21: the `read_data` start positions; `quantum_turn`'s `turn` parameter, which is unused and dropped.
- day17: the candidate-velocity loops of `part1` and their printing are left out, and `part2` returns 0. `simulate` and `contains` are modelled.
- day6: the starting ages must not exceed `max_age`, and `max_age` must be at least 8. The source writes `fish[f]++` unchecked and hard-codes indices 6 and 8.
- day7: the crab list must be non-empty, since the source reads `crabs[size / 2]`.
- day14: the pattern must be non-empty, since `size() - 1` wraps otherwise. The `size_t` counts do not overflow in the model.
- day2: `-distance` on a `size_t` is modelled as the negative integer: it wraps round, and the cast to the signed `long` coordinate turns it back into the negative.
- day3: `part2` is a stub in the source and is not modelled.
- day10 and day8: `part2` returns 0 in the source and is not modelled.
- day9: `part2` returns the map's width and is not modelled.
- day11: `part2` returns 0. `popset` takes an arbitrary element of an `unordered_set`. The model takes any pending cell, and its contracts hold whichever is taken.
- Octopus.Part1: bounds the total by a hundred times the number of cells rather than restating each step's count. Each step's meaning is in `Octopus.Flash`.
- Bitstream.Read: requires `bits < 32`, because the mask `~(~0u << bits)` is undefined from 32 on. A field spanning more than eight bytes would also lose bits in the 64-bit accumulator; the source never reads more than 15 bits.
- Tiles.RaiseWraps: the single subtraction of 9 wraps correctly only up to a tile distance of 8. That covers part 2's five by five tiling, where the greatest distance is 8.

## Findings

| source | as written | input that shows it | evidently intended | confidence | as-written member | corrected member |
|---|---|---|---|---|---|---|
| day16/bitstream.h:50-60 | `read` always loads byte `(pos + bits) / 8`, even when the field ends exactly on a byte boundary, where that byte is not needed (the shift by `8 - e_bit` discards it) | a one-byte buffer `FF` read with `read(8)` from position 0 indexes `buffer[1]`, past the end | load bytes up to `(pos + bits - 1) / 8` only, so that a field flush with the end of the buffer reads 255 | not executed | Bitstream.ReadAsWritten, Bitstream.ReadAsWrittenOverruns | Bitstream.Read |
| day23/solution.cpp:149 | `find_amphipods` scans `iota(0u, 18u)`, cells 0 to 17 | in a burrow whose only amphipod is at the bottom of room D, cell 18, no amphipod is found, so none of its moves is generated | scan all 19 cells, `iota(0u, 19u)` | not executed | Amphipod.FindAmphipodsAsWritten, Amphipod.FindAmphipodsMissesLastCell | Amphipod.FindAmphipods |
