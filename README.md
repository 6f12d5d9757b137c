# Siteswap generator: a Dafny model

This project models the core of a vanilla-siteswap toolkit: the juggling-state
graph, the cycle enumerator that reads siteswaps off that graph, the
canonicalisation and validity checks on throw sequences, and the `Siteswap`
value object. It proves properties of each.

- **State graph** (`state_graph.dfy`, `bits.dfy`).
  - A juggling state is a natural number used as a bit mask. Position *p* is set when a ball lands *p* beats from now.
  - `StateGraph` is a class with `nodes` and `edges` fields, filled by the constructor's work-list closure from the root state, which holds positions 1..balls.
  - A child list is a sequence of `Edge(height, dest)` in ascending height order. This is the iteration order of the source's `TreeMap`.
  - `getNextChild` and `getLabel` are methods that keep the source's sentinels: 0 for "no child" and -1 for "no edge".
  - The model proves that the closure is closed and that child lists follow the transition rule. It also proves that child states are distinct, that every state keeps the number of balls, and that the sentinel 0 is never a state when there is a ball.
- **Walks** (`walks.dfy`).
  - Walks in the graph, their label sequences and the lexicographic order on them.
  - The walk the generator reaches by always taking the first child.
  - The backtracking step of `getNextPath` as "the next walk in label order".
- **Cycles** (`cycles.dfy`). The label sequence of any closed walk is a valid siteswap. This rests on two facts: no two balls land on the same beat, and the throws add up to the period times the number of balls.
- **Canonical form and validity** (`canonical.dfy`, `lex.dfy`, `utils.dfy`).
  - `normalize` reduces a sequence to its smallest period and then takes the lexicographically greatest rotation.
  - The 36-symbol codec.
  - `isValid`: the average test plus no collision of landing beats.
  - The loops are methods proved against specification functions: `Normal`, `MaxRot`, `EncodeAll`, `DecodeAll` and `IsValidSeq`.
- **Siteswap** (`siteswap.dfy`). An immutable class that stores the canonical form and the period base. It also models equality, the hash, the classification predicates, the subtractive gcd and `toString`.
- **Generator** (`generator.dfy`).
  - A class holding the lazily built graph and the handler. The handler is modelled as the list `handled` of the patterns it was given.
  - `Generate(period)` meets the following specification:
    - it visits, from every state, every walk of `period + 1` states, in strictly increasing label order;
    - it counts every closed walk exactly once;
    - it hands over the canonical form of each closed walk whose canonical form keeps the full period;
    - every pattern it hands over is a valid siteswap in canonical form.

## Model

| member | source | states |
|---|---|---|
| StateBits.Power | net/mustelinae/siteswap/StateGraph.java:236-242 | The loop returns a^n; for a = 2 that is 2^n, the weight of position n. |
| StateBits.IsSetByDivision | net/mustelinae/siteswap/StateGraph.java:222-225 | Position p of a state is set exactly when bit p of the number is 1. This is the test `state & 2^p != 0`. |
| StateBits.SetBit | net/mustelinae/siteswap/StateGraph.java:176-182 | The result has exactly the positions of the state plus p. The state is returned unchanged when p was already set. |
| StateBits.UnsetBit | net/mustelinae/siteswap/StateGraph.java:191-197 | The result has exactly the positions of the state minus p. The state is returned unchanged when p was clear. |
| StateBits.UnsetUndoesSet | net/mustelinae/siteswap/StateGraph.java:176-197 | Clearing a position that was just set, where it was clear before, gives the original state back. |
| StateBits.AddBit | net/mustelinae/siteswap/StateGraph.java:181 | Adding 2^p to a state whose position p is clear sets p and changes no other position. |
| StateBits.RemoveBit | net/mustelinae/siteswap/StateGraph.java:194 | Subtracting 2^p from a state whose position p is set clears p and changes no other position. |
| StateBits.SameBitsSameState | net/mustelinae/siteswap/StateGraph.java:222-225 | Two states with the same set positions are the same number. |
| StateBits.SetBitCount | net/mustelinae/siteswap/StateGraph.java:145 | Setting a clear position adds one ball. It adds that position to the sum of landing times. |
| StateGraphModel.ShiftUpTo | net/mustelinae/siteswap/StateGraph.java:92-96 | After the loop of shiftLeft has reached i, exactly the positions p with 2 <= p + 1 <= i that are set in the input are set. |
| StateGraphModel.ShiftLeft | net/mustelinae/siteswap/StateGraph.java:90-97 | Result position p is set iff input position p + 1 is set, for 1 <= p < max_height. Input position 1 and everything above max_height are dropped. |
| StateGraphModel.ThrowsShape | net/mustelinae/siteswap/StateGraph.java:141-147 | The throws are exactly the heights 1..max_height free in the shifted state, in ascending order. Each one leads to the shifted state with that height set. |
| StateGraphModel.ThrowsEntries | net/mustelinae/siteswap/StateGraph.java:141-147 | Each entry the loop adds is a free height below the bound and leads to the shifted state with that height set. |
| StateGraphModel.ThrowsLabels | net/mustelinae/siteswap/StateGraph.java:141-147 | A height is a key of the child map iff it is free in the shifted state and lies in 1..max_height. |
| StateGraphModel.ThrowsAscending | net/mustelinae/siteswap/StateGraph.java:141-147 | The keys come in ascending order, as a TreeMap iterates them. |
| StateGraphModel.FreeThrows | net/mustelinae/siteswap/StateGraph.java:141-147 | The loop of generateChildren builds exactly the ascending list of free throws. |
| StateGraphModel.GenerateChildren | net/mustelinae/siteswap/StateGraph.java:135-156 | If position 1 is set, the children are the shifted state with one free position i in 1..max_height set, keyed by i. Otherwise there is the single child, the shifted state, keyed by 0. The keys ascend and the child states are distinct. |
| StateGraphModel.EdgeRule | net/mustelinae/siteswap/StateGraph.java:135-156 | The transition rule for one entry, on the positions of the states. A throw is made exactly when position 1 is set. The child holds the shifted positions plus the throw height. A throw never lands on an occupied position. |
| StateGraphModel.ChildrenShape | net/mustelinae/siteswap/StateGraph.java:135-156 | Child lists have ascending keys and distinct child states. They are never empty when max_height >= 1. |
| StateGraphModel.ChildBalance | net/mustelinae/siteswap/StateGraph.java:135-156 | A state within 1..max_height has children within 1..max_height with the same number of balls. The sum of landing times drops by the ball count and rises by the throw. |
| StateGraphModel.LabelOfMeaning | net/mustelinae/siteswap/StateGraph.java:288-298 | The label is -1 exactly when no entry leads to `to`. Otherwise it is the key of the first entry that does. |
| StateGraphModel.NextChild | net/mustelinae/siteswap/StateGraph.java:258-278 | For 0 the answer is the first child. For the child at entry k it is the child at entry k + 1, or 0 after the last entry. For a state that is not a child it is 0. |
| StateGraphModel.After | net/mustelinae/siteswap/StateGraph.java:266-276 | The loop with the `next` flag returns the child after the first match, or 0 when there is none. |
| StateGraphModel.RootState | net/mustelinae/siteswap/StateGraph.java:52-54 | The root has exactly positions 1..balls set. |
| StateGraphModel.RootOf | net/mustelinae/siteswap/StateGraph.java:52-54 | The loop sets exactly positions 1..balls. The root is 0 iff there are no balls, and otherwise has position 1 set. |
| StateGraphModel.NewStatesMembers | net/mustelinae/siteswap/StateGraph.java:64-66 | The states queued for a node are exactly its children not yet in `nodes`. |
| StateGraphModel.NewStatesFresh | net/mustelinae/siteswap/StateGraph.java:64-66 | No queued state is already in `nodes`. |
| StateGraphModel.AddUnseen | net/mustelinae/siteswap/StateGraph.java:64-66 | The inner loop adds to `undone` exactly the children not yet in `nodes`. |
| StateGraphModel.ChildrenInUniverse | net/mustelinae/siteswap/StateGraph.java:135-156 | Children lie within positions 1..max_height. So the closure only meets finitely many states. |
| StateGraphModel.ClosureStep | net/mustelinae/siteswap/StateGraph.java:59-71 | One round of the work-list loop keeps the loop invariant. `nodes` and `undone` stay disjoint, the root stays known, and every finished node has its child list. Those children stay known, and every known state other than the root is a child of a finished node and lies within 1..max_height. |
| StateGraphModel.StepWindow | net/mustelinae/siteswap/StateGraph.java:59-71 | After one round the known states other than the root lie within 1..max_height. The finished and pending sets stay disjoint and hold the root. |
| StateGraphModel.StepClosed | net/mustelinae/siteswap/StateGraph.java:62-70 | After one round every child of every finished node is known. |
| StateGraphModel.StepParents | net/mustelinae/siteswap/StateGraph.java:62-70 | After one round every known state other than the root is a child of a finished node. |
| StateGraphModel.ZeroChildren | net/mustelinae/siteswap/StateGraph.java:150-153 | The empty state has the single child "empty", keyed by 0. |
| StateGraphModel.ChildNonZero | net/mustelinae/siteswap/StateGraph.java:135-156 | A non-empty state that throws, or that lies within 1..max_height, has no empty child. So 0 is a safe sentinel for getNextChild. |
| StateGraphModel.StepZero | net/mustelinae/siteswap/StateGraph.java:59-71 | One round keeps this fact: with a ball, 0 is never a known state; with no balls, 0 is the only one. |
| StateGraphModel.StepBalls | net/mustelinae/siteswap/StateGraph.java:59-71 | One round keeps every known state at the root's ball count, when the root lies within 1..max_height. |
| StateGraphModel.NodeBalls | net/mustelinae/siteswap/StateGraph.java:24-27 | With balls <= max_height every state of the graph holds exactly `balls` balls. |
| StateGraphModel.StepReach | net/mustelinae/siteswap/StateGraph.java:62-70 | One round keeps every known state reachable from the root, because each newly queued state is a child of the node just finished. |
| StateGraphModel.ClosedHoldsReachable | net/mustelinae/siteswap/StateGraph.java:59-71 | A set of states that holds the root and every child of its members holds every state reachable from the root. |
| StateGraphModel.NodesReachable | net/mustelinae/siteswap/StateGraph.java:48-79 | In a graph whose nodes are all reachable and whose child lists stay inside it, the nodes are exactly the states reachable from the root. |
| StateGraphModel.ThreeBallsTwoHigh | net/mustelinae/siteswap/StateGraph.java:48-79 | For three balls and a maximum throw of 2, the states reachable from the root 14 are exactly 14 and 6, so the graph built there has just those two nodes. |
| StateGraphModel.ClosureDone | net/mustelinae/siteswap/StateGraph.java:59-71 | When `undone` is empty the loop invariant is the graph invariant. |
| StateGraphModel.Closure | net/mustelinae/siteswap/StateGraph.java:56-71 | The work-list loop ends with the root finished, each finished state carrying the child list the transition rule gives it, and every child of a finished state finished. Every finished state is reachable from the root, so it stays out of closed components the work list never meets. |
| StateGraphModel.StateGraph.constructor | net/mustelinae/siteswap/StateGraph.java:48-79 | The root has positions 1..balls and is a node, and `edges` is defined exactly on `nodes`. Every node's list is its generated children, and every child is a node. Every node but the root lies within 1..max_height. 0 is a node only when there are no balls. Each node holds `balls` balls when balls <= max_height. The nodes are exactly the states reachable from the root by throws. |
| StateGraphModel.StateGraph.GetNodes | net/mustelinae/siteswap/StateGraph.java:227-230 | For a valid graph, the node set is exactly the set of states reachable from the root, and getChildren gives each of them its generated children. |
| StateGraphModel.StateGraph.GetChildren | net/mustelinae/siteswap/StateGraph.java:164-167 | There is a child list (not null) exactly for the nodes of the graph, and it is the node's generated children. |
| StateGraphModel.StateGraph.GetNextChild | net/mustelinae/siteswap/StateGraph.java:258-278 | The iterator loop returns the first child for 0, and the next child (or 0 after the last) for a child. |
| StateGraphModel.StateGraph.GetLabel | net/mustelinae/siteswap/StateGraph.java:288-298 | The iterator loop returns the key of the first entry leading to `to`, and -1 exactly when no entry does. |
| Lex.Cmp | net/mustelinae/siteswap/Utils.java:175-197 | The three-way comparison is -1, 0 or 1, and 0 exactly for equal sequences. |
| Lex.CmpAt | net/mustelinae/siteswap/Utils.java:188-194 | The first differing position decides the answer: 1 when the first sequence is greater there, -1 when it is smaller. |
| Lex.CmpWitness | net/mustelinae/siteswap/Utils.java:188-194 | Distinct sequences have a first differing position, and it decides the comparison. |
| Lex.CmpAntisym | net/mustelinae/siteswap/Utils.java:175-197 | Swapping the two arguments negates the answer. |
| Lex.CmpTrans | net/mustelinae/siteswap/Utils.java:175-197 | The order is transitive, and strict as soon as one step is strict. |
| Canonical.RotSplit | net/mustelinae/siteswap/Utils.java:169-172 | The shift by k, position i taking a[(i + k) % len], is the tail from k followed by the head before k. |
| Canonical.RotRot | net/mustelinae/siteswap/Utils.java:169-172 | Two shifts make the shift by their sum modulo the length. |
| Canonical.RotBack | net/mustelinae/siteswap/Utils.java:169-172 | Shifting on by the remaining distance restores the sequence. |
| Canonical.FirstPeriod | net/mustelinae/siteswap/Utils.java:121-149 | The divisor loop from i finds the first period in i..len. The whole length is always one. |
| Canonical.MinPeriod | net/mustelinae/siteswap/Utils.java:121-150 | The smallest d such that the sequence is its first d elements repeated. It is 0 only for the empty sequence. |
| Canonical.BestShift | net/mustelinae/siteswap/Utils.java:158-164 | best_shift after the loop over the first n shifts. Its rotation is at least every earlier rotation, and strictly greater than the rotations before it, so the smallest shift wins ties. |
| Canonical.KeepBestShift | net/mustelinae/siteswap/Utils.java:162-163 | A shift whose rotation does not compare as 1 leaves the best shift unchanged. |
| Canonical.NewBestShift | net/mustelinae/siteswap/Utils.java:162-163 | A shift whose rotation compares as 1 beats every earlier shift. |
| Canonical.MaxRot | net/mustelinae/siteswap/Utils.java:156-173 | The result is a rotation at least as great as every rotation. |
| Canonical.MaxRotUnique | net/mustelinae/siteswap/Utils.java:156-173 | Any rotation that is at least every rotation is the result of order. |
| Canonical.MaxRotOfRotation | net/mustelinae/siteswap/Utils.java:156-173 | Rotating the input first does not change the result of order. |
| Canonical.RotPeriodic | net/mustelinae/siteswap/Utils.java:121-149 | A period of a sequence is a period of each of its rotations. |
| Canonical.MinPeriodRot | net/mustelinae/siteswap/Utils.java:121-149 | A sequence and its rotations have the same smallest period. |
| Canonical.BlockPrimitive | net/mustelinae/siteswap/Utils.java:121-149 | The block that normalize cuts out has no shorter period of its own. |
| Canonical.Normal | net/mustelinae/siteswap/Utils.java:118-151 | normalize's result has the length of the smallest period. It is at least every rotation of that block. |
| Canonical.NormalIsRotation | net/mustelinae/siteswap/Utils.java:118-151 | For a non-empty input the result is a rotation of the first block of smallest period. |
| Canonical.NormalIdempotent | net/mustelinae/siteswap/Utils.java:118-151 | Normalizing twice is normalizing once. |
| Canonical.NormalRotation | net/mustelinae/siteswap/Utils.java:118-151 | Every rotation of a sequence normalizes to the same result. equals at Siteswap.java:89-91 relies on this. |
| Utils.CharToInt | net/mustelinae/siteswap/Utils.java:22-36 | The result is defined exactly for 0-9, a-z and A-Z. It is below 36, and below 10 exactly for digits. Any other character is the "not allowed char" exception (None). |
| Utils.IntToChar | net/mustelinae/siteswap/Utils.java:45-54 | As written: a symbol exactly for 0..35, otherwise the "int out of bounds" exception (None). |
| Utils.IntToCharRoundTrip | net/mustelinae/siteswap/Utils.java:45-54 | charToInt reads back every height 0..35 other than 9. |
| Utils.IntToCharNine | net/mustelinae/siteswap/Utils.java:50-53 | Height 9 is written as the backtick, which charToInt rejects. |
| Utils.EncodeHeight | net/mustelinae/siteswap/Utils.java:38-44 | The encoder as documented defines a symbol exactly for 0..35. |
| Utils.EncodeHeightRoundTrip | net/mustelinae/siteswap/Utils.java:22-44 | Every height 0..35 is read back. Every digit and lower-case letter is written back as itself. |
| Utils.EncodeAll | net/mustelinae/siteswap/Utils.java:63-78 | A string exists exactly when every height is in 0..35, and it has one symbol per height. |
| Utils.DecodeChars | net/mustelinae/siteswap/Utils.java:93-97 | A result exists exactly when every character is a symbol. It has one height per character, each charToInt of its character. |
| Utils.ArrayToString | net/mustelinae/siteswap/Utils.java:63-78 | The loop gives null (None) exactly when some height lies outside 0..35. Otherwise it gives one symbol per height. |
| Utils.NegativeHeightUnencoded | net/mustelinae/siteswap/Utils.java:48-49 | A negative height has no symbol. The exception is caught at Utils.java:70-73, so arrayToString answers null (None) as soon as one occurs. |
| Utils.StringToArray | net/mustelinae/siteswap/Utils.java:86-104 | The result is null (None) for the empty string and for any undecodable character. Otherwise it is an array of the same length holding charToInt of each character. |
| Utils.CodecRoundTrip | net/mustelinae/siteswap/Utils.java:56-104 | Writing a non-empty sequence of heights 0..35 and reading it back gives the sequence. |
| Utils.CompareShift | net/mustelinae/siteswap/Utils.java:185-197 | compare_shift returns 1, 0 or -1 exactly as the rotation by s1 compares with the rotation by s2. |
| Utils.ScanShifts | net/mustelinae/siteswap/Utils.java:158-164 | The loop leaves best_shift at the smallest shift whose rotation is greatest. |
| Utils.Rotated | net/mustelinae/siteswap/Utils.java:169-172 | The copy loop produces the rotation by best_shift. |
| Utils.Order | net/mustelinae/siteswap/Utils.java:156-173 | order returns the lexicographically greatest rotation. |
| Utils.MismatchNotPeriodic | net/mustelinae/siteswap/Utils.java:130-134 | One position that differs from the same position k blocks on rules out period i. |
| Utils.AgreementPeriodic | net/mustelinae/siteswap/Utils.java:126-141 | If every position of the first block agrees with every later block, i is a period. |
| Utils.CannotBeCut | net/mustelinae/siteswap/Utils.java:125-140 | The nested loops with `break` set cannot_be_cut exactly when i is not a period. |
| Utils.Normalize | net/mustelinae/siteswap/Utils.java:118-151 | normalize returns the greatest rotation of the block of smallest period. For the empty array it returns the empty array. |
| Utils.IsValid | net/mustelinae/siteswap/Utils.java:202-224 | False for the empty sequence. Otherwise true iff the sum is a multiple of the length and no two throws land on the same beat (i + s[i]) % len. |
| Utils.ValidRotation | net/mustelinae/siteswap/Utils.java:202-224 | Validity does not depend on where the sequence starts. |
| Utils.NormalValid | net/mustelinae/siteswap/Utils.java:118-151 | A sequence with no shorter period normalizes to a sequence that is valid exactly when the original is. |
| Utils.NormalExamples | net/mustelinae/siteswap/Utils.java:111-113 | The documented examples: 333 normalizes to 3 and 144144 to 441. |
| Utils.ValidExamples | net/mustelinae/siteswap/Utils.java:202-224 | 3 and 51 are valid; 41 is not. |
| SiteswapModel.Reverse | net/mustelinae/siteswap/Siteswap.java:157-159 | Position i of the reversed array holds siteswap[len - i - 1]. |
| SiteswapModel.Decimal | net/mustelinae/siteswap/Siteswap.java:240-241 | A height is written as one or more decimal digits, and as exactly one digit iff it is below 10. |
| SiteswapModel.DecimalIsNotation | net/mustelinae/siteswap/Siteswap.java:235-244 | With every height below 10 the decimal rendering is the siteswap notation. |
| SiteswapModel.SameCanonical | net/mustelinae/siteswap/Siteswap.java:74-92 | Two instances are equal iff both are invalid, or both are valid with the same stored sequence. |
| SiteswapModel.SameEquivalence | net/mustelinae/siteswap/Siteswap.java:74-92 | equals is reflexive, symmetric and transitive. |
| SiteswapModel.SameForRotations | net/mustelinae/siteswap/Siteswap.java:19-33 | Instances built from rotations of one sequence are equal. |
| SiteswapModel.HashAgreesOnValid | net/mustelinae/siteswap/Siteswap.java:100-111 | Equal valid instances have the same hash code. |
| SiteswapModel.HashDisagreesOnInvalid | net/mustelinae/siteswap/Siteswap.java:80-81 | The invalid instances 41 and 21 are equal, yet their hash codes are 210 and 126. |
| SiteswapModel.ConsistentHashAgrees | net/mustelinae/siteswap/Siteswap.java:100-111 | Corrected: a hash that is 0 for every invalid instance agrees on all equal instances. |
| SiteswapModel.Gcd | net/mustelinae/siteswap/Siteswap.java:212-219 | For positive arguments the subtractive recursion ends. It returns a common divisor that every common divisor divides. |
| SiteswapModel.GcdOneCoprime | net/mustelinae/siteswap/Siteswap.java:190 | `gcd(h, len) != 1` holds exactly when h and len share a divisor above 1. |
| SiteswapModel.FiftyOne | net/mustelinae/siteswap/Siteswap.java:113-147 | 51 is its own canonical form and is valid. It is in both Interesting classes. |
| SiteswapModel.NikolajExamples | net/mustelinae/siteswap/Siteswap.java:173-210 | 3 is in Nikolaj Beluhov's class, and 51 is not. |
| SiteswapModel.ReverseExamples | net/mustelinae/siteswap/Siteswap.java:152-162 | 531 is valid but its reverse 135 is not. 441 and its reverse 144 are both valid. |
| SiteswapModel.PeriodBase | net/mustelinae/siteswap/Siteswap.java:30-32 | pb[i] = siteswap[i] % len for every i. |
| SiteswapModel.Siteswap.constructor | net/mustelinae/siteswap/Siteswap.java:19-33 | The constructor stores normalize(a) and sets len to its length and pb to the heights modulo len. The stored sequence is its own canonical form. |
| SiteswapModel.Siteswap.FromString | net/mustelinae/siteswap/Siteswap.java:35-38 | The string constructor builds the instance for the decoded array. It fails (None) exactly when stringToArray gives null. |
| SiteswapModel.Siteswap.SanityMeansNonEmpty | net/mustelinae/siteswap/Siteswap.java:43-51 | For a constructed instance the sanity check only rules out the empty sequence. |
| SiteswapModel.Siteswap.GetSequence | net/mustelinae/siteswap/Siteswap.java:64-67 | Returns the stored sequence. For a constructed instance it has no shorter period and is at least each of its rotations. |
| SiteswapModel.Siteswap.IsValid | net/mustelinae/siteswap/Siteswap.java:57-62 | isValid is false when the sanity check fails. Otherwise it is Utils.isValid of the stored sequence. |
| SiteswapModel.Siteswap.Equals | net/mustelinae/siteswap/Siteswap.java:74-92 | Never equal to null. Two invalid instances are equal, and a valid instance never equals an invalid one. Two valid instances are equal iff their stored sequences coincide. |
| SiteswapModel.Siteswap.HashCode | net/mustelinae/siteswap/Siteswap.java:101-111 | The loop folds hc := (hc + 42) * x over the stored sequence, valid or not. |
| SiteswapModel.Siteswap.IsInteresting1 | net/mustelinae/siteswap/Siteswap.java:119-129 | True iff the instance is valid and some 1 is followed, cyclically, by a throw of 4 or more. |
| SiteswapModel.Siteswap.IsInteresting2 | net/mustelinae/siteswap/Siteswap.java:137-147 | True iff the instance is valid and every throw of 4 or more comes, cyclically, right after a 1. |
| SiteswapModel.Siteswap.IsReverseValid | net/mustelinae/siteswap/Siteswap.java:152-162 | True iff the sanity check holds and the reversed sequence is valid. Forward validity is not required. |
| SiteswapModel.Siteswap.Contains | net/mustelinae/siteswap/Siteswap.java:224-233 | True iff the sanity check holds and x occurs in the stored sequence. |
| SiteswapModel.Siteswap.ScanNikolaj | net/mustelinae/siteswap/Siteswap.java:187-199 | The loop answers false exactly when some throw above 2 is not coprime with len. Otherwise it counts the 0s and 2s. |
| SiteswapModel.Siteswap.IsInterestingNikolaj | net/mustelinae/siteswap/Siteswap.java:173-210 | True iff all of these hold: the instance is valid; len is odd and not a multiple of 3; there is no 1; every throw above 2 is coprime with len; and there are fewer than 2 (len < 6) or 3 (len >= 6) throws that are 0 or 2. |
| SiteswapModel.Siteswap.ToString | net/mustelinae/siteswap/Siteswap.java:235-244 | "" for an invalid instance. Otherwise each height in decimal, one after another. |
| Walks.GraphOkFromInv | net/mustelinae/siteswap/Generator.java:81 | In a constructed graph with max_height >= 1 or no balls, every state has a first child. Child lists follow the transition rule, and getNextChild(node, 0) never meets an empty map. |
| Walks.Labels | net/mustelinae/siteswap/Generator.java:89-94 | The array has one entry per step of the path, each getLabel of that step. |
| Walks.LabelOfIndex | net/mustelinae/siteswap/StateGraph.java:288-298 | When a node's child states are distinct, getLabel returns the key of the entry that leads to the child. |
| Walks.StepIndex | net/mustelinae/siteswap/Generator.java:92 | Each step of a path is the entry of its parent's child map with the step's label as key. |
| Walks.WalkExtend | net/mustelinae/siteswap/Generator.java:125-126 | Appending a child extends the labels by that child's key. |
| Walks.LabelsPrefix | net/mustelinae/siteswap/Generator.java:115-117 | Dropping nodes from the end keeps a walk, and its labels are a prefix of the labels. |
| Walks.SameLabelSameChild | net/mustelinae/siteswap/StateGraph.java:141-146 | A key names one child: two states with the same non-negative label from one node are the same state. |
| Walks.LabelsDetermine | net/mustelinae/siteswap/Generator.java:84-105 | Walks from one state that agree on their first t labels share their first t + 1 states. |
| Walks.SameLabelsSameWalk | net/mustelinae/siteswap/Generator.java:84-105 | Walks from one state with the same labels are the same walk. So label order is a strict order on paths. |
| Walks.Descend | net/mustelinae/siteswap/Generator.java:78-82 | Repeatedly appending the first child gives a walk of the requested length that extends the prefix. |
| Walks.DescendMin | net/mustelinae/siteswap/Generator.java:76-82 | The first-child descent is the least walk in label order among the walks extending the prefix. |
| Walks.MaxAboveStart | net/mustelinae/siteswap/Generator.java:112-113 | Once backtracking reaches a path of one state, no later path from the root exists. |
| Walks.NextChildMeaning | net/mustelinae/siteswap/Generator.java:118-119 | getNextChild(pop2, pop) is 0 exactly when pop is pop2's last child. Otherwise it is the next child. |
| Walks.Backtrack | net/mustelinae/siteswap/Generator.java:119-120 | Dropping a last child: the current path is also the greatest path above the shorter prefix. |
| Walks.Advance | net/mustelinae/siteswap/Generator.java:122-128 | Taking the next sibling and then first children all the way down yields the next path in label order. |
| Walks.LabelsBounded | net/mustelinae/siteswap/Generator.java:89-94 | Every label of a path lies in 0..max_height, so it is never -1. |
| Walks.SuccessorGrows | net/mustelinae/siteswap/Generator.java:84-105 | The labels read as a number in base max_height + 1 strictly grow from each path to the next, and stay bounded. So the search ends. |
| Cycles.InFlight | net/mustelinae/siteswap/StateGraph.java:135-156 | A ball thrown to height h on beat u is in the state k beats later, at position h - k + 1. |
| Cycles.NoCatchCollision | net/mustelinae/siteswap/Utils.java:219-221 | Two balls thrown on different beats of a closed walk never land on the same beat. |
| Cycles.DistinctLandings | net/mustelinae/siteswap/Utils.java:213 | The throws of a closed walk land on pairwise different beats modulo the period. |
| Cycles.TransitionBalance | net/mustelinae/siteswap/StateGraph.java:135-156 | A throw keeps the ball count. The sum of landing times drops by the ball count and rises by the throw height. |
| Cycles.BallSum | net/mustelinae/siteswap/Utils.java:212-217 | The throws of a closed walk add up to its length times its ball count. |
| Cycles.ClosedWalkValid | net/mustelinae/siteswap/Generator.java:24-35 | The label sequence of every closed walk is a valid siteswap. |
| GeneratorModel.Kept | net/mustelinae/siteswap/Generator.java:95-101 | The handler receives no more patterns than there are cycles. |
| GeneratorModel.KeptMember | net/mustelinae/siteswap/Generator.java:97-101 | Exactly the canonical forms whose length is the period reach the handler. |
| GeneratorModel.KeptConcat | net/mustelinae/siteswap/Generator.java:69-106 | The patterns handed over across successive stretches of the search are those of each stretch, in turn. |
| GeneratorModel.KeptValid | net/mustelinae/siteswap/Generator.java:21-36 | Every pattern handed over is a valid siteswap of the period, in canonical form. |
| GeneratorModel.CycleCanonicalValid | net/mustelinae/siteswap/Generator.java:86-101 | When a cycle's canonical form keeps the full period, that form is a valid siteswap equal to its own canonical form. |
| GeneratorModel.ShorterPeriodDropped | net/mustelinae/siteswap/Generator.java:98-101 | The cycle 3 3 3 has the pattern 3. It is dropped at period 3 and handed over at period 1. |
| GeneratorModel.VisitStart | net/mustelinae/siteswap/Generator.java:76-82 | The initial first-child path comes before every other path from its root, so nothing is listed yet. |
| GeneratorModel.VisitKeeps | net/mustelinae/siteswap/Generator.java:84-105 | After each step every listed walk is a cycle from the root that comes before the current path. |
| GeneratorModel.VisitCovers | net/mustelinae/siteswap/Generator.java:84-105 | After each step every cycle from the root that comes before the current path is listed. |
| GeneratorModel.VisitOrdered | net/mustelinae/siteswap/Generator.java:84-105 | The cycles are found in strictly increasing label order, so none twice. |
| GeneratorModel.VisitStep | net/mustelinae/siteswap/Generator.java:84-105 | One turn of the inner loop keeps all three of these: listed, covered and ordered. |
| GeneratorModel.DescendStep | net/mustelinae/siteswap/Generator.java:123-127 | One more turn of the descent loop appends the first child of the last state. |
| GeneratorModel.FullRootSelfLoop | net/mustelinae/siteswap/StateGraph.java:135-147 | With as many balls as the highest throw, the root's only throw is the highest one, back to the root, and the root is at least 2^balls. |
| GeneratorModel.BoxedMissesFullRoot | net/mustelinae/siteswap/Generator.java:86 | For balls = max_height >= 7 at period 1, the root's self-loop is a cycle whose pattern is due to the handler. Yet the comparison of the two boxed ends fails. |
| GeneratorModel.RemainingStart | net/mustelinae/siteswap/Generator.java:84 | The first path leaves a positive number of paths ahead. |
| GeneratorModel.RemainingShrinks | net/mustelinae/siteswap/Generator.java:84-105 | Each step leaves fewer paths ahead, so the inner loop ends. |
| GeneratorModel.KeptSnoc | net/mustelinae/siteswap/Generator.java:97-101 | One more cycle extends what the handler received by its pattern exactly when the pattern keeps the period. |
| GeneratorModel.KeptJoin | net/mustelinae/siteswap/Generator.java:69-106 | What the handler receives over two roots in turn is what it receives for the two lists of cycles joined. |
| GeneratorModel.HandledValid | net/mustelinae/siteswap/Generator.java:21-36 | Every pattern handed over is valid, canonical and of the period. So the default handler's "shouldn't have happened" branch is never taken. |
| GeneratorModel.FoundStep | net/mustelinae/siteswap/Generator.java:69-106 | The search from one more root adds exactly the cycles starting there, none listed before. |
| GeneratorModel.AllFound | net/mustelinae/siteswap/Generator.java:69-106 | After every state has been a root, the list holds every cycle of the graph with period + 1 states, each once. |
| GeneratorModel.GraphReady | net/mustelinae/siteswap/Generator.java:62-63 | The built graph gives every state a first child, and its child lists follow the transition rule. |
| GeneratorModel.Generator.constructor | net/mustelinae/siteswap/Generator.java:40-45 | The generator starts with no graph and an empty handler record. |
| GeneratorModel.Generator.Fill | net/mustelinae/siteswap/Generator.java:123-127 | The descent loop extends the path by first children until it has exactly P states, the first-child descent from the given prefix. |
| GeneratorModel.Generator.FirstPath | net/mustelinae/siteswap/Generator.java:76-82 | The initial path has period + 1 states, starts at the root and always takes the first child. Nothing comes before it. |
| GeneratorModel.Generator.GetNextPath | net/mustelinae/siteswap/Generator.java:110-129 | null (None) only when no later path from the root exists. Otherwise it returns the next path in label order, with period + 1 states, the same first state, and every step an edge. |
| GeneratorModel.Generator.ReadLabels | net/mustelinae/siteswap/Generator.java:89-94 | The loop fills the array with getLabel of each step of the path. |
| GeneratorModel.Generator.ReadPattern | net/mustelinae/siteswap/Generator.java:89-100 | The Siteswap built from the labels stores their canonical form. The length test holds exactly when that form keeps the period. |
| GeneratorModel.Generator.HandleCycle | net/mustelinae/siteswap/Generator.java:89-101 | The handler receives the cycle's canonical form exactly when it keeps the period. |
| GeneratorModel.Generator.CheckPath | net/mustelinae/siteswap/Generator.java:86-102 | The path is counted as a cycle exactly when its first and last states are equal. What the handler received grows by the cycle's pattern when the pattern keeps the period. |
| GeneratorModel.Generator.NextPath | net/mustelinae/siteswap/Generator.java:104 | The next path keeps the search's invariant, and fewer paths remain. |
| GeneratorModel.Generator.VisitPath | net/mustelinae/siteswap/Generator.java:85-105 | One turn of the inner loop keeps the search's invariant and the handler record, and fewer paths remain. |
| GeneratorModel.Generator.FromRoot | net/mustelinae/siteswap/Generator.java:76-105 | The search from one root counts exactly the cycles from that root, in increasing label order. The handler receives their patterns that keep the period. |
| GeneratorModel.Generator.BuildGraph | net/mustelinae/siteswap/Generator.java:62-63 | The graph is built only when there is none, and a built graph is kept. |
| GeneratorModel.Generator.FromEveryRoot | net/mustelinae/siteswap/Generator.java:69-106 | The count is the number of cycles of period + 1 states from all roots, each once. The handler receives the patterns of those cycles that keep the period, in the order they are found. |
| GeneratorModel.Generator.Generate | net/mustelinae/siteswap/Generator.java:57-108 | generate counts every cycle of the graph with period throws, each once. The handler receives the canonical form of each cycle whose canonical form keeps the period. Every such pattern is a valid siteswap in canonical form. The handler receives at most as many patterns as the count. The graph searched holds exactly the states reachable from the root. |

## Left out

- net/mustelinae/siteswap/Filter.java is not part of this model. It is a command-line filter that reads siteswaps from a file and prints those passing the `Siteswap` predicates, which are modelled.
- `Generator.main` is not modelled: argument parsing, the period loop, and printing the `HashSet<Siteswap>` it fills through its handler.
- All debug and printing code: `DEBUG`, `print`, `printPath`, and the default handler's messages on standard error.
- The handler is the list `handled` of the patterns it received. Each pattern is the stored sequence of the `Siteswap` that is handed over. The `SiteswapHandler` interface is not part of this model. `setHandler` is left out, because the handler has no code of its own in the model. The boolean the handler returns is ignored by `generate` and is not modelled.
- The unused field `generated_patterns` (Generator.java:14) is not modelled.
- Iteration order of `HashSet`:
  - the constructor picks a state from `undone` by an arbitrary choice;
  - `generate` visits the roots in an arbitrary order of the node set;
  - `Generate` states the cycles found and the patterns handed over for whichever order is taken.
- The `LinkedList<Long>` path is a sequence value. `add` and `removeLast` produce new sequences. The list is never shared, so no aliasing is lost.
- `getNextPath` stays tail-recursive as in the source. The descent loops and every other loop are `while`/`for` loops.
- Some loop bodies are separate methods to keep each proof small, with the same behaviour: `FreeThrows`, `AddUnseen`, `RootOf`, `Closure`, `ScanShifts`, `Rotated`, `CannotBeCut`, `ScanNikolaj`, `PeriodBase`, `Fill`, `FirstPath`, `ReadLabels`, `ReadPattern`, `HandleCycle`, `CheckPath`, `NextPath`, `VisitPath`, `FromRoot`, `BuildGraph`, `FromEveryRoot`.
- Integers are unbounded. The model does not capture these overflows:
  - the `int` overflow of the sum in `Utils.isValid`;
  - the `int` overflow of `hashCode`;
  - the 64-bit limit of the `long` state (max_height <= 62).
- SiteswapModel.Siteswap.HashCode: computes the fold over unbounded naturals, without Java's 32-bit wrap-around.
- Utils.IsValid: heights are naturals. A negative height, which makes Java's `%` negative and the landing index go out of bounds, is not representable.
- GeneratorModel.Generator.constructor: takes `balls` and `max_height` as naturals where the source takes `int`. A negative `balls` gives the same root as 0 balls, because the loop at StateGraph.java:53-54 does not run. A negative `max_height` leaves the root's child map empty, so the first `getNextChild(root, 0)` (StateGraph.java:263) throws. The model does not represent that case.
- GeneratorModel.Generator.Generate: takes the period as a natural where the source takes `int`. `generate(-1)` makes the paths empty and `path.get(0)` (Generator.java:86) throws `IndexOutOfBoundsException`. The model does not represent that case.
- SiteswapModel.Siteswap.Equals: takes a `Siteswap?` where the source takes any `Object`. An object of another class answers false at Siteswap.java:76. The model cannot be given such an object.
- GeneratorModel.Generator.Generate: requires max_height >= 1 or no balls. With max_height = 0 and a ball, the root's child map is empty and `getNextChild(node, 0)` throws `NoSuchElementException`. The model does not reproduce that exception.
- StateGraphModel.StateGraph.GetNextChild and StateGraphModel.StateGraph.GetLabel: require `node` (`from`) to be in the graph, and for 0 a non-empty child map. The source throws a `NullPointerException` or `NoSuchElementException` otherwise, which is not reproduced. The generator only calls them on nodes of the graph.
- Utils.ArrayToString: encodes with the corrected `EncodeHeight` (9 is written as '9'). The as-written `IntToChar` is kept beside it; see Findings.
- GeneratorModel.Generator.CheckPath: compares the two ends of the path by value, the corrected form of Generator.java:86; see Findings.

## Findings

| source | as written | input that shows it | evidently intended | confidence | as-written member | corrected member |
|---|---|---|---|---|---|---|
| net/mustelinae/siteswap/Utils.java:50 | `if(i<9)` sends 9 to the letter branch, which yields `(char)('a'+9-10)`, the backtick | `intToChar(9)`; `arrayToString([9])` gives a string that `stringToArray` rejects | `i<10`, so that 9 is written '9', as the example "b97531" at Utils.java:61 shows | high; not executed | Utils.IntToChar, Utils.IntToCharNine | Utils.EncodeHeight, Utils.EncodeHeightRoundTrip, Utils.CodecRoundTrip |
| net/mustelinae/siteswap/Generator.java:86 | `path.get(0) == path.get(period-1)` compares two boxed `Long`s by reference, and `Long.valueOf` shares instances only up to 127 | 7 balls, max_height 7, period 1: the only state, 254, throws 7 back to itself, but its two boxed copies are different objects, so the cycle "7" is neither counted nor handed over | compare the values, as the comments at Generator.java:59-60 and 88 describe | high; not executed | GeneratorModel.BoxedSame, GeneratorModel.BoxedMissesFullRoot | GeneratorModel.Generator.CheckPath, GeneratorModel.Generator.Generate |
| net/mustelinae/siteswap/Siteswap.java:100-111 | `hashCode` folds the stored sequence even for invalid instances, while `equals` makes all invalid instances equal (Siteswap.java:80-81) | `new Siteswap([4,1])` and `new Siteswap([2,1])` are equal, but their hash codes are 210 and 126 | equal objects share a hash code, e.g. one constant for every invalid instance, so the `HashSet` in `main` does not keep duplicates | high; not executed | SiteswapModel.HashDisagreesOnInvalid, SiteswapModel.Siteswap.HashCode | SiteswapModel.ConsistentHash, SiteswapModel.ConsistentHashAgrees |
