# Five classroom algorithms, modelled and verified in Dafny

This project models the algorithmic core of five course assignments and
proves what each one promises.

- **Bidirectional BFS** (`solver.dfy`, module `Solver`). This is the puzzle
  solver of `A3/solver.py`.
  - It expands the start side and the end side alternately, one depth layer
    at a time (`find_next_frontier`).
  - After each expansion it scans the two frontiers for a shared state.
  - It rebuilds the move list from the two parent chains.
  - The puzzle itself (`rubik`: states, `quarter_twists`, `perm_apply`,
    `perm_inverse`) is abstract: a state type, a generator sequence and two
    function parameters. The only assumption is the inverse law
    `apply(invert(m), apply(m, s)) == s`.
- **Convex-hull predicates** (`convex_hull.dfy`, module `ConvexHull`). These
  are the integer helpers of `A2/convex_hull.py`: quadrant and angular
  comparison about the origin, the signed triangle area, the three
  orientation tests, and the two point-list scans `is_colinear` and
  `point_checker_for_equal_points`.
- **Seam carving** (`seam.dfy`, module `Seam`). This is `A5/resizeable_image.py`.
  - `dynamic_best_seam` fills the `memoized` and `temp` tables row by row.
    It is modelled as a class whose map fields those methods update.
  - It also covers the naive recursion `recursive_best_seam`, its driver
    `naive_best_seam`, and `compute_seam_energy`.
  - The energy grid is an input (`energy_list[x, y]`).
- **Gale–Shapley** (`matching.dfy`, module `Matching`). This is the
  resident-proposing loop of `A1/matching.py`. Its state is the free-resident
  queue, the per-resident proposal counters and the hospital-to-resident
  matches.
- **Huffman coding**. These are the encoder, decoder and byte packer of
  `A4/huffman.py`, split over four files:
  - `huffman_tree.dfy`: the merge entries, their leaves and weights,
    `trim_dataset`;
  - `huffman_sort.dfy`: the in-place Lomuto `quick_part` and `quick_sort`
    over an array;
  - `huffman_code.dfy`: the code book, `codemaker`/`codeHelper`, encoding
    and prefix-matching `decode`;
  - `huffman.dfy`: `encode`, `compress`, `decompress`, the bit/byte packing
    and the round-trip theorems.

`common.dfy` holds the shared `Option` type.

Python dictionaries are insertion-ordered, and two places depend on that
order: `decode` scans `decoder_ring.items()` in order, and `matching.py`
queues residents in `residents.keys()` order. The model therefore keeps
both orders:

- the Huffman code book is an association list `seq<(Byte, Bits)>` in
  insertion order;
- the matching input carries the key order explicitly.

Crashes the source can hit are modelled as outcomes, not preconditions,
wherever the surrounding code can reach them:

- the `IndexError` of an emptied BFS frontier;
- the `KeyError`, `IndexError` or `ValueError` of one Gale–Shapley pass;
- the `IndexError` of `encode` on an empty message.

## Model

| member | source | states |
|---|---|---|
| ConvexHull.Quadrant | A2/convex_hull.py:92-102 | the quadrant is 1..4; each value holds exactly on its region, with axis points going to the first matching case (the origin is quadrant 1) |
| ConvexHull.Compare | A2/convex_hull.py:104-119 | the comparison answers only -1 or 1, never 0 |
| ConvexHull.CompareSelf | A2/convex_hull.py:113-119 | a point compared with itself gives 1 |
| ConvexHull.CompareAcrossQuadrants | A2/convex_hull.py:113-116 | points in different quadrants are ordered by quadrant number |
| ConvexHull.CompareWithinQuadrant | A2/convex_hull.py:117-119 | within one quadrant, -1 exactly when origin, p, q turn clockwise (`p.y*q.x < q.y*p.x`) |
| ConvexHull.CompareAntisymmetric | A2/convex_hull.py:104-119 | if p sorts before q then q does not sort before p |
| ConvexHull.TriangleArea | A2/convex_hull.py:25-36 | the area is minus half the shoelace sum `a.x(b.y-c.y) + b.x(c.y-a.y) + c.x(a.y-b.y)`, exactly |
| ConvexHull.AreaUnitExample | A2/convex_hull.py:25-36 | the source's sign convention: (0,0), (1,0), (0,1) has area -1/2 |
| ConvexHull.AreaSwap | A2/convex_hull.py:25-36 | swapping b and c negates the area |
| ConvexHull.AreaRotate | A2/convex_hull.py:25-36 | rotating (a, b, c) cyclically keeps the area |
| ConvexHull.AreaDegenerate | A2/convex_hull.py:25-36 | two equal points give area 0 |
| ConvexHull.ClockwiseSign | A2/convex_hull.py:39-63 | with integer points and the positive EPSILON, clockwise, counter-clockwise and collinear are exactly negative, positive and zero cross product |
| ConvexHull.ExactlyOneOrientation | A2/convex_hull.py:39-63 | every triple is exactly one of clockwise, counter-clockwise, collinear |
| ConvexHull.IsColinear | A2/convex_hull.py:251-262 | the flag scan answers true iff all points share one x or all share one y |
| ConvexHull.PointCheckerForEqualPoints | A2/convex_hull.py:207-219 | true iff the point's x is at least every x in the list or at most every x |
| Solver.InvertPathUndoes | A3/solver.py:150-152 | under the inverse law, the inverted moves undo a run, and stay within the generators when those are closed under inversion |
| Solver.RootedReach | A3/solver.py:67-72 | a node built by the search is reachable from its root in exactly `order` moves |
| Solver.ExpandNode | A3/solver.py:66-74 | the inner move loop appends exactly `Successors`: in generator order, a depth+1 child with a `(move, current)` link for each generator whose state is not yet visited, counting states made earlier in the loop as visited (so the first generator reaching a state wins); the visited list grows by exactly those states |
| Solver.FindNextFrontier | A3/solver.py:59-74 | exactly the maximal run of head-depth nodes is popped; the rest stays ahead of the new nodes, which are the popped nodes' `Successors` in pop order (`Expansion`); every new node is one generator step below a popped node; every neighbour of a popped node ends up visited; a one-layer frontier comes back as the next layer |
| Solver.NextLayer | A3/solver.py:59-74 | the side invariant passes to the next layer: every frontier node is rooted at depth d, every state exactly d moves from the root is on the frontier, and every visited state is within d moves |
| Solver.Intersect | A3/solver.py:122-137 | the scan of the two frontiers finds nothing iff no left state equals a right state; otherwise it returns the first equal pair in scan order |
| Solver.BuildPath | A3/solver.py:139-154 | the rebuilt moves take start to end, number at most `left.order + right.order`, and are generators or inverses of generators |
| Solver.Round | A3/solver.py:108-137 | one pass of the main loop expands the side the flag names, flips the flag, keeps both side invariants, and reports a meeting pair of equal states, one from each new frontier, at the new depths, exactly when the new frontiers share a state |
| Solver.NoMeetNoPath | A3/solver.py:122-137 | frontiers with no shared state at depths a and b leave no path of a+b moves |
| Solver.DeadEnd | A3/solver.py:59-63 | an emptied frontier means end is unreachable from start |
| Solver.ShortestPath | A3/solver.py:77-154 | equal start and end give `[]`; a returned list takes start to end and is a shortest path; `None` means no path of up to 14 moves; the empty-frontier crash means no path at all |
| Solver.SolutionIsShortest | A3/solver.py:139-154 | a path found when no shorter path exists is at the exact distance |
| Solver.MeetInMiddle | A3/solver.py:122-137 | a shortest path of a+b moves passes a state at distance a from start and b from end |
| Seam.ResizeableImage.ComputeSeamEnergy | A5/resizeable_image.py:143-147 | the accumulator loop returns the seam's energy sum |
| Seam.OptionsOf | A5/resizeable_image.py:50-60 | the candidates are the 2 or 3 in-bounds pixels above, and the last one is the right neighbour (the middle one at the right edge) |
| Seam.From | A5/resizeable_image.py:62-72 | the chosen parent is above, adjacent, has the least recorded cost, and is the rightmost of the tied candidates |
| Seam.Path | A5/resizeable_image.py:70-72 | the stored seam runs from row 0 to (x, y), one pixel per row, connected |
| Seam.PathEnergy | A5/resizeable_image.py:66-72 | the stored seam's energy equals the memoized cost |
| Seam.CostIsMinimal | A5/resizeable_image.py:66-68 | no seam from row 0 to (x, y) has lower energy than the memoized cost |
| Seam.OptionsMinimum | A5/resizeable_image.py:62-72 | `min(min_list)` is the least parent cost, and `min_list_path` at it is the chosen parent |
| Seam.ResizeableImage.FillTopRow | A5/resizeable_image.py:41-43 | row 0 of `memoized` holds the pixel energies and row 0 of `temp` the one-pixel seams |
| Seam.ResizeableImage.GatherOptions | A5/resizeable_image.py:62-64 | `min_list` holds the candidates' costs in order, `min_list_path` maps each cost to the last candidate with it, and the loop variable ends on the last candidate |
| Seam.ResizeableImage.LeastOption | A5/resizeable_image.py:48-66 | the minimum equals the least parent cost and `min_list_path` maps it to the chosen parent |
| Seam.ResizeableImage.ExtendSeam | A5/resizeable_image.py:70-72 | `temp[x, y]` becomes the parent's seam plus (x, y); nothing else changes |
| Seam.ResizeableImage.FillCell | A5/resizeable_image.py:48-73 | one cell stores its cost and its seam, and returns the minimum and the leftover loop variable |
| Seam.ResizeableImage.ScanBottom | A5/resizeable_image.py:74-85 | the `row_minimum` record after x bottom pixels matches the strict-comparison running minimum |
| Seam.ResizeableImage.FillRow | A5/resizeable_image.py:46-86 | one row pass fills that row of both tables and, on the last row, leaves the final `row_minimum` |
| Seam.ResizeableImage.DynamicBestSeam | A5/resizeable_image.py:35-87 | both tables hold every pixel's cost and seam, and the result is the as-written seam `DpResult` |
| Seam.LeftmostMin | A5/resizeable_image.py:74-85 | the bottom pixel kept has the least cost and is the leftmost such pixel |
| Seam.DpResultIsSeam | A5/resizeable_image.py:74-87 | the returned seam is connected, one pixel per row, ends at the leftmost least-cost bottom pixel, and costs the record of the leftover candidate plus its own energy |
| Seam.LeastSeamIsOptimal | A5/resizeable_image.py:74-87 | the seam stored at the leftmost least-cost bottom pixel beats every top-to-bottom seam |
| Seam.DpResultNotOptimal | A5/resizeable_image.py:79-87 | on a 2×2 grid the returned seam costs 5 while the least seam costs 0 |
| Seam.RecursiveBestSeam | A5/resizeable_image.py:106-138 | the naive result is a connected seam from (x, y) to the bottom, one pixel per row |
| Seam.RecursiveStep | A5/resizeable_image.py:109-138 | the naive seam is (x, y) followed by the cheapest of the seams below, taking the leftmost on ties |
| Seam.RecursiveBestSeamIsOptimal | A5/resizeable_image.py:106-138 | no seam from (x, y) to the bottom has lower energy than the naive one |
| Seam.RecursiveBestSeamLeftmost | A5/resizeable_image.py:135-136 | a candidate further left than the chosen one is strictly more expensive |
| Seam.ResizeableImage.NaiveBestSeam | A5/resizeable_image.py:94-99 | the loop returns the as-written `NaiveResult`, the seam started at x = width-2 |
| Seam.NaiveResultNotOptimal | A5/resizeable_image.py:96-97 | on a 3×2 grid the naive driver returns a seam of energy 9 although one of energy 0 exists |
| Seam.NaiveLeastStart | A5/resizeable_image.py:94-99 | the intended start column gives the least naive seam, leftmost on ties |
| Seam.NaiveLeastSeamIsOptimal | A5/resizeable_image.py:94-99 | the naive seam from that column beats every top-to-bottom seam |
| Seam.LeastSeamsAgree | A5/resizeable_image.py:35-138 | the intended dynamic and naive seams have the same energy |
| Matching.IndexOf | A1/matching.py:83 | `ranking.index` returns a position holding the element exactly when the element is present |
| Matching.InvInit | A1/matching.py:59-61 | the initial state satisfies the loop invariant |
| Matching.Propose | A1/matching.py:64-87 | one pass crashes exactly when the source raises, and otherwise produces the next state |
| Matching.NextInv | A1/matching.py:64-110 | a pass that does not crash keeps the whole invariant |
| Matching.NextFreeOk | A1/matching.py:64-87 | the free queue stays duplicate-free and holds only residents |
| Matching.NextProposalsOk | A1/matching.py:72-77 | no resident proposes more than n times or past the end of its list |
| Matching.NextMatchesOk | A1/matching.py:78-85 | every partner holds its latest proposal and is not queued, and no resident partners two hospitals |
| Matching.NextInjective | A1/matching.py:78-85 | no resident is the partner of two hospitals |
| Matching.NextAccounted | A1/matching.py:64-87 | every resident is queued, matched, or has made n proposals |
| Matching.NextProposed | A1/matching.py:88-105 | the source's invariant: a hospital a resident proposed to holds a partner ranked at least as high |
| Matching.NextMeasure | A1/matching.py:72-87 | a proposing pass adds exactly one proposal and does not grow the queue; an exhausted resident leaves the queue |
| Matching.ProposalsBound | A1/matching.py:75-77 | at most n proposals per resident in total |
| Matching.NextMatches | A1/matching.py:78-85 | a matched hospital stays matched, and its partner's rank never worsens and strictly improves on a switch |
| Matching.CompleteNeverFails | A1/matching.py:71-83 | with complete preference lists no pass crashes |
| Matching.InvStable | A1/matching.py:88-110 | every pair is acceptable and no blocking pair involves a matched resident |
| Matching.FinalUnmatchedSettled | A1/matching.py:88-110 | once the queue is empty, each of the first n hospitals on an unmatched resident's list holds a partner it ranks at least as high |
| Matching.PreferredProposed | A1/matching.py:88-105 | a hospital that a matched resident prefers holds someone it ranks at least as high |
| Matching.FinalPerfect | A1/matching.py:107-110 | with complete lists the final matching is perfect |
| Matching.AllMatched | A1/matching.py:107-110 | with complete lists every resident ends up matched |
| Matching.GaleShapley | A1/matching.py:59-87 | the loop ends; with complete lists it yields a perfect matching; any matching it yields is acceptable and injective, has no blocking pair with a matched resident, and none with an unmatched resident among the n hospitals it could propose to |
| HuffmanTree.FirstOccurrences | A4/huffman.py:43-46 | the dict's key order has each byte of the message exactly once |
| HuffmanTree.CountsSum | A4/huffman.py:43-45 | the counts over the distinct bytes sum to the message length |
| HuffmanTree.SumOfPerm | A4/huffman.py:54-60 | the total frequency of a set of symbols is independent of their order |
| HuffmanTree.SymbolsPerm | A4/huffman.py:54-60 | the leaves of the entry list are independent of its order |
| HuffmanTree.MergeWeighed | A4/huffman.py:55-58 | a merged entry's weight is the sum of its leaves' frequencies |
| HuffmanTree.Trim | A4/huffman.py:76-81 | the trimmed tree has the entry's leaves in order |
| HuffmanSort.QuickPart | A4/huffman.py:90-98 | the pivot lands in [lo, hi]; lighter entries are on its left and the rest on its right; the range is a permutation and nothing outside it moves |
| HuffmanSort.Swap | A4/huffman.py:96-97 | a swap exchanges two cells and keeps the contents |
| HuffmanSort.QuickSort | A4/huffman.py:83-88 | positions lo..hi come out sorted by weight and permuted; nothing outside moves |
| HuffmanCode.Assign | A4/huffman.py:110 | the dict store sets the byte's code, keeps every other, and appends a new key at the end |
| HuffmanCode.Paths | A4/huffman.py:108-114 | each leaf gets its root-to-leaf path; codes extend the prefix and are bit strings |
| HuffmanCode.HelperAppendsPaths | A4/huffman.py:108-114 | `codeHelper` appends the leaves' paths to the dict in leaf order |
| HuffmanCode.PathsPrefixFree | A4/huffman.py:108-114 | no path is a prefix of another |
| HuffmanCode.CodeMakerPaths | A4/huffman.py:100-114 | the code book has one code per leaf; it is prefix-free and binary; a real tree gives non-empty codes, a lone leaf gets the empty code |
| HuffmanCode.EncodeMessage | A4/huffman.py:70-72 | the loop concatenates the codes of the message's bytes in order |
| HuffmanCode.EncodeWith | A4/huffman.py:70-72 | the encoding of binary codes is binary |
| HuffmanCode.Lookup | A4/huffman.py:72 | a key is found exactly when present, with the code stored under it |
| HuffmanCode.FirstMatch | A4/huffman.py:131-136 | the scan finds no entry iff no code equals the window |
| HuffmanCode.Decode | A4/huffman.py:116-139 | the window loop produces exactly the specification `Decoded` |
| HuffmanCode.DecodeFirst | A4/huffman.py:127-137 | a book with distinct keys, no code a prefix of another and no empty code decodes a leading code to its byte and continues after it |
| HuffmanCode.DecodeEncode | A4/huffman.py:70-72 | decoding the encoding of a message gives back the message, for a book with distinct keys, prefix-free and without empty codes |
| Huffman.CountFrequencies | A4/huffman.py:43-46 | the dict counts each byte's occurrences, its keys are exactly the message's bytes in first-occurrence order, and the counts sum to the length |
| Huffman.TallyStep | A4/huffman.py:44-45 | one pass of the counting loop keeps the count invariant for the longer prefix |
| Huffman.InitialLeaves | A4/huffman.py:47-50 | one `(count, byte)` leaf per key, in key order |
| Huffman.SortLeaves | A4/huffman.py:52 | the tuple sort orders leaves by (weight, byte) and permutes them |
| Huffman.StartPartition | A4/huffman.py:47-52 | the sorted leaves partition the distinct bytes with correct weights and are sorted by weight |
| Huffman.MergeLightest | A4/huffman.py:55-60 | a merge pass replaces the two lightest entries by their merge, one fewer entry, re-sorted by weight |
| Huffman.MergeKeeps | A4/huffman.py:9-27 | the partition invariant survives a merge pass |
| Huffman.LastEntry | A4/huffman.py:29-33 | the last entry holds every distinct byte and has the correct weight |
| Huffman.RootWeight | A4/huffman.py:29-33 | the last entry's weight is the message length |
| Huffman.RootBook | A4/huffman.py:62-68 | the final tree's code book covers exactly the message's bytes, is prefix-free and binary, and is unambiguous once there are two distinct bytes |
| Huffman.Encode | A4/huffman.py:36-74 | an empty message crashes (`None`); otherwise the bits are the concatenated codes, the book is a valid Huffman book for the message, and the root weighs the message length |
| Huffman.ByteBits | A4/huffman.py:179 | `bin(b)[2:].rjust(8, '0')` is 8 binary digits whose value is b |
| Huffman.ValueInjective | A4/huffman.py:162 | equal-length bit strings with the same value are equal |
| Huffman.UnpackPack | A4/huffman.py:159-180 | unpacking packed bits gives them back |
| Huffman.PackUnpack | A4/huffman.py:159-180 | packing unpacked bytes gives them back |
| Huffman.PadFor | A4/huffman.py:151 | the pad is 1..8 and makes the length a multiple of 8 |
| Huffman.SliceTo | A4/huffman.py:183 | Python's `s[0:stop]`, including negative and out-of-range stops |
| Huffman.Padded | A4/huffman.py:156-157 | the padded string is binary, a multiple of 8 long, and starts with the code |
| Huffman.PaddingRoundTrip | A4/huffman.py:151-183 | pad, pack, unpack and strip the pad gives back the bit string |
| Huffman.PadBits | A4/huffman.py:156-157 | the loop appends exactly `pad` zeros |
| Huffman.PackBytes | A4/huffman.py:159-162 | the loop packs each 8-bit chunk, most significant bit first |
| Huffman.PackCode | A4/huffman.py:151-162 | the pad and the packed bytes are those of the padded code |
| Huffman.Compress | A4/huffman.py:142-164 | an empty message crashes (`None`); otherwise a valid book, the pad for the code length, and the packed padded code |
| Huffman.Decompress | A4/huffman.py:167-187 | unpack, strip the pad, and decode |
| Huffman.CompressRoundTrip | A4/huffman.py:142-187 | with two or more distinct bytes, decompressing the compressed message gives it back |
| Huffman.LoneByteLost | A4/huffman.py:62-139 | with one distinct byte the code is empty and decompression returns nothing |
| Huffman.LoneByteExample | A4/huffman.py:62-74 | for the bytes 97 97 97 the book is {97: ""} and the round trip gives the empty message |
| HuffmanCode.CodeMakerFixed | A4/huffman.py:100-114 | the corrected book gives a lone leaf the code "0": one code per leaf, prefix-free, no empty code |
| Huffman.FixedRoundTrip | A4/huffman.py:142-187 | with the corrected book the round trip gives back every message over the tree's bytes |

## Left out

- The `rubik` module (`A3/solver.py:7-9`) is not part of this model. States,
  moves, `perm_apply` and `perm_inverse` are parameters. The inverse law
  (`InverseLaw`) and closure of the generators under inversion (`Symmetric`)
  are hypotheses of the results that need them.
- Solver.ShortestPath: minimality is proved only under `Symmetric`. The
  quarter twists have that property, but the model cannot see it.
- Solver: the `heapq` import and the invariant comment at
  `A3/solver.py:13-49` are not code; the invariant the model proves is
  `Side`.
- ConvexHull: floating point. Areas are exact rationals over integer points,
  and `EPSILON` (Python's machine epsilon) is exactly 2^-52. With integer coordinates
  the orientation tests are therefore exact sign tests.
- ConvexHull: `y_intercept`, `point_checker`, `sort_clockwise`,
  `base_case_hull`, `compute_hull`, `divide` and `merge_hulls` are not
  modelled. They rest on float slopes, `atan2` and a float centroid.
  `divide` cannot run as written: the assignment to `left` at line 244
  follows the `return` at line 243, so `left` is unbound at line 247.
- Seam: the `imagematrix` superclass (`energy`, `width`, `height`,
  `remove_seam`) is not part of this model. So `best_seam` and
  `remove_best_seam`, which only tabulate the energy and call back into it,
  are also left out. The energy grid is an input.
- Seam: the `print` in `naive_best_seam` is left out.
- Seam.ResizeableImage.DynamicBestSeam: a grid narrower or shorter than 2
  makes the source raise `KeyError`/`IndexError`. That case is a
  precondition here, not an outcome. The same holds for the width ≥ 2
  requirement of `RecursiveBestSeam`, since a one-column image indexes
  column 1.
- Seam: the `temp` seams are sequences of pixels. Python's list aliasing
  (`temp[p] + [(x, y)]` builds a new list) has no observable effect.
- Matching: reading the input file (`A1/matching.py:15-43`), printing the
  matches, and timing are left out. The instructor's grading comment
  pasted at `A1/matching.py:66-69` is not code.
- Matching.GaleShapley: an unmatched resident is covered only for the first
  n hospitals on its list. The source stops a resident after n proposals
  (`A1/matching.py:75`), so with a list longer than n a later hospital can
  still form a blocking pair with it.
- Matching.GaleShapley: the preference tables are an input value. The
  loop's possible `KeyError`/`IndexError`/`ValueError` is reported as
  `None` rather than an exception.
- Huffman: the `__main__` block (`A4/huffman.py:190-227`) is left out. That
  covers argument handling, file I/O, and `marshal`/`pickle` of the code
  book.
- Huffman: the `"pad"` entry that `compress` stores in the code book is a
  separate integer. `decode` would compare it against bit-string windows,
  which never matches, so leaving it out of the book changes nothing.
  A book without a `"pad"` key (`decoder_ring.get("pad")` is `None`) is not
  modelled.
- Huffman: `array('B', ...)` and `bytearray` are plain byte sequences.
- Huffman.RootWeight: the docstring's claim that the code is optimal
  (`A4/huffman.py:29-33`) is not proved. The model proves what the
  invariant states: the last entry holds every symbol and weighs the
  message length.
- Huffman.Encode: the merge tree is returned as a ghost value alongside the
  result. The source discards it.

## Findings

| source | as written | input that shows it | evidently intended | confidence | as-written member | corrected member |
|---|---|---|---|---|---|---|
| A5/resizeable_image.py:79-87 | `row_minimum[3]` takes `min_list_path[self.memoized[option]]`, where `option` is the candidate loop's leftover variable, i.e. the last candidate above the bottom pixel, not the cheapest one | energy columns `[[0, 0], [5, 0]]` (2×2): the result is (1,0),(0,1) with energy 5 | use the seam stored for the bottom pixel, `temp[row_minimum[1]]`, the least seam (energy 0 here) | not executed | Seam.DpResultNotOptimal | Seam.LeastSeamIsOptimal |
| A5/resizeable_image.py:96-97 | `naive_best_seam` overwrites `seam_list` each iteration and keeps only the seam from x = width-2; column width-1 is never tried | energy columns `[[0, 0], [9, 9], [0, 0]]` (3×2): the result costs 9, while (0,0),(0,1) costs 0 | keep the cheapest of the seams from every column | not executed | Seam.NaiveResultNotOptimal | Seam.NaiveLeastSeamIsOptimal |
| A4/huffman.py:62-114 | a message with one distinct byte gives a one-leaf tree, so `codeHelper` assigns it the empty code; the encoding is empty and `decompress` returns nothing | the bytes 97 97 97: book {97: ""}, round trip gives the empty message | give a lone leaf a one-bit code so the round trip holds | not executed | Huffman.LoneByteExample | Huffman.FixedRoundTrip |
