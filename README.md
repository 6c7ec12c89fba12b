# connected_comp: multi-label connected-component labelling, in Dafny

`connected_comp(arr, neighbors=None)` in `conn.py` labels, in place, every connected region of
cells that share one positive class value in an n-dimensional integer array. It returns the
number of regions ("components") it found.

The algorithm works as follows:

- It reads `max_class`, the largest value in the array, and mints labels `max_class + 1`,
  `max_class + 2`, and so on.
- It scans the cells in row-major order. A cell still holding a class `0 < pix <= max_class`
  becomes the seed of a new component.
- A FIFO flood fill from the seed overwrites every reachable cell that still holds the seed's
  class with the current label.
- Cells holding a value `<= 0` are background and are never touched.
- Adjacency comes from a pluggable neighbour generator. The docstring of the default,
  `nearby`, promises "all points in near vicinity (+/- 1 offset in each dimension)". Three
  things show that every touching cell is meant: "all points in near vicinity", the offsets
  drawn from `range(-1, 2)`, which includes 0, and the comment at conn.py:23, which names the
  zero tuple as the only one with no offset. As written the generator does less:
  - `filter(all, ...)` keeps only the offsets whose every component is -1 or +1, the
    diagonal steps, which leaves the 0 in `range(-1, 2)` without use;
  - it compares against a fixed three-component lower bound, so for arrays of rank other
    than 1 or 3 it raises a broadcasting error instead of yielding.
  See "Findings".

The project has three modules.

- **Grid** (`grid.dfy`) holds the shape of an array and its row-major layout.
  - `ToFlat` and `ToCoord` are mutually inverse bijections between in-bounds coordinates and
    positions `0 .. Size(shape) - 1`.
  - `Indices` is `itertools.product(*map(range, shape))`; the k-th index it enumerates is
    `ToCoord(shape, k)`.
  - So the labeller's scan over `indices` is a scan over flat positions `0, 1, 2, ...`.
- **Nearby** (`nearby.dfy`) models the generator `nearby` on values.
  - As written: `Offsets`, `AllAtMost`, `YieldWithin`, `NearbyAsWritten` and `DiagonalNearby`.
  - As evidently intended: `MooreOffsets` and `MooreNearby`.
  - `FlatNearby` and `FlatDiagonalNearby` move either neighbourhood onto flat positions.
  - The two differ; see "Findings".
- **Labelling** (`conn.dfy`) is the labeller itself: imperative Dafny over an `array<int>`
  stored flat in row-major order.
  - A neighbour function is `nat -> seq<nat>`, with the contract that every neighbour it
    returns is a position of the array (`NeighboursInBounds`).
  - The queue is a `seq` used FIFO. Each entry is a pair `(class, position)`, as in the
    source.
  - The nested `for` / `while` / `for` loops become `LabelComponents`, `ScanCell`, `Flood`,
    `VisitNeighbours` and `Visit`.
  - The ghost state carried through the loops is the seeds found so far, a BFS parent and
    depth per cell, and the list of written cells. The loop invariants over it are:
    - `Labels`: labels were minted one per seed, in scan order.
    - `Forest`: every labelled non-seed cell was reached from a same-label neighbour nearer
      the seed.
    - `WrittenOnce`: every written cell was written once.
    - `Closed`: every same-class neighbour of a labelled cell is labelled.
  - They add up to `CompleteLabelling`, the postcondition of the whole run. The facts about
    a finished labelling are lemmas about `CompleteLabelling`.
  - `Relabelled` and `Enqueued` state what one pass over the neighbours of a cell does to
    the array and to the queue.

There are three entry points.

- `ConnectedComp` takes an arbitrary neighbour function.
- `ConnectedCompAsWritten` uses the default `nearby` as written: diagonal steps for ranks 1
  and 3, and the broadcasting error for every other rank.
- `ConnectedCompIntended` plugs in the Moore neighbourhood that `nearby` evidently intends.

## Model

| member | source | states |
|---|---|---|
| Grid.ToCoord | conn.py:34 | the coordinate of every position of the array lies within the shape |
| Grid.ToCoordToFlat | conn.py:34 | a position turned into its coordinate and back is the same position |
| Grid.ToFlatInBounds | conn.py:34 | an in-bounds coordinate has a position inside the array, and that position's coordinate is the coordinate again |
| Grid.ToFlatInjective | conn.py:34 | distinct in-bounds coordinates have distinct positions, so the flat array loses no cell |
| Grid.ProductLength | conn.py:34 | `itertools.product` of some ranges has as many tuples as the product of their lengths |
| Grid.ProductMembership | conn.py:34 | a tuple is enumerated by `itertools.product` exactly when it has one component per range, each drawn from its range |
| Grid.CardOfRanges | conn.py:34 | `product(*map(range, shape))` enumerates exactly Size(shape) indices |
| Grid.IndicesRowMajor | conn.py:34 | the k-th index the scan visits is the row-major coordinate of position k, so the scan visits every cell once, in row-major order |
| Nearby.FilterMembership | conn.py:22 | an item survives `filter(keep, ...)` exactly when it was given and `keep` holds for it |
| Nearby.OffsetsAreDiagonal | conn.py:22 | `filter(all, product(range(-1, 2), ...))` is exactly the product of {-1, +1} in every axis, in product order |
| Nearby.OffsetsShape | conn.py:21-23 | the offsets `nearby` tries number 2^d, and an offset is tried exactly when it has d components, each -1 or +1 |
| Nearby.MooreOffsetsMembership | conn.py:22-23 | with `filter(any, ...)`, an offset is kept exactly when it has d components in {-1, 0, 1} and is not all zeros, the only tuple the comment at line 23 means to reject |
| Nearby.MooreOffsetsCount | conn.py:22-23 | the intended filter keeps 3^d - 1 offsets: every offset but the zero one |
| Nearby.AllAtMost | conn.py:24-28 | `np.all(x <= y)` raises exactly when the lengths differ and neither is 1 |
| Nearby.YieldWithinOnRanks1And3 | conn.py:26-29 | for rank 1 or 3, the loop over offsets yields, in order, each `point + t` that lies inside the array, and raises nothing |
| Nearby.NearbyAsWrittenOnRanks1And3 | conn.py:16-29 | for arrays of rank 1 or 3, `nearby` as written yields exactly the in-bounds diagonal neighbours |
| Nearby.NearbyAsWrittenRaises | conn.py:24-28 | for every other rank, including 2-D images, `nearby` as written raises a broadcasting error instead of yielding |
| Nearby.DiagonalNearby | conn.py:21-29 | `nearby` as written yields at most 2^d coordinates |
| Nearby.DiagonalNearbyMembership | conn.py:22-29 | `nearby` as written yields a coordinate exactly when it is in bounds and differs from the point by exactly one in every axis |
| Nearby.DiagonalNearbyExcludesPoint | conn.py:21-29 | for rank at least 1, `nearby` as written never yields the point itself |
| Nearby.FaceNeighbourMissed | conn.py:22-23 | a touching cell that shares a coordinate with the point is not yielded by `nearby` as written, but is by the intended neighbourhood |
| Nearby.Shifted | conn.py:26-29 | the loop yields at most one coordinate per offset; everything it yields is in bounds; and it yields exactly the in-bounds sums `point + t` |
| Nearby.MooreNearby | conn.py:16-29 | the intended `nearby` yields fewer than 3^d coordinates, all of them in bounds |
| Nearby.MooreNearbyMembership | conn.py:16-29 | the intended `nearby` yields a coordinate exactly when it is in bounds, differs from the point by at most one in every axis, and differs in at least one axis |
| Nearby.MooreNearbyExcludesPoint | conn.py:16-29 | the intended `nearby` never yields the point itself, for every rank |
| Nearby.MooreNearbySymmetric | conn.py:16-29 | for in-bounds points, q is a neighbour of p exactly when p is a neighbour of q |
| Nearby.PositionsMembership | conn.py:48 | a position is listed exactly when it is a cell whose coordinate is listed |
| Nearby.FlatNearbyMembership | conn.py:48 | on flat positions, j is an intended neighbour of i exactly when both are cells and their coordinates are `nearby` each other |
| Nearby.FlatNearbySymmetric | conn.py:48 | on flat positions, the intended neighbourhood is symmetric |
| Nearby.FlatDiagonalNearbyMembership | conn.py:48 | on flat positions, j is a neighbour of i under `nearby` as written exactly when both are cells one diagonal step apart |
| Nearby.FlatDiagonalNearbySymmetric | conn.py:48 | on flat positions, the neighbourhood as written is symmetric |
| Labelling.Max | conn.py:36 | `np.max` of a non-empty array is one of its elements and no element exceeds it |
| Labelling.LabelOneCell | conn.py:50-51 | overwriting a cell that still held a class with a label leaves one cell fewer holding a class; this is the measure that makes the flood fill terminate |
| Labelling.Visit | conn.py:49-52 | one neighbour `n`: if it still holds the round's class it gets the current label, is appended to the queue as `(class, n)`, and no other cell changes; otherwise neither the array nor the queue changes. Every invariant of the round is kept, and cells-holding-a-class plus queue length is unchanged |
| Labelling.RelabelledCells | conn.py:48-51 | after a pass over the listed neighbours, a listed cell that held the round's class holds the current label and every other cell is as it was |
| Labelling.EnqueuedCells | conn.py:48-52 | a pass over the listed neighbours queues `(class, n)` exactly for the listed cells `n` that held the class, each of them once |
| Labelling.VisitNeighbours | conn.py:48-52 | the loop over the neighbours of `i` leaves the array as `Relabelled` and appends `Enqueued` to the queue: every neighbour of `i` that had the round's class is labelled, nothing outside the neighbours changes, and the round's invariants hold |
| Labelling.Flood | conn.py:46-52 | when the queue drains, no label has been overwritten, and every labelled cell has all its same-class neighbours labelled with a label no larger than its own |
| Labelling.ScanCell | conn.py:40-53 | a cell still holding a class at its turn in the scan becomes the next seed and the label counter grows by one; no label is overwritten; any other cell leaves the array and the counter unchanged; the scan invariant advances past the cell |
| Labelling.LabelComponents | conn.py:37-55 | the final array and count satisfy `CompleteLabelling`, and the cells written are exactly the originally positive ones, each written once |
| Labelling.ConnectedComp | conn.py:11-55 | a zero-size array raises (the `np.max` error), and every other array is labelled; the result satisfies `CompleteLabelling` with `max_class = Max(arr)` |
| Labelling.AsWrittenNeighbours | conn.py:31-32 | the neighbour function `nearby` gives as written only names cells, and is symmetric |
| Labelling.FirstClass | conn.py:40-42 | the first cell the scan finds still holding a class: every earlier cell is background |
| Labelling.ConnectedCompAsWritten | conn.py:16-55 | with the default `nearby` as written: ranks 1 and 3 get a complete labelling under diagonal steps; any other rank raises exactly when some cell holds a class, after that first cell got label `max_class + 1`, and otherwise returns 0 with the array unchanged |
| Labelling.IntendedNeighbours | conn.py:16-29 | the intended Moore neighbour function only names cells of the array and is symmetric |
| Labelling.IntendedNeighboursMembership | conn.py:16-29 | under the intended neighbours, n neighbours i exactly when both are cells whose coordinates touch |
| Labelling.ConnectedCompIntended | conn.py:31-55 | `connected_comp(arr)` with `nearby` corrected to the Moore neighbourhood: the same guarantees as ConnectedComp |
| Labelling.PathFromSeed | conn.py:46-52 | every labelled cell is reached from its component's seed along neighbour steps through cells holding that label |
| Labelling.SeedHadClass | conn.py:42 | every seed passed the test `0 < pix <= max_class` on its original value |
| Labelling.ClassesNeverMerge | conn.py:44-52 | two cells with the same label originally had the same class, so cells of different classes never share a label |
| Labelling.ClassPathLabels | conn.py:46-52 | along a neighbour path through cells of one positive class, every cell is labelled and labels never increase; with a symmetric neighbour function they are all equal, so a connected region of one class gets one label |
| Labelling.NeighboursShareLabel | conn.py:48-52 | with a symmetric neighbour function, neighbouring cells of one positive class end with the same label |
| Labelling.TouchingCellsShareLabel | conn.py:16-52 | with the intended neighbours, touching cells of one positive class end with the same label |
| Labelling.NothingToLabel | conn.py:36-55 | if the maximum is at most 0, the array is unchanged and the count is 0 |
| Labelling.CountAtMostCells | conn.py:53-55 | there are never more components than cells |
| Labelling.IsolatedPairTwoComponents | conn.py:40-55 | two cells of a class, neither having any neighbour, make two components |
| Labelling.SharedLabelOneComponent | conn.py:40-55 | two cells of a class that end with one label make one component |
| Labelling.NoDiagonalNeighbour | conn.py:22 | in a 2 x 1 x 1 array, no cell has a neighbour under `nearby` as written |
| Labelling.ColumnTwoComponentsAsWritten | conn.py:16-55 | with `nearby` as written, a 2 x 1 x 1 array of one class is labelled as two components |
| Labelling.ColumnOneComponent | conn.py:16-55 | with the intended neighbours, the same array is one component |

Properties of `CompleteLabelling` as a whole (`conn.dfy`):

- **Count.** The returned count is the number of seeds the scan found: `curr_label - (max_class + 1)`, a `nat`.
- **Background untouched.** Every cell with original value `<= 0` keeps it.
- **Every class labelled.** Every originally positive cell holds a label in `max_class + 1 .. max_class + count`, so none still holds a class.
- **Completeness.** The same-class neighbours of every labelled cell are labelled no later than it.
- **Connectivity.** Every labelled cell is reached from its label's seed through cells holding that label.
- **Written once.** `LabelComponents` additionally states, through `WrittenOnce`, that each cell is written at most once. That statement is about the ghost list of written cells. The executable part of it is `KeepsLabels`, which `Visit`, `VisitNeighbours`, `Flood` and `ScanCell` each ensure: no label is ever overwritten.

## Left out

- Integer width is not modelled. The model works on unbounded integers. In numpy,
  `max_class + 1` and the stored labels wrap around or truncate to the array's dtype, for
  example `uint8` with a class value 255. Floating-point arrays are not modelled either.
- `queue.Queue` is modelled as a plain sequence. Its locking and thread-safety play no part
  in this sequential use.
- `nearby` and `itertools.product` are lazy generators. They are modelled as finite
  sequences, in the order the generator produces them.
- `neighbors` is modelled as a function from a flat position to flat positions, with the
  precondition that every neighbour is a cell of the array. The model does not cover a
  caller's generator that yields out-of-range coordinates. numpy would wrap negative indices
  around or raise `IndexError`.
- Labelling.ConnectedCompIntended: this is not the source's default. It uses the Moore
  neighbourhood that `nearby` evidently intends (see "Findings"). The default as written is
  `ConnectedCompAsWritten`.
- Labelling.TouchingCellsShareLabel: holds for the intended neighbourhood only. With `nearby`
  as written, touching cells that share a coordinate can end in different components
  (`ColumnTwoComponentsAsWritten`).
- Labelling.ClassPathLabels: for an arbitrary neighbour function the lemma states only that
  labels never increase along a path. Equality needs a symmetric neighbour function. Both the
  as-written and the intended neighbourhoods are proved symmetric.
- Idempotence: running the labeller again on its own output is not claimed to
  find no components. `max_class` is recomputed from the labels, so every label counts as a
  class again.
- The imports of `matplotlib` and `cv2` and the empty `main` (conn.py:8-9, 57-61) contain no
  logic.
- The returned array is the argument itself, updated in place. The model returns only the
  count and states the new contents of the array.

## Findings

| source | as written | input that shows it | evidently intended | confidence | as-written member | corrected member |
|---|---|---|---|---|---|---|
| conn.py:22 | `filter(all, ...)` keeps only the offsets with no zero component, the 2^d diagonal ones, so cells that touch along an axis are never neighbours | a 2 x 1 x 1 array of ones: its two cells touch, yet they are labelled as two components and the count is 2 | `filter(any, ...)`, which rejects only the all-zero offset (comment at line 23, which names only the zero tuple as having no offset; "all points in near vicinity" at line 18; `range(-1, 2)` at line 22 includes 0, which `filter(all, ...)` would make pointless): the 3^d - 1 Moore offsets, giving one component and count 1 | high, not executed | Labelling.ColumnTwoComponentsAsWritten | Labelling.ColumnOneComponent |
| conn.py:24 | the lower bound is the fixed `np.array([0,0,0])`, which broadcasts against a neighbour coordinate only of rank 1 or 3 | any 2-D array with a positive cell, e.g. `[[1, 0], [0, 0]]`: the first call to `nearby` raises a broadcasting error | a lower bound of zeros of the array's own rank: every in-bounds neighbour of any rank is yielded | high, not executed | Nearby.NearbyAsWrittenRaises | Nearby.MooreNearbyMembership |
