/**
 * `connected_comp`: multi-label connected-component labelling in place.
 *
 * The array is kept flat in row-major order (see module Grid), so the scan over
 * `itertools.product(*map(range, arr.shape))` is a scan over positions
 * 0, 1, ..., Length - 1, and a neighbour function maps a position to the
 * positions of its neighbours.
 *
 * `max_class` is the largest value present on entry. A cell holding `v` with
 * `0 < v <= max_class` still holds its class; a labelled cell holds a value
 * above `max_class`; a cell holding `v <= 0` is never touched.
 */
module Labelling {
  import opened Grid
  import opened Nearby

  /**
   * What `connected_comp` returns: the number of components, the error `np.max` raises on a
   * zero-size array, or the error the default `nearby` raises as written on ranks other than 1 and 3.
   */
  datatype Outcome = Labelled(count: nat) | ZeroSizeArray | NeighboursRaised

  /** `np.max`: the largest element. */
  function Max(s: seq<int>): (m: int)
    requires |s| > 0
    ensures m in s
    ensures forall k :: 0 <= k < |s| ==> s[k] <= m
  {
    if |s| == 1 then s[0]
    else
      var m := Max(s[..|s| - 1]);
      assert forall k :: 0 <= k < |s| - 1 ==> s[..|s| - 1][k] == s[k];
      if s[|s| - 1] > m then s[|s| - 1] else m
  }

  /** The contract of a neighbour function: every neighbour of a cell is a cell. */
  ghost predicate NeighboursInBounds(nbrs: nat -> seq<nat>, len: nat)
  {
    forall i, n :: 0 <= i < len && n in nbrs(i) ==> n < len
  }

  /** A neighbour relation that holds both ways. */
  ghost predicate Symmetric(nbrs: nat -> seq<nat>, len: nat)
  {
    forall i, n :: 0 <= i < len && 0 <= n < len && n in nbrs(i) ==> i in nbrs(n)
  }

  /** Number of cells still holding a class (`0 < v <= maxClass`). */
  function Unlabelled(s: seq<int>, maxClass: int): nat
  {
    if s == [] then 0 else (if 0 < s[0] <= maxClass then 1 else 0) + Unlabelled(s[1..], maxClass)
  }

  /** Labelling one cell that still held a class leaves one unlabelled cell fewer. */
  lemma {:induction false} LabelOneCell(s: seq<int>, maxClass: int, n: nat, v: int)
    requires n < |s| && 0 < s[n] <= maxClass && v > maxClass
    ensures Unlabelled(s[n := v], maxClass) == Unlabelled(s, maxClass) - 1
  {
    if n > 0 {
      assert s[n := v][1..] == s[1..][n - 1 := v];
      LabelOneCell(s[1..], maxClass, n - 1, v);
    } else {
      assert s[n := v][1..] == s[1..];
    }
  }

  // ---------------------------------------------------------------------------
  // The state of a labelling in progress

  /**
   * Labels minted so far: `seeds[j]` is the cell that started the component labelled
   * `maxClass + 1 + j`; every cell holds its class or one of these labels; a labelled cell
   * had the class of its component's seed and does not come before that seed in the scan.
   */
  ghost predicate Labels(orig: seq<int>, s: seq<int>, maxClass: int, seeds: seq<nat>)
  {
    && |s| == |orig|
    && (forall i :: 0 <= i < |orig| ==> orig[i] <= maxClass)
    && (forall i :: 0 <= i < |s| ==> s[i] == orig[i] || (0 < orig[i] && maxClass < s[i] <= maxClass + |seeds|))
    && (forall j :: 0 <= j < |seeds| ==> seeds[j] < |s| && s[seeds[j]] == maxClass + 1 + j)
    && (forall j, j' :: 0 <= j < j' < |seeds| ==> seeds[j] < seeds[j'])
    && (forall i, j {:trigger s[i], seeds[j]} :: 0 <= i < |s| && 0 <= j < |seeds| && s[i] == maxClass + 1 + j ==>
          seeds[j] <= i && orig[i] == orig[seeds[j]])
  }

  /**
   * Every labelled cell other than a seed was reached from a cell `parent[i]` with the same
   * label, of which it is a neighbour and which is nearer the seed (`depth`).
   */
  ghost predicate Forest(s: seq<int>, maxClass: int, seeds: seq<nat>, parent: seq<int>, depth: seq<nat>,
                         nbrs: nat -> seq<nat>)
  {
    && |parent| == |s| && |depth| == |s|
    && forall i {:trigger parent[i]} :: 0 <= i < |s| && maxClass < s[i] <= maxClass + |seeds| && i != seeds[s[i] - maxClass - 1] ==>
         0 <= parent[i] < |s| && s[parent[i]] == s[i] && i in nbrs(parent[i]) && depth[parent[i]] < depth[i]
  }

  /** `writes` lists every cell written so far, each once: exactly the labelled cells. */
  ghost predicate WrittenOnce(s: seq<int>, maxClass: int, writes: seq<nat>)
  {
    && (forall k, k' :: 0 <= k < k' < |writes| ==> writes[k] != writes[k'])
    && (forall k :: 0 <= k < |writes| ==> writes[k] < |s|)
    && (forall i :: 0 <= i < |s| ==> (i in writes <==> maxClass < s[i]))
  }

  /** Every neighbour of cell `i` that had `i`'s class is labelled, with a label no larger than `i`'s. */
  ghost predicate Closed(orig: seq<int>, s: seq<int>, maxClass: int, nbrs: nat -> seq<nat>, i: nat)
    requires |s| == |orig| && i < |s|
  {
    forall n :: n in nbrs(i) && n < |s| && orig[n] == orig[i] ==> maxClass < s[n] <= s[i]
  }

  /** Every cell before position `upto` that had a class is labelled. */
  ghost predicate ScannedBelow(orig: seq<int>, s: seq<int>, maxClass: int, upto: nat)
    requires |s| == |orig|
  {
    forall i :: 0 <= i < upto && i < |s| && 0 < orig[i] ==> maxClass < s[i]
  }

  /** A chain of cells, each a neighbour of the one before, all holding the same value in `s`. */
  ghost predicate IsPath(s: seq<int>, nbrs: nat -> seq<nat>, path: seq<nat>)
  {
    && |path| > 0 && path[0] < |s|
    && (forall k :: 0 <= k < |path| ==> path[k] < |s| && s[path[k]] == s[path[0]])
    && (forall k :: 0 <= k < |path| - 1 ==> path[k + 1] in nbrs(path[k]))
  }

  /** Cell `dst` is reached from `src` along a path of cells that all hold `src`'s value. */
  ghost predicate Reaches(s: seq<int>, nbrs: nat -> seq<nat>, src: nat, dst: nat)
  {
    exists path :: IsPath(s, nbrs, path) && path[0] == src && path[|path| - 1] == dst
  }

  /**
   * What `connected_comp` leaves behind, for input `orig`, output `s`, `maxClass` the
   * maximum of `orig`, and `count` the returned number of components:
   */
  ghost predicate CompleteLabelling(orig: seq<int>, s: seq<int>, maxClass: int, count: nat, seeds: seq<nat>,
                            nbrs: nat -> seq<nat>)
  {
    // labels maxClass+1 .. maxClass+count were minted, one per seed, in scan order
    && Labels(orig, s, maxClass, seeds)
    && count == |seeds|
    // non-positive cells are never written
    && (forall i :: 0 <= i < |s| && orig[i] <= 0 ==> s[i] == orig[i])
    // every cell that had a class now holds a label
    && (forall i :: 0 <= i < |s| && 0 < orig[i] ==> maxClass < s[i] <= maxClass + count)
    // a same-class neighbour of a labelled cell is labelled no later than it
    && (forall i :: 0 <= i < |s| && maxClass < s[i] ==> Closed(orig, s, maxClass, nbrs, i))
    // every cell with a label is reached from that label's seed through cells with the label
    && (forall i :: 0 <= i < |s| && maxClass < s[i] <= maxClass + count ==> Reaches(s, nbrs, seeds[s[i] - maxClass - 1], i))
  }

  // ---------------------------------------------------------------------------
  // Facts about a finished labelling

  /** Following parent links from a labelled cell leads back to its seed. */
  lemma {:induction false} PathFromSeed(orig: seq<int>, s: seq<int>, maxClass: int, seeds: seq<nat>,
                                        parent: seq<int>, depth: seq<nat>, nbrs: nat -> seq<nat>, i: nat)
    returns (path: seq<nat>)
    requires Labels(orig, s, maxClass, seeds) && Forest(s, maxClass, seeds, parent, depth, nbrs)
    requires i < |s| && maxClass < s[i]
    ensures IsPath(s, nbrs, path) && path[0] == seeds[s[i] - maxClass - 1] && path[|path| - 1] == i
    decreases depth[i]
  {
    var seed := seeds[s[i] - maxClass - 1];
    if i == seed {
      path := [i];
    } else {
      var before := PathFromSeed(orig, s, maxClass, seeds, parent, depth, nbrs, parent[i]);
      path := before + [i];
      assert path[|path| - 2] == parent[i];
      assert forall k :: 0 <= k < |before| ==> path[k] == before[k];
    }
  }

  /** Cells linked by neighbour steps between cells that all had one class. */
  ghost predicate IsClassPath(orig: seq<int>, nbrs: nat -> seq<nat>, path: seq<nat>)
  {
    && |path| > 0 && path[0] < |orig|
    && (forall k :: 0 <= k < |path| ==> path[k] < |orig| && orig[path[k]] == orig[path[0]])
    && (forall k :: 0 <= k < |path| - 1 ==> path[k + 1] in nbrs(path[k]))
  }

  /**
   * Along a path of cells of one positive class every cell is labelled and the labels never
   * increase; with a symmetric neighbour function they are all equal, so a whole connected
   * region of one class gets one label.
   */
  lemma ClassPathLabels(orig: seq<int>, s: seq<int>, maxClass: int, count: nat, seeds: seq<nat>,
                        nbrs: nat -> seq<nat>, path: seq<nat>)
    requires CompleteLabelling(orig, s, maxClass, count, seeds, nbrs)
    requires IsClassPath(orig, nbrs, path) && 0 < orig[path[0]]
    ensures maxClass < s[path[|path| - 1]] <= s[path[0]]
    ensures Symmetric(nbrs, |s|) ==> s[path[|path| - 1]] == s[path[0]]
  {
    ClosedAlongPath(orig, s, maxClass, nbrs, path);
  }

  /** The induction behind ClassPathLabels, from the closure of labelled cells alone. */
  lemma {:induction false} ClosedAlongPath(orig: seq<int>, s: seq<int>, maxClass: int, nbrs: nat -> seq<nat>,
                                           path: seq<nat>)
    requires |s| == |orig|
    requires forall i :: 0 <= i < |s| && 0 < orig[i] ==> maxClass < s[i]
    requires forall i :: 0 <= i < |s| && maxClass < s[i] ==> Closed(orig, s, maxClass, nbrs, i)
    requires IsClassPath(orig, nbrs, path) && 0 < orig[path[0]]
    ensures maxClass < s[path[|path| - 1]] <= s[path[0]]
    ensures Symmetric(nbrs, |s|) ==> s[path[|path| - 1]] == s[path[0]]
  {
    if |path| > 1 {
      var front := path[..|path| - 1];
      assert IsClassPath(orig, nbrs, front) by {
        assert forall k :: 0 <= k < |front| ==> front[k] == path[k];
      }
      ClosedAlongPath(orig, s, maxClass, nbrs, front);
      var i, n := path[|path| - 2], path[|path| - 1];
      assert n in nbrs(i) && orig[n] == orig[i];
      assert Closed(orig, s, maxClass, nbrs, i);
      if Symmetric(nbrs, |s|) {
        assert Closed(orig, s, maxClass, nbrs, n);
        assert i in nbrs(n);
      }
    }
  }

  /**
   * With a symmetric neighbour function, two neighbouring cells of one class end up with the
   * same label.
   */
  lemma NeighboursShareLabel(orig: seq<int>, s: seq<int>, maxClass: int, count: nat, seeds: seq<nat>,
                             nbrs: nat -> seq<nat>, i: nat, n: nat)
    requires CompleteLabelling(orig, s, maxClass, count, seeds, nbrs) && Symmetric(nbrs, |s|)
    requires i < |s| && n < |s| && n in nbrs(i) && orig[i] == orig[n] > 0
    ensures maxClass < s[i] == s[n]
  {
    assert Closed(orig, s, maxClass, nbrs, i);
    assert i in nbrs(n);
    assert Closed(orig, s, maxClass, nbrs, n);
  }

  /** Every seed passed the seed test `0 < pix <= max_class` on its original value. */
  lemma SeedHadClass(orig: seq<int>, s: seq<int>, maxClass: int, seeds: seq<nat>, j: nat)
    requires Labels(orig, s, maxClass, seeds) && j < |seeds|
    ensures seeds[j] < |orig| && 0 < orig[seeds[j]] <= maxClass
  {
  }

  /** Adjacent cells of different classes never share a label. */
  lemma ClassesNeverMerge(orig: seq<int>, s: seq<int>, maxClass: int, count: nat, seeds: seq<nat>,
                          nbrs: nat -> seq<nat>, i: nat, n: nat)
    requires CompleteLabelling(orig, s, maxClass, count, seeds, nbrs)
    requires i < |s| && n < |s| && maxClass < s[i] && s[i] == s[n]
    ensures orig[i] == orig[n]
  {
  }

  /** If no cell is positive, nothing is written and no component is found. */
  lemma NothingToLabel(orig: seq<int>, s: seq<int>, maxClass: int, count: nat, seeds: seq<nat>,
                       nbrs: nat -> seq<nat>)
    requires CompleteLabelling(orig, s, maxClass, count, seeds, nbrs)
    requires maxClass <= 0
    ensures s == orig && count == 0
  {
    assert forall i :: 0 <= i < |s| ==> s[i] == orig[i];
    if count > 0 {
      SeedHadClass(orig, s, maxClass, seeds, 0);
    }
  }

  // ---------------------------------------------------------------------------
  // The scan over all cells

  /** The state of the scan before position `idx`: every cell with a class before `idx` is labelled. */
  ghost predicate Scan(orig: seq<int>, s: seq<int>, maxClass: int, seeds: seq<nat>, parent: seq<int>,
                       depth: seq<nat>, writes: seq<nat>, nbrs: nat -> seq<nat>, idx: nat)
  {
    && Labels(orig, s, maxClass, seeds)
    && Forest(s, maxClass, seeds, parent, depth, nbrs) && WrittenOnce(s, maxClass, writes)
    && ScannedBelow(orig, s, maxClass, idx)
    && (forall j :: 0 <= j < |seeds| ==> seeds[j] < idx)
    && (forall x :: 0 <= x < |s| && maxClass < s[x] ==> Closed(orig, s, maxClass, nbrs, x))
  }

  /** Before the scan nothing is labelled, so the scan state holds trivially at position 0. */
  lemma ScanStart(orig: seq<int>, maxClass: int, parent: seq<int>, depth: seq<nat>, nbrs: nat -> seq<nat>)
    requires forall i :: 0 <= i < |orig| ==> orig[i] <= maxClass
    requires |parent| == |orig| && |depth| == |orig|
    ensures Scan(orig, orig, maxClass, [], parent, depth, [], nbrs, 0)
  {
  }

  /**
   * The scan meets cell `idx` still holding its class, and comes after every earlier seed:
   * `idx` gets the next label and becomes the seed of a new round.
   */
  lemma StartRound(orig: seq<int>, s: seq<int>, s': seq<int>, maxClass: int, seeds: seq<nat>, parent: seq<int>,
                   depth: seq<nat>, writes: seq<nat>, nbrs: nat -> seq<nat>, idx: nat, curLabel: int)
    requires Scan(orig, s, maxClass, seeds, parent, depth, writes, nbrs, idx)
    requires idx < |s| && 0 < s[idx] <= maxClass
    requires curLabel == maxClass + 1 + |seeds| && s' == s[idx := curLabel]
    ensures Round(orig, s', maxClass, seeds + [idx], parent, depth, writes + [idx], nbrs)
  {
    LabelsAfterSeed(orig, s, s', maxClass, seeds, idx, curLabel);
    ForestAfterSeed(s, s', maxClass, seeds, parent, depth, nbrs, idx, curLabel);
  }

  /** Giving the new seed `idx` the next label keeps the labels consistent. */
  lemma LabelsAfterSeed(orig: seq<int>, s: seq<int>, s': seq<int>, maxClass: int, seeds: seq<nat>, idx: nat,
                        curLabel: int)
    requires Labels(orig, s, maxClass, seeds) && forall j :: 0 <= j < |seeds| ==> seeds[j] < idx
    requires idx < |s| && 0 < s[idx] <= maxClass
    requires curLabel == maxClass + 1 + |seeds| && s' == s[idx := curLabel]
    ensures Labels(orig, s', maxClass, seeds + [idx])
  {
    var seeds' := seeds + [idx];
    assert s[idx] == orig[idx];
    assert forall j :: 0 <= j < |seeds| ==> seeds'[j] == seeds[j] && seeds[j] != idx;
    forall i, j | 0 <= i < |s'| && 0 <= j < |seeds'| && s'[i] == maxClass + 1 + j
      ensures seeds'[j] <= i && orig[i] == orig[seeds'[j]]
    {
      if i != idx {
        assert s'[i] == s[i];
        if j == |seeds| {
          assert false;
        }
      }
    }
  }

  /** The new seed is a root of the forest; every other labelled cell keeps its parent. */
  lemma ForestAfterSeed(s: seq<int>, s': seq<int>, maxClass: int, seeds: seq<nat>, parent: seq<int>,
                        depth: seq<nat>, nbrs: nat -> seq<nat>, idx: nat, curLabel: int)
    requires Forest(s, maxClass, seeds, parent, depth, nbrs)
    requires forall x :: 0 <= x < |s| ==> s[x] <= maxClass + |seeds|
    requires idx < |s| && s[idx] <= maxClass
    requires curLabel == maxClass + 1 + |seeds| && s' == s[idx := curLabel]
    ensures Forest(s', maxClass, seeds + [idx], parent, depth, nbrs)
  {
    var seeds' := seeds + [idx];
    forall i | 0 <= i < |s'| && maxClass < s'[i] <= maxClass + |seeds'| && i != seeds'[s'[i] - maxClass - 1]
      ensures 0 <= parent[i] < |s'| && s'[parent[i]] == s'[i] && i in nbrs(parent[i]) && depth[parent[i]] < depth[i]
    {
      assert i != idx && s'[i] == s[i];
      assert seeds'[s[i] - maxClass - 1] == seeds[s[i] - maxClass - 1];
    }
  }

  /** Labelling the new seed `idx` leaves every other labelled cell closed. */
  lemma ClosedAfterSeed(orig: seq<int>, s: seq<int>, s': seq<int>, maxClass: int, nbrs: nat -> seq<nat>, p: int,
                        idx: nat, curLabel: int)
    requires |s| == |orig| && idx < |s| && s[idx] <= maxClass < curLabel && s' == s[idx := curLabel]
    requires forall x :: 0 <= x < |s| && maxClass < s[x] ==> Closed(orig, s, maxClass, nbrs, x)
    ensures ClosedOutside(orig, s', maxClass, nbrs, p, curLabel, [], idx)
  {
    ClosedAfterLabel(orig, s, maxClass, nbrs, idx, curLabel);
  }

  /** After the round seeded at `idx` the scan may move past `idx`. */
  lemma EndRound(orig: seq<int>, before: seq<int>, s: seq<int>, maxClass: int, seeds: seq<nat>, parent: seq<int>,
                 depth: seq<nat>, writes: seq<nat>, nbrs: nat -> seq<nat>, idx: nat)
    requires |before| == |orig| && ScannedBelow(orig, before, maxClass, idx)
    requires |seeds| > 0 && seeds[|seeds| - 1] == idx && forall j :: 0 <= j < |seeds| - 1 ==> seeds[j] < idx
    requires Round(orig, s, maxClass, seeds, parent, depth, writes, nbrs)
    requires KeepsLabels(before, s, maxClass) && idx < |s| && maxClass < s[idx]
    requires forall x :: 0 <= x < |s| && maxClass < s[x] ==> Closed(orig, s, maxClass, nbrs, x)
    ensures Scan(orig, s, maxClass, seeds, parent, depth, writes, nbrs, idx + 1)
  {
  }

  /** The scan meets cell `idx` without a class (`pix <= 0`, or already labelled): nothing changes. */
  lemma SkipCell(orig: seq<int>, s: seq<int>, maxClass: int, seeds: seq<nat>, parent: seq<int>,
                 depth: seq<nat>, writes: seq<nat>, nbrs: nat -> seq<nat>, idx: nat)
    requires Scan(orig, s, maxClass, seeds, parent, depth, writes, nbrs, idx)
    requires idx < |s| && !(0 < s[idx] <= maxClass)
    ensures Scan(orig, s, maxClass, seeds, parent, depth, writes, nbrs, idx + 1)
  {
    assert 0 < orig[idx] ==> s[idx] != orig[idx];
  }

  /** When the scan is over, the state it kept is a finished labelling. */
  lemma Finished(orig: seq<int>, s: seq<int>, maxClass: int, count: nat, seeds: seq<nat>, parent: seq<int>,
                 depth: seq<nat>, writes: seq<nat>, nbrs: nat -> seq<nat>)
    requires Scan(orig, s, maxClass, seeds, parent, depth, writes, nbrs, |s|) && count == |seeds|
    ensures CompleteLabelling(orig, s, maxClass, count, seeds, nbrs) && WrittenOnce(s, maxClass, writes)
    ensures forall i :: 0 <= i < |s| ==> (i in writes <==> 0 < orig[i])
  {
    forall x | 0 <= x < |s| && maxClass < s[x] <= maxClass + |seeds|
      ensures Reaches(s, nbrs, seeds[s[x] - maxClass - 1], x)
    {
      var path := PathFromSeed(orig, s, maxClass, seeds, parent, depth, nbrs, x);
    }
  }

  // ---------------------------------------------------------------------------
  // One round of the flood fill

  /** The labelling state while the component of the latest seed is being flooded. */
  ghost predicate Round(orig: seq<int>, s: seq<int>, maxClass: int, seeds: seq<nat>, parent: seq<int>,
                        depth: seq<nat>, writes: seq<nat>, nbrs: nat -> seq<nat>)
  {
    && Labels(orig, s, maxClass, seeds)
    && Forest(s, maxClass, seeds, parent, depth, nbrs) && WrittenOnce(s, maxClass, writes)
    && |seeds| > 0 && ScannedBelow(orig, s, maxClass, seeds[|seeds| - 1])
  }

  /** Every queued entry carries the round's class `p` and a cell already holding `curLabel`. */
  ghost predicate Queued(s: seq<int>, p: int, curLabel: int, queue: seq<(int, nat)>)
  {
    forall k :: 0 <= k < |queue| ==> queue[k].0 == p && queue[k].1 < |s| && s[queue[k].1] == curLabel
  }

  /**
   * Every labelled cell is closed, except cells of the current round that are still queued
   * and the cell `i` whose neighbours are being visited (`i == -1`: none).
   */
  ghost predicate ClosedOutside(orig: seq<int>, s: seq<int>, maxClass: int, nbrs: nat -> seq<nat>, p: int,
                                curLabel: int, queue: seq<(int, nat)>, i: int)
    requires |s| == |orig|
  {
    forall x :: 0 <= x < |s| && maxClass < s[x] && (s[x] < curLabel || ((p, x) !in queue && x != i)) ==>
      Closed(orig, s, maxClass, nbrs, x)
  }

  /** A labelled cell of `before` keeps its label in `after`. */
  ghost predicate KeepsLabels(before: seq<int>, after: seq<int>, maxClass: int)
  {
    |before| == |after| && forall x :: 0 <= x < |before| && maxClass < before[x] ==> after[x] == before[x]
  }

  /** Every cell listed in `ns` that had class `p` is labelled. */
  ghost predicate Settled(orig: seq<int>, s: seq<int>, maxClass: int, ns: seq<nat>, p: int)
  {
    forall k :: 0 <= k < |ns| && ns[k] < |s| && ns[k] < |orig| && orig[ns[k]] == p ==> maxClass < s[ns[k]]
  }

  /** Labelling cell `n` leaves every labelled cell other than `n` as closed as it was. */
  lemma ClosedAfterLabel(orig: seq<int>, s: seq<int>, maxClass: int, nbrs: nat -> seq<nat>, n: nat, v: int)
    requires |s| == |orig| && n < |s| && s[n] <= maxClass < v
    ensures forall x :: 0 <= x < |s| && maxClass < s[x] && Closed(orig, s, maxClass, nbrs, x) ==>
              Closed(orig, s[n := v], maxClass, nbrs, x)
  {
  }

  /**
   * The visit step of the flood: neighbour `n` of the labelled cell `i`, still holding the
   * class of the current component's seed, gets the current label with `i` as its parent.
   */
  lemma VisitStep(orig: seq<int>, s: seq<int>, maxClass: int, seeds: seq<nat>, parent: seq<int>, depth: seq<nat>,
                  writes: seq<nat>, nbrs: nat -> seq<nat>, p: int, curLabel: int, i: nat, n: nat)
    requires Round(orig, s, maxClass, seeds, parent, depth, writes, nbrs)
    requires curLabel == maxClass + |seeds| && p == orig[seeds[|seeds| - 1]]
    requires i < |s| && s[i] == curLabel && n in nbrs(i) && n < |s| && s[n] == p
    ensures 0 < s[n] <= maxClass
    ensures Round(orig, s[n := curLabel], maxClass, seeds, parent[n := i], depth[n := depth[i] + 1], writes + [n], nbrs)
  {
    LabelsAfterVisit(orig, s, maxClass, seeds, p, curLabel, n);
    ForestAfterVisit(s, maxClass, seeds, parent, depth, nbrs, curLabel, i, n);
    WrittenAfterVisit(s, maxClass, writes, curLabel, n);
  }

  /** Writing the round's label into a cell that held no label records exactly that one write. */
  lemma WrittenAfterVisit(s: seq<int>, maxClass: int, writes: seq<nat>, curLabel: int, n: nat)
    requires WrittenOnce(s, maxClass, writes) && n < |s| && s[n] <= maxClass < curLabel
    ensures WrittenOnce(s[n := curLabel], maxClass, writes + [n])
  {
  }

  /** Giving cell `n`, which had the seed's class, the round's label keeps the labels consistent. */
  lemma LabelsAfterVisit(orig: seq<int>, s: seq<int>, maxClass: int, seeds: seq<nat>, p: int, curLabel: int, n: nat)
    requires Labels(orig, s, maxClass, seeds)
    requires |seeds| > 0 && ScannedBelow(orig, s, maxClass, seeds[|seeds| - 1])
    requires curLabel == maxClass + |seeds| && p == orig[seeds[|seeds| - 1]]
    requires n < |s| && s[n] == p
    ensures 0 < s[n] <= maxClass && n != seeds[|seeds| - 1]
    ensures Labels(orig, s[n := curLabel], maxClass, seeds)
  {
    var last := |seeds| - 1;
    var seed := seeds[last];
    assert s[seed] == maxClass + 1 + last;
    assert 0 < orig[seed] <= maxClass;
    var s' := s[n := maxClass + |seeds|];
    assert s[n] == orig[n] && n != seed;
    assert seed <= n;
    forall x, j | 0 <= x < |s'| && 0 <= j < |seeds| && s'[x] == maxClass + 1 + j
      ensures seeds[j] <= x && orig[x] == orig[seeds[j]]
    {
      if x != n {
        assert s'[x] == s[x];
      }
    }
  }

  /** Cell `n`, reached from `i`, gets `i` as its parent, one step further from the seed. */
  lemma ForestAfterVisit(s: seq<int>, maxClass: int, seeds: seq<nat>, parent: seq<int>, depth: seq<nat>,
                         nbrs: nat -> seq<nat>, curLabel: int, i: nat, n: nat)
    requires Forest(s, maxClass, seeds, parent, depth, nbrs)
    requires |seeds| > 0 && seeds[|seeds| - 1] != n && curLabel == maxClass + |seeds|
    requires i < |s| && s[i] == curLabel && n in nbrs(i) && n < |s| && s[n] <= maxClass
    ensures Forest(s[n := curLabel], maxClass, seeds, parent[n := i], depth[n := depth[i] + 1], nbrs)
  {
    var s', parent', depth' := s[n := curLabel], parent[n := i], depth[n := depth[i] + 1];
    forall x {:trigger parent'[x]} | 0 <= x < |s'| && maxClass < s'[x] <= maxClass + |seeds| && x != seeds[s'[x] - maxClass - 1]
      ensures 0 <= parent'[x] < |s'| && s'[parent'[x]] == s'[x] && x in nbrs(parent'[x]) && depth'[parent'[x]] < depth'[x]
    {
      if x != n {
        assert s'[x] == s[x] && parent'[x] == parent[x] && depth'[x] == depth[x];
        assert parent[x] != n;
      }
    }
  }

  /** Labelling a cell that held a class leaves the queued entries as they were. */
  lemma QueuedAfterLabel(s: seq<int>, p: int, curLabel: int, queue: seq<(int, nat)>, n: nat)
    requires Queued(s, p, curLabel, queue) && n < |s| && s[n] != curLabel
    ensures Queued(s[n := curLabel], p, curLabel, queue + [(p, n)])
  {
    forall k | 0 <= k < |queue|
      ensures (queue + [(p, n)])[k] == queue[k] && queue[k].1 != n
    {
    }
  }

  /** Labelling and queueing a cell that held a class keeps every other labelled cell as closed as it was. */
  lemma ClosedOutsideAfterLabel(orig: seq<int>, s: seq<int>, maxClass: int, nbrs: nat -> seq<nat>, p: int,
                                curLabel: int, queue: seq<(int, nat)>, i: int, n: nat)
    requires |s| == |orig| && n < |s| && s[n] <= maxClass < curLabel
    requires ClosedOutside(orig, s, maxClass, nbrs, p, curLabel, queue, i)
    ensures ClosedOutside(orig, s[n := curLabel], maxClass, nbrs, p, curLabel, queue + [(p, n)], i)
  {
    var s', queue' := s[n := curLabel], queue + [(p, n)];
    assert (p, n) == queue'[|queue|];
    forall x | 0 <= x < |s'| && maxClass < s'[x] && (s'[x] < curLabel || ((p, x) !in queue' && x != i))
      ensures Closed(orig, s', maxClass, nbrs, x)
    {
      assert x != n && s'[x] == s[x];
      assert (p, x) !in queue' ==> (p, x) !in queue;
      ClosedAfterLabel(orig, s, maxClass, nbrs, n, curLabel);
    }
  }

  /** The branch `focus == p` of the flood fill, on the state of the round. */
  lemma LabelNeighbour(orig: seq<int>, s: seq<int>, maxClass: int, seeds: seq<nat>, parent: seq<int>,
                       depth: seq<nat>, writes: seq<nat>, nbrs: nat -> seq<nat>, p: int, curLabel: int,
                       queue: seq<(int, nat)>, i: nat, n: nat)
    requires Round(orig, s, maxClass, seeds, parent, depth, writes, nbrs)
    requires curLabel == maxClass + |seeds| && p == orig[seeds[|seeds| - 1]]
    requires Queued(s, p, curLabel, queue) && ClosedOutside(orig, s, maxClass, nbrs, p, curLabel, queue, i)
    requires i < |s| && s[i] == curLabel && n in nbrs(i) && n < |s| && s[n] == p
    ensures Round(orig, s[n := curLabel], maxClass, seeds, parent[n := i], depth[n := depth[i] + 1], writes + [n], nbrs)
    ensures Queued(s[n := curLabel], p, curLabel, queue + [(p, n)])
    ensures ClosedOutside(orig, s[n := curLabel], maxClass, nbrs, p, curLabel, queue + [(p, n)], i)
    ensures KeepsLabels(s, s[n := curLabel], maxClass)
    ensures Unlabelled(s[n := curLabel], maxClass) + 1 == Unlabelled(s, maxClass)
  {
    VisitStep(orig, s, maxClass, seeds, parent, depth, writes, nbrs, p, curLabel, i, n);
    LabelOneCell(s, maxClass, n, curLabel);
    QueuedAfterLabel(s, p, curLabel, queue, n);
    ClosedOutsideAfterLabel(orig, s, maxClass, nbrs, p, curLabel, queue, i, n);
  }

  /** Visiting one more neighbour `ns[j]` extends the settled prefix of `ns`. */
  lemma SettledStep(orig: seq<int>, before: seq<int>, after: seq<int>, maxClass: int, ns: seq<nat>, p: int, j: nat)
    requires j < |ns| && Settled(orig, before, maxClass, ns[..j], p) && KeepsLabels(before, after, maxClass)
    requires ns[j] < |after| && ns[j] < |orig| && orig[ns[j]] == p ==> maxClass < after[ns[j]]
    ensures Settled(orig, after, maxClass, ns[..j + 1], p)
  {
    assert forall k :: 0 <= k < j ==> ns[..j + 1][k] == ns[..j][k];
  }

  /**
   * Once every neighbour of `i` that had the round's class is labelled, `i` is closed and
   * need no longer be excepted.
   */
  lemma CloseCell(orig: seq<int>, s: seq<int>, maxClass: int, seeds: seq<nat>, parent: seq<int>, depth: seq<nat>,
                  writes: seq<nat>, nbrs: nat -> seq<nat>, p: int, curLabel: int, queue: seq<(int, nat)>, i: nat)
    requires Round(orig, s, maxClass, seeds, parent, depth, writes, nbrs)
    requires curLabel == maxClass + |seeds| && p == orig[seeds[|seeds| - 1]] && i < |s| && s[i] == curLabel
    requires ClosedOutside(orig, s, maxClass, nbrs, p, curLabel, queue, i)
    requires Settled(orig, s, maxClass, nbrs(i), p)
    ensures ClosedOutside(orig, s, maxClass, nbrs, p, curLabel, queue, -1)
  {
    var last := |seeds| - 1;
    assert orig[i] == orig[seeds[last]];
    assert Closed(orig, s, maxClass, nbrs, i);
  }

  /** Every cell listed in `ns` is a cell of an array of `size` cells. */
  ghost predicate Listed(ns: seq<nat>, size: nat)
  {
    forall k :: 0 <= k < |ns| ==> ns[k] < size
  }

  /**
   * `s` after visiting the cells `ns` in order, each visit relabelling the cell to
   * `curLabel` when it holds `p` at that moment.
   */
  ghost function Relabelled(s: seq<int>, ns: seq<nat>, p: int, curLabel: int): (r: seq<int>)
    requires Listed(ns, |s|)
    ensures |r| == |s|
    decreases |ns|
  {
    if ns == [] then s
    else
      var before := Relabelled(s, ns[..|ns| - 1], p, curLabel);
      var n := ns[|ns| - 1];
      if before[n] == p then before[n := curLabel] else before
  }

  /** The queue entries that visiting the cells `ns` of `s` in order appends. */
  ghost function Enqueued(s: seq<int>, ns: seq<nat>, p: int, curLabel: int): seq<(int, nat)>
    requires Listed(ns, |s|)
    decreases |ns|
  {
    if ns == [] then []
    else
      var n := ns[|ns| - 1];
      Enqueued(s, ns[..|ns| - 1], p, curLabel)
        + (if Relabelled(s, ns[..|ns| - 1], p, curLabel)[n] == p then [(p, n)] else [])
  }

  /**
   * Visiting `ns` relabels exactly the listed cells that held `p` and leaves every other
   * cell as it was.
   */
  lemma {:induction false} RelabelledCells(s: seq<int>, ns: seq<nat>, p: int, curLabel: int)
    requires Listed(ns, |s|) && curLabel != p
    ensures forall x :: 0 <= x < |s| ==>
              Relabelled(s, ns, p, curLabel)[x] == if x in ns && s[x] == p then curLabel else s[x]
    decreases |ns|
  {
    if ns != [] {
      var init := ns[..|ns| - 1];
      RelabelledCells(s, init, p, curLabel);
      assert ns == init + [ns[|ns| - 1]];
    }
  }

  /**
   * Visiting `ns` queues each listed cell that held `p` exactly once, paired with `p`,
   * and nothing else.
   */
  lemma {:induction false} EnqueuedCells(s: seq<int>, ns: seq<nat>, p: int, curLabel: int)
    requires Listed(ns, |s|) && curLabel != p
    ensures forall e :: e in Enqueued(s, ns, p, curLabel) <==> e.0 == p && e.1 in ns && s[e.1] == p
    ensures forall k, k' :: 0 <= k < k' < |Enqueued(s, ns, p, curLabel)| ==>
              Enqueued(s, ns, p, curLabel)[k].1 != Enqueued(s, ns, p, curLabel)[k'].1
    decreases |ns|
  {
    if ns != [] {
      var init := ns[..|ns| - 1];
      var n := ns[|ns| - 1];
      EnqueuedCells(s, init, p, curLabel);
      RelabelledCells(s, init, p, curLabel);
      assert ns == init + [n];
      var q := Enqueued(s, init, p, curLabel);
      if Relabelled(s, init, p, curLabel)[n] == p {
        assert n !in init;
        assert forall k :: 0 <= k < |q| ==> q[k] in q;
      }
    }
  }

  /** One visit extends `Relabelled` and `Enqueued` from `ns[..j]` to `ns[..j + 1]`. */
  lemma RelabelledStep(s0: seq<int>, ns: seq<nat>, j: nat, p: int, curLabel: int,
                       before: seq<int>, after: seq<int>, queue: seq<(int, nat)>, q: seq<(int, nat)>, q': seq<(int, nat)>)
    requires Listed(ns, |s0|) && j < |ns|
    requires before == Relabelled(s0, ns[..j], p, curLabel) && q == queue + Enqueued(s0, ns[..j], p, curLabel)
    requires before[ns[j]] == p ==> after == before[ns[j] := curLabel] && q' == q + [(p, ns[j])]
    requires before[ns[j]] != p ==> after == before && q' == q
    ensures after == Relabelled(s0, ns[..j + 1], p, curLabel) && q' == queue + Enqueued(s0, ns[..j + 1], p, curLabel)
  {
    assert ns[..j + 1][..j] == ns[..j];
  }

  // ---------------------------------------------------------------------------
  // The engine

  /**
   * One neighbour `n` of `i`: if it still holds the round's class `p` it gets `curLabel`
   * and is queued.
   */
  method Visit(a: array<int>, nbrs: nat -> seq<nat>, p: int, i: nat, n: nat, curLabel: int,
               queue: seq<(int, nat)>, ghost orig: seq<int>, ghost maxClass: int,
               ghost seeds: seq<nat>, ghost parent: seq<int>, ghost depth: seq<nat>, ghost writes: seq<nat>)
    returns (queue': seq<(int, nat)>, ghost parent': seq<int>, ghost depth': seq<nat>, ghost writes': seq<nat>)
    requires Round(orig, a[..], maxClass, seeds, parent, depth, writes, nbrs)
    requires curLabel == maxClass + |seeds| && p == orig[seeds[|seeds| - 1]]
    requires Queued(a[..], p, curLabel, queue) && ClosedOutside(orig, a[..], maxClass, nbrs, p, curLabel, queue, i)
    requires i < a.Length && a[i] == curLabel && n in nbrs(i) && n < a.Length
    modifies a
    ensures Round(orig, a[..], maxClass, seeds, parent', depth', writes', nbrs)
    ensures Queued(a[..], p, curLabel, queue') && ClosedOutside(orig, a[..], maxClass, nbrs, p, curLabel, queue', i)
    ensures KeepsLabels(old(a[..]), a[..], maxClass)
    ensures orig[n] == p ==> maxClass < a[n]
    ensures old(a[n]) == p ==> a[..] == old(a[..])[n := curLabel] && queue' == queue + [(p, n)]
    ensures old(a[n]) != p ==> a[..] == old(a[..]) && queue' == queue
    ensures Unlabelled(a[..], maxClass) + |queue'| == Unlabelled(old(a[..]), maxClass) + |queue|
  {
    queue', parent', depth', writes' := queue, parent, depth, writes;
    var focus := a[n];
    if focus == p {
      ghost var s := a[..];
      LabelNeighbour(orig, s, maxClass, seeds, parent, depth, writes, nbrs, p, curLabel, queue, i, n);
      a[n] := curLabel;
      assert a[..] == s[n := curLabel];
      queue' := queue + [(focus, n)];
      parent' := parent[n := i];
      depth' := depth[n := depth[i] + 1];
      writes' := writes + [n];
    } else {
      assert orig[n] == p ==> a[..][n] != orig[n];
    }
  }

  /**
   * The `for n in neighbors(i)` loop of one step of the flood fill: every neighbour of `i`
   * still holding the round's class `p` gets `curLabel` and is queued.
   */
  method VisitNeighbours(a: array<int>, nbrs: nat -> seq<nat>, p: int, i: nat, curLabel: int,
                         queue: seq<(int, nat)>, ghost orig: seq<int>, ghost maxClass: int,
                         ghost seeds: seq<nat>, ghost parent: seq<int>, ghost depth: seq<nat>,
                         ghost writes: seq<nat>)
    returns (queue': seq<(int, nat)>, ghost parent': seq<int>, ghost depth': seq<nat>, ghost writes': seq<nat>)
    requires NeighboursInBounds(nbrs, a.Length)
    requires Round(orig, a[..], maxClass, seeds, parent, depth, writes, nbrs)
    requires curLabel == maxClass + |seeds| && p == orig[seeds[|seeds| - 1]]
    requires i < a.Length && a[i] == curLabel
    requires Queued(a[..], p, curLabel, queue) && ClosedOutside(orig, a[..], maxClass, nbrs, p, curLabel, queue, i)
    modifies a
    ensures Round(orig, a[..], maxClass, seeds, parent', depth', writes', nbrs)
    ensures Queued(a[..], p, curLabel, queue') && ClosedOutside(orig, a[..], maxClass, nbrs, p, curLabel, queue', -1)
    ensures KeepsLabels(old(a[..]), a[..], maxClass)
    ensures Settled(orig, a[..], maxClass, nbrs(i), p)
    ensures Listed(nbrs(i), a.Length)
    ensures a[..] == Relabelled(old(a[..]), nbrs(i), p, curLabel)
    ensures queue' == queue + Enqueued(old(a[..]), nbrs(i), p, curLabel)
    ensures Unlabelled(a[..], maxClass) + |queue'| == Unlabelled(old(a[..]), maxClass) + |queue|
  {
    queue', parent', depth', writes' := queue, parent, depth, writes;
    var ns := nbrs(i);
    assert Listed(ns, a.Length) by {
      assert forall k :: 0 <= k < |ns| ==> ns[k] in nbrs(i);
    }
    for j := 0 to |ns|
      invariant Round(orig, a[..], maxClass, seeds, parent', depth', writes', nbrs)
      invariant Queued(a[..], p, curLabel, queue') && ClosedOutside(orig, a[..], maxClass, nbrs, p, curLabel, queue', i)
      invariant KeepsLabels(old(a[..]), a[..], maxClass) && a[i] == curLabel
      invariant Settled(orig, a[..], maxClass, ns[..j], p)
      invariant a[..] == Relabelled(old(a[..]), ns[..j], p, curLabel)
      invariant queue' == queue + Enqueued(old(a[..]), ns[..j], p, curLabel)
      invariant Unlabelled(a[..], maxClass) + |queue'| == Unlabelled(old(a[..]), maxClass) + |queue|
    {
      assert ns[j] in nbrs(i);
      ghost var before := a[..];
      ghost var q := queue';
      queue', parent', depth', writes' :=
        Visit(a, nbrs, p, i, ns[j], curLabel, queue', orig, maxClass, seeds, parent', depth', writes');
      SettledStep(orig, before, a[..], maxClass, ns, p, j);
      RelabelledStep(old(a[..]), ns, j, p, curLabel, before, a[..], queue, q, queue');
    }
    assert ns[..|ns|] == ns;
    CloseCell(orig, a[..], maxClass, seeds, parent', depth', writes', nbrs, p, curLabel, queue', i);
  }

  /**
   * The `while not queue.empty()` loop: a breadth-first flood fill from `seed`, which already
   * holds `curLabel`, over the neighbours that still hold the seed's class `pix`.
   */
  method Flood(a: array<int>, nbrs: nat -> seq<nat>, pix: int, seed: nat, curLabel: int,
               ghost orig: seq<int>, ghost maxClass: int, ghost seeds: seq<nat>,
               ghost parent: seq<int>, ghost depth: seq<nat>, ghost writes: seq<nat>)
    returns (ghost parent': seq<int>, ghost depth': seq<nat>, ghost writes': seq<nat>)
    requires NeighboursInBounds(nbrs, a.Length)
    requires Round(orig, a[..], maxClass, seeds, parent, depth, writes, nbrs)
    requires seeds[|seeds| - 1] == seed && curLabel == maxClass + |seeds| && pix == orig[seed]
    requires ClosedOutside(orig, a[..], maxClass, nbrs, pix, curLabel, [], seed)
    modifies a
    ensures Round(orig, a[..], maxClass, seeds, parent', depth', writes', nbrs)
    ensures KeepsLabels(old(a[..]), a[..], maxClass)
    ensures forall x :: 0 <= x < a.Length && maxClass < a[x] ==> Closed(orig, a[..], maxClass, nbrs, x)
  {
    parent', depth', writes' := parent, depth, writes;
    var queue: seq<(int, nat)> := [(pix, seed)];
    while |queue| > 0
      invariant Round(orig, a[..], maxClass, seeds, parent', depth', writes', nbrs)
      invariant Queued(a[..], pix, curLabel, queue) && ClosedOutside(orig, a[..], maxClass, nbrs, pix, curLabel, queue, -1)
      invariant KeepsLabels(old(a[..]), a[..], maxClass)
      decreases Unlabelled(a[..], maxClass) + |queue|
    {
      var (p, i) := queue[0];
      queue := queue[1..];
      queue, parent', depth', writes' :=
        VisitNeighbours(a, nbrs, p, i, curLabel, queue, orig, maxClass, seeds, parent', depth', writes');
    }
  }

  /**
   * One cell `idx` of the scan: if it still holds a class `pix` it gets the next label
   * `currLabel` and its component is flooded.
   */
  method ScanCell(a: array<int>, nbrs: nat -> seq<nat>, maxClass: int, idx: nat, currLabel: int,
                  ghost orig: seq<int>, ghost seeds: seq<nat>, ghost parent: seq<int>, ghost depth: seq<nat>,
                  ghost writes: seq<nat>)
    returns (currLabel': int, ghost seeds': seq<nat>, ghost parent': seq<int>, ghost depth': seq<nat>,
             ghost writes': seq<nat>)
    requires NeighboursInBounds(nbrs, a.Length)
    requires Scan(orig, a[..], maxClass, seeds, parent, depth, writes, nbrs, idx)
    requires currLabel == maxClass + 1 + |seeds| && idx < a.Length
    modifies a
    ensures currLabel' == maxClass + 1 + |seeds'|
    ensures seeds' == if 0 < old(a[idx]) <= maxClass then seeds + [idx] else seeds
    ensures Scan(orig, a[..], maxClass, seeds', parent', depth', writes', nbrs, idx + 1)
    ensures KeepsLabels(old(a[..]), a[..], maxClass)
    ensures !(0 < old(a[idx]) <= maxClass) ==> a[..] == old(a[..])
  {
    var pix := a[idx];
    if 0 < pix <= maxClass {
      ghost var before := a[..];
      a[idx] := currLabel;
      StartRound(orig, before, a[..], maxClass, seeds, parent, depth, writes, nbrs, idx, currLabel);
      ClosedAfterSeed(orig, before, a[..], maxClass, nbrs, pix, idx, currLabel);
      seeds' := seeds + [idx];
      parent', depth', writes' := Flood(a, nbrs, pix, idx, currLabel, orig, maxClass, seeds', parent, depth, writes + [idx]);
      EndRound(orig, before, a[..], maxClass, seeds', parent', depth', writes', nbrs, idx);
      currLabel' := currLabel + 1;
    } else {
      SkipCell(orig, a[..], maxClass, seeds, parent, depth, writes, nbrs, idx);
      currLabel', seeds', parent', depth', writes' := currLabel, seeds, parent, depth, writes;
    }
  }

  /**
   * The scan of `connected_comp` once `max_class` is known: every cell that still holds a
   * class starts a new component; returns `curr_label - (max_class + 1)`.
   */
  method LabelComponents(a: array<int>, nbrs: nat -> seq<nat>, maxClass: int)
    returns (count: nat, ghost seeds: seq<nat>, ghost writes: seq<nat>)
    requires NeighboursInBounds(nbrs, a.Length)
    requires forall i :: 0 <= i < a.Length ==> a[i] <= maxClass
    modifies a
    ensures CompleteLabelling(old(a[..]), a[..], maxClass, count, seeds, nbrs)
    ensures WrittenOnce(a[..], maxClass, writes)
    ensures forall i :: 0 <= i < a.Length ==> (i in writes <==> 0 < old(a[i]))
  {
    ghost var orig := a[..];
    var currLabel := maxClass + 1;
    seeds, writes := [], [];
    ghost var parent: seq<int> := seq(a.Length, _ => 0);
    ghost var depth: seq<nat> := seq(a.Length, _ => 0);
    ScanStart(orig, maxClass, parent, depth, nbrs);
    for idx := 0 to a.Length
      invariant currLabel == maxClass + 1 + |seeds|
      invariant Scan(orig, a[..], maxClass, seeds, parent, depth, writes, nbrs, idx)
    {
      currLabel, seeds, parent, depth, writes := ScanCell(a, nbrs, maxClass, idx, currLabel, orig, seeds, parent, depth, writes);
    }
    count := currLabel - (maxClass + 1);
    Finished(orig, a[..], maxClass, count, seeds, parent, depth, writes, nbrs);
  }

  /**
   * `connected_comp(arr, neighbors)`: labels `a` in place and returns the number of
   * components; a zero-size array makes `np.max` raise instead.
   */
  method ConnectedComp(a: array<int>, nbrs: nat -> seq<nat>) returns (r: Outcome, ghost seeds: seq<nat>)
    requires NeighboursInBounds(nbrs, a.Length)
    modifies a
    ensures a.Length == 0 <==> r == ZeroSizeArray
    ensures a.Length != 0 ==> r.Labelled?
    ensures r.Labelled? ==> CompleteLabelling(old(a[..]), a[..], Max(old(a[..])), r.count, seeds, nbrs)
  {
    if a.Length == 0 {
      return ZeroSizeArray, [];
    }
    var maxClass := Max(a[..]);
    var count;
    ghost var writes;
    count, seeds, writes := LabelComponents(a, nbrs, maxClass);
    r := Labelled(count);
  }

  /** The neighbour function `nearby` provides as written, for ranks 1 and 3: the diagonal neighbours. */
  function AsWrittenNeighbours(shape: seq<nat>): (nbrs: nat -> seq<nat>)
    ensures NeighboursInBounds(nbrs, Size(shape)) && Symmetric(nbrs, Size(shape))
  {
    var nbrs := (i: nat) => FlatDiagonalNearby(shape, i);
    assert Symmetric(nbrs, Size(shape)) by {
      forall i, n | 0 <= i < Size(shape) && 0 <= n < Size(shape) && n in nbrs(i)
        ensures i in nbrs(n)
      {
        FlatDiagonalNearbySymmetric(shape, i, n);
      }
    }
    nbrs
  }

  /**
   * The first position holding a positive value, or `|s|` when there is none. No value exceeds
   * the maximum, so this is the first cell the scan finds still holding a class.
   */
  function FirstClass(s: seq<int>): (k: nat)
    ensures k <= |s|
    ensures forall j :: 0 <= j < k ==> s[j] <= 0
    ensures k < |s| ==> 0 < s[k]
  {
    if s == [] then 0
    else if 0 < s[0] then 0
    else
      var k := 1 + FirstClass(s[1..]);
      assert forall j :: 1 <= j < k ==> s[j] == s[1..][j - 1];
      k
  }

  /**
   * `connected_comp(arr)` with the default `nearby` as written, for an array of the given shape
   * stored flat in row-major order. For ranks 1 and 3 it labels the diagonal components. For
   * any other rank the first call of `nearby` raises, after the first cell holding a class
   * has been given the first label; an array with no such cell is left as it was.
   */
  method ConnectedCompAsWritten(a: array<int>, shape: seq<nat>) returns (r: Outcome, ghost seeds: seq<nat>)
    requires a.Length == Size(shape)
    modifies a
    ensures a.Length == 0 <==> r == ZeroSizeArray
    ensures r == NeighboursRaised <==> |shape| != 1 && |shape| != 3 && FirstClass(old(a[..])) < a.Length
    ensures r.Labelled? && (|shape| == 1 || |shape| == 3) ==>
              CompleteLabelling(old(a[..]), a[..], Max(old(a[..])), r.count, seeds, AsWrittenNeighbours(shape))
    ensures r.Labelled? && |shape| != 1 && |shape| != 3 ==> r.count == 0 && a[..] == old(a[..])
    ensures r == NeighboursRaised ==>
              var k := FirstClass(old(a[..]));
              k < a.Length && a[..] == old(a[..])[k := Max(old(a[..])) + 1] &&
              NearbyAsWritten(shape, ToCoord(shape, k)) == BroadcastError
  {
    if a.Length == 0 {
      return ZeroSizeArray, [];
    }
    var maxClass := Max(a[..]);
    if |shape| == 1 || |shape| == 3 {
      var count;
      ghost var writes;
      count, seeds, writes := LabelComponents(a, AsWrittenNeighbours(shape), maxClass);
      return Labelled(count), seeds;
    }
    seeds := [];
    var idx := 0;
    while idx < a.Length && !(0 < a[idx] <= maxClass)
      invariant idx <= a.Length
      invariant forall j :: 0 <= j < idx ==> a[j] <= 0
    {
      idx := idx + 1;
    }
    if idx == a.Length {
      return Labelled(0), seeds;
    }
    assert idx == FirstClass(a[..]);
    NearbyAsWrittenRaises(shape, ToCoord(shape, idx));
    a[idx] := maxClass + 1;
    r := NeighboursRaised;
  }

  /**
   * The neighbour function `nearby` evidently intends (every touching cell; see module Nearby),
   * on row-major positions. It is not what the default of `connected_comp` does as written:
   * that is `AsWrittenNeighbours`, and `ConnectedCompAsWritten` uses it.
   */
  function IntendedNeighbours(shape: seq<nat>): (nbrs: nat -> seq<nat>)
    ensures NeighboursInBounds(nbrs, Size(shape)) && Symmetric(nbrs, Size(shape))
  {
    var nbrs := (i: nat) => FlatNearby(shape, i);
    assert Symmetric(nbrs, Size(shape)) by {
      forall i, n | 0 <= i < Size(shape) && 0 <= n < Size(shape) && n in nbrs(i)
        ensures i in nbrs(n)
      {
        FlatNearbySymmetric(shape, i, n);
      }
    }
    nbrs
  }

  /** The intended neighbours of a cell are the other cells that differ from it by at most one in every axis. */
  lemma IntendedNeighboursMembership(shape: seq<nat>, i: nat, n: nat)
    ensures n in IntendedNeighbours(shape)(i) <==>
      i < Size(shape) && n < Size(shape) && MooreStep(ToCoord(shape, i), ToCoord(shape, n))
  {
    assert IntendedNeighbours(shape)(i) == FlatNearby(shape, i);
    FlatNearbyMembership(shape, i, n);
    if i < Size(shape) && n < Size(shape) {
      MooreNearbyMembership(shape, ToCoord(shape, i), ToCoord(shape, n));
    }
  }

  /**
   * `connected_comp(arr)` with `nearby` corrected to its intended neighbourhood, for an array of
   * the given shape stored flat in row-major order.
   */
  method ConnectedCompIntended(a: array<int>, shape: seq<nat>) returns (r: Outcome, ghost seeds: seq<nat>)
    requires a.Length == Size(shape)
    modifies a
    ensures a.Length == 0 <==> r == ZeroSizeArray
    ensures a.Length != 0 ==> r.Labelled?
    ensures r.Labelled? ==> CompleteLabelling(old(a[..]), a[..], Max(old(a[..])), r.count, seeds, IntendedNeighbours(shape))
  {
    r, seeds := ConnectedComp(a, IntendedNeighbours(shape));
  }

  /** With the intended neighbours, two cells of one class whose coordinates touch share a label. */
  lemma TouchingCellsShareLabel(shape: seq<nat>, orig: seq<int>, s: seq<int>, maxClass: int, count: nat,
                                seeds: seq<nat>, i: nat, n: nat)
    requires |orig| == Size(shape)
    requires CompleteLabelling(orig, s, maxClass, count, seeds, IntendedNeighbours(shape))
    requires i < |s| && n < |s| && MooreStep(ToCoord(shape, i), ToCoord(shape, n))
    requires orig[i] == orig[n] > 0
    ensures maxClass < s[i] == s[n]
  {
    var nbrs := IntendedNeighbours(shape);
    IntendedNeighboursMembership(shape, i, n);
    assert Symmetric(nbrs, |s|) by { assert |s| == Size(shape); }
    NeighboursShareLabel(orig, s, maxClass, count, seeds, nbrs, i, n);
  }

  /** The 2 x 1 x 1 grid has two cells, which touch and share their last two coordinates. */
  lemma ColumnCells(shape: seq<nat>)
    requires shape == [2, 1, 1]
    ensures Size(shape) == 2
    ensures ToCoord(shape, 0)[1] == ToCoord(shape, 1)[1]
    ensures MooreStep(ToCoord(shape, 0), ToCoord(shape, 1))
  {
    assert Size(shape[1..]) == 1 by {
      assert shape[1..][1..] == [1];
      assert Size([1]) == 1 * Size([]);
    }
    var c0, c1 := ToCoord(shape, 0), ToCoord(shape, 1);
    ToCoordToFlat(shape, 0);
    ToCoordToFlat(shape, 1);
    assert c0[1] == 0 == c1[1] && c0[2] == 0 == c1[2];
    assert c0[0] != c1[0];
  }

  /** Two cells with a class, neither with any neighbour, are two components. */
  lemma IsolatedPairTwoComponents(orig: seq<int>, s: seq<int>, maxClass: int, count: nat, seeds: seq<nat>,
                                  nbrs: nat -> seq<nat>)
    requires CompleteLabelling(orig, s, maxClass, count, seeds, nbrs)
    requires |orig| == 2 && orig[0] > 0 && orig[1] > 0
    requires forall y: nat :: y < |orig| ==> |nbrs(y)| == 0
    ensures count == 2
  {
    var j0 := CellIsOwnSeed(orig, s, maxClass, count, seeds, nbrs, 0);
    var j1 := CellIsOwnSeed(orig, s, maxClass, count, seeds, nbrs, 1);
    TwoIsolatedSeeds(seeds, count, j0, j1);
  }

  /** When no cell has a neighbour, a cell with a class is the seed of its own component. */
  lemma CellIsOwnSeed(orig: seq<int>, s: seq<int>, maxClass: int, count: nat, seeds: seq<nat>,
                      nbrs: nat -> seq<nat>, x: nat)
    returns (j: nat)
    requires CompleteLabelling(orig, s, maxClass, count, seeds, nbrs)
    requires x < |orig| && 0 < orig[x] && forall y: nat :: y < |orig| ==> |nbrs(y)| == 0
    ensures j < count && seeds[j] == x
  {
    j := s[x] - maxClass - 1;
    ReachesFirstStep(s, nbrs, seeds[j], x);
  }

  /**
   * Two cells, each the seed of its own label: strictly increasing seeds below 2 that
   * include both cells are exactly the two of them.
   */
  lemma TwoIsolatedSeeds(seeds: seq<nat>, count: nat, j0: int, j1: int)
    requires count == |seeds| && 0 <= j0 < count && 0 <= j1 < count && seeds[j0] == 0 && seeds[j1] == 1
    requires forall j :: 0 <= j < |seeds| ==> seeds[j] < 2
    requires forall j, j' :: 0 <= j < j' < |seeds| ==> seeds[j] < seeds[j']
    ensures count == 2
  {
    SeedsFromStart(seeds, |seeds|);
    assert |seeds| - 1 <= seeds[|seeds| - 1] < 2;
  }

  /** There are never more components than cells: the `j`-th seed is at position `j` or later. */
  lemma CountAtMostCells(orig: seq<int>, s: seq<int>, maxClass: int, count: nat, seeds: seq<nat>,
                         nbrs: nat -> seq<nat>)
    requires CompleteLabelling(orig, s, maxClass, count, seeds, nbrs)
    ensures count <= |s|
  {
    SeedsFromStart(seeds, |seeds|);
    if count > 0 {
      assert seeds[count - 1] < |s|;
    }
  }

  /** Strictly increasing seeds: seed `j` is at position `j` or later. */
  lemma {:induction false} SeedsFromStart(seeds: seq<nat>, n: nat)
    requires n <= |seeds| && forall j, j' :: 0 <= j < j' < |seeds| ==> seeds[j] < seeds[j']
    ensures forall j :: 0 <= j < n ==> j <= seeds[j]
  {
    if n > 0 {
      SeedsFromStart(seeds, n - 1);
      if n > 1 {
        assert seeds[n - 2] < seeds[n - 1];
      }
    }
  }

  /** A cell reaches only itself unless it has a neighbour to step to. */
  lemma ReachesFirstStep(s: seq<int>, nbrs: nat -> seq<nat>, src: nat, dst: nat)
    requires Reaches(s, nbrs, src, dst)
    ensures src == dst || |nbrs(src)| > 0
  {
    var path :| IsPath(s, nbrs, path) && path[0] == src && path[|path| - 1] == dst;
    if |path| > 1 {
      assert path[1] in nbrs(path[0]);
    }
  }

  /** Two cells with a class that end with one label are one component. */
  lemma SharedLabelOneComponent(orig: seq<int>, s: seq<int>, maxClass: int, count: nat, seeds: seq<nat>,
                                nbrs: nat -> seq<nat>)
    requires CompleteLabelling(orig, s, maxClass, count, seeds, nbrs)
    requires |orig| == 2 && orig[0] > 0 && orig[1] > 0 && s[0] == s[1]
    ensures count == 1
  {
    assert maxClass < s[0] <= maxClass + count;
    OneSharedSeed(s, maxClass, count, seeds);
  }

  /**
   * Two cells with one value: when every seed is one of them and holds its own label, and that
   * value is one of the labels, only one label was minted.
   */
  lemma OneSharedSeed(s: seq<int>, maxClass: int, count: nat, seeds: seq<nat>)
    requires |s| == 2 && s[0] == s[1] && count == |seeds| && maxClass < s[0] <= maxClass + count
    requires forall j :: 0 <= j < |seeds| ==> seeds[j] < |s| && s[seeds[j]] == maxClass + 1 + j
    ensures count == 1
  {
    var first, last := seeds[0], seeds[count - 1];
    assert s[first] == maxClass + 1 && s[last] == maxClass + count;
    assert s[first] == s[0] by { assert first < 2; }
    assert s[last] == s[0] by { assert last < 2; }
  }

  /** No cell of the 2 x 1 x 1 grid has a diagonal neighbour. */
  lemma NoDiagonalNeighbour(shape: seq<nat>)
    requires shape == [2, 1, 1]
    ensures forall i: nat :: i < 2 ==> |AsWrittenNeighbours(shape)(i)| == 0
  {
    ColumnCells(shape);
    forall i: nat | i < 2
      ensures |AsWrittenNeighbours(shape)(i)| == 0
    {
      var ns := AsWrittenNeighbours(shape)(i);
      assert ns == FlatDiagonalNearby(shape, i);
      if |ns| > 0 {
        var j := ns[0];
        FlatDiagonalNearbyMembership(shape, i, j);
        SharedCoordinateNotDiagonal(ToCoord(shape, i), ToCoord(shape, j), 1);
      }
    }
  }

  /**
   * As written, the default neighbours split a 2 x 1 x 1 array of one class into two components:
   * its cells touch, but are not diagonal neighbours.
   */
  lemma ColumnTwoComponentsAsWritten(shape: seq<nat>, orig: seq<int>, s: seq<int>, maxClass: int, count: nat,
                                     seeds: seq<nat>)
    requires shape == [2, 1, 1] && |orig| == 2 && orig[0] == orig[1] > 0
    requires CompleteLabelling(orig, s, maxClass, count, seeds, AsWrittenNeighbours(shape))
    ensures count == 2
  {
    NoDiagonalNeighbour(shape);
    IsolatedPairTwoComponents(orig, s, maxClass, count, seeds, AsWrittenNeighbours(shape));
  }

  /** With the intended neighbours the same array is one component. */
  lemma ColumnOneComponent(shape: seq<nat>, orig: seq<int>, s: seq<int>, maxClass: int, count: nat, seeds: seq<nat>)
    requires shape == [2, 1, 1] && |orig| == 2 && orig[0] == orig[1] > 0
    requires CompleteLabelling(orig, s, maxClass, count, seeds, IntendedNeighbours(shape))
    ensures count == 1
  {
    ColumnCells(shape);
    TouchingCellsShareLabel(shape, orig, s, maxClass, count, seeds, 0, 1);
    SharedLabelOneComponent(orig, s, maxClass, count, seeds, IntendedNeighbours(shape));
  }
}
