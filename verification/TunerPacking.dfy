/** The simulated leaf and duplicate pages as packings, and their fill-factor buckets. */
module TunerPacking {
  import opened Sums
  import opened NextFit
  import opened Bits
  import opened TunerSpec
  import opened TunerFacts

  // ---------- leaf pages ----------

  function LeafNeed(prot: Protection, pgsize: nat, op: Op): seq<nat>
    requires DB_MIN_PGSIZE <= pgsize <= DB_MAX_PGSIZE
  {
    if op.Pair? && PairNeed(prot, pgsize, op) > 0 then [PairNeed(prot, pgsize, op)] else []
  }

  /** Bytes that each insertion puts on leaf pages. */
  function LeafNeeds(prot: Protection, pgsize: nat, ops: seq<Op>): seq<nat>
    requires DB_MIN_PGSIZE <= pgsize <= DB_MAX_PGSIZE
  {
    if ops == [] then []
    else LeafNeeds(prot, pgsize, ops[..|ops| - 1]) + LeafNeed(prot, pgsize, ops[|ops| - 1])
  }

  /** Needs are positive and take at most half of a page each. */
  lemma {:induction false} LeafNeedsFit(prot: Protection, pgsize: nat, ops: seq<Op>)
    requires DB_MIN_PGSIZE <= pgsize <= DB_MAX_PGSIZE
    ensures Fitting(LeafNeeds(prot, pgsize, ops), pgsize)
    ensures forall k :: 0 <= k < |LeafNeeds(prot, pgsize, ops)| ==> 2 * LeafNeeds(prot, pgsize, ops)[k] <= Usable(pgsize)
  {
    if ops != [] {
      hide PairNeed;
      LeafNeedsFit(prot, pgsize, ops[..|ops| - 1]);
      if ops[|ops| - 1].Pair? { NeedIsAtMostHalf(prot, pgsize, ops[|ops| - 1]); }
    }
  }

  /** The simulated leaf pages are the next-fit packing of the insertions. */
  lemma {:induction false} LeafIsPacked(prot: Protection, pgsize: nat, ops: seq<Op>)
    requires DB_MIN_PGSIZE <= pgsize <= DB_MAX_PGSIZE
    ensures Run(prot, pgsize, START, ops).leaf == Pack(LeafNeeds(prot, pgsize, ops), pgsize)
  {
    if ops != [] {
      hide PairNeed, Place;
      var front, last := ops[..|ops| - 1], ops[|ops| - 1];
      LeafIsPacked(prot, pgsize, front);
      var needs := LeafNeeds(prot, pgsize, front);
      if last.Pair? && PairNeed(prot, pgsize, last) > 0 {
        assert (needs + [PairNeed(prot, pgsize, last)])[..|needs|] == needs;
      } else {
        assert needs + [] == needs;
      }
    }
  }

  /** Leaf pages of a simulated database after the traversal's final flush. */
  function LeafPages(s: Sim): seq<nat> {
    if s.leaf.offset > 0 then Pages(s.leaf) else s.leaf.closed
  }

  function Needs(prot: Protection, i: nat, pages: seq<TreePage>): seq<nat>
    requires i < NUM_PGSIZES && forall k :: 0 <= k < |pages| ==> Readable(pages[k])
  {
    PageSizeInRange(i);
    LeafNeeds(prot, PageSize(i), TraversalOps(PageSize(i), pages))
  }

  /**
   * The simulated leaf pages of a whole traversal: they hold exactly the inserted bytes, all but
   * the last are more than half full, and there are at most twice as many, less one, as any
   * packing that keeps pairs whole would need.
   */
  lemma LeafPagesAreNearlyOptimal(prot: Protection, i: nat, pages: seq<TreePage>, packing: seq<seq<nat>>)
    requires i < NUM_PGSIZES && forall k :: 0 <= k < |pages| ==> Readable(pages[k])
    requires Needs(prot, i, pages) != []
    ensures DB_MIN_PGSIZE <= PageSize(i)
    ensures var result := LeafPages(Simulate(prot, i, pages));
            && Total(result, Used) == Sum(Needs(prot, i, pages))
            && Dense(result, PageSize(i))
            && (forall k :: 0 <= k < |result| - 1 ==> 2 * Used(result[k]) > Usable(PageSize(i)))
            && (IsPacking(packing, Needs(prot, i, pages), PageSize(i)) ==> |result| <= 2 * |packing| - 1)
  {
    PageSizeInRange(i);
    var pgsize, needs := PageSize(i), Needs(prot, i, pages);
    LeafNeedsFit(prot, pgsize, TraversalOps(pgsize, pages));
    LeafIsPacked(prot, pgsize, TraversalOps(pgsize, pages));
    hide LeafNeeds, Run, TraversalOps, Total, PageSize, Pow2;
    PackKeeps(needs, pgsize);
    var b := Pack(needs, pgsize);
    assert Pages(b)[|b.closed|] == b.offset;
    ClosedPagesAreFull(needs, pgsize, Usable(pgsize) / 2);
    if IsPacking(packing, needs, pgsize) {
      AtMostTwiceOptimal(needs, pgsize, packing);
    }
  }

  // ---------- fill-factor buckets ----------

  function Bucket(offset: nat, pgsize: nat): nat
    requires pgsize > 0
  {
    offset * (DIST_DIVISION - 1) / pgsize
  }

  /** A page that does not overflow has a bucket, the last one exactly when it is full. */
  lemma BucketIsSharp(offset: nat, pgsize: nat)
    requires 0 < pgsize && offset <= pgsize
    ensures Bucket(offset, pgsize) * pgsize <= offset * 10 < (Bucket(offset, pgsize) + 1) * pgsize
    ensures Bucket(offset, pgsize) < DIST_DIVISION
    ensures Bucket(offset, pgsize) == DIST_DIVISION - 1 <==> offset == pgsize
    ensures 2 * offset >= pgsize ==> Bucket(offset, pgsize) >= 5
  {
    DivAtLeast(offset * 10, pgsize, Bucket(offset, pgsize));
    DivAtLeast(offset * 10, pgsize, Bucket(offset, pgsize) + 1);
    DivAtLeast(offset * 10, pgsize, 11);
    DivAtLeast(offset * 10, pgsize, 10);
    DivAtLeast(offset * 10, pgsize, 5);
  }

  /** Pages counted in one bucket. */
  function Count(pages: seq<nat>, pgsize: nat, d: nat): nat
    requires pgsize > 0
  {
    if pages == [] then 0
    else Count(pages[..|pages| - 1], pgsize, d) + if Bucket(pages[|pages| - 1], pgsize) == d then 1 else 0
  }

  function CountBelow(pages: seq<nat>, pgsize: nat, j: nat): nat
    requires pgsize > 0
  {
    if j == 0 then 0 else CountBelow(pages, pgsize, j - 1) + Count(pages, pgsize, j - 1)
  }

  lemma {:induction false} CountBelowStep(pages: seq<nat>, pgsize: nat, j: nat)
    requires pgsize > 0 && pages != []
    ensures CountBelow(pages, pgsize, j)
            == CountBelow(pages[..|pages| - 1], pgsize, j) + if Bucket(pages[|pages| - 1], pgsize) < j then 1 else 0
  {
    if j > 0 { CountBelowStep(pages, pgsize, j - 1); }
  }

  predicate WithinPage(pages: seq<nat>, pgsize: nat) {
    forall k :: 0 <= k < |pages| ==> pages[k] <= pgsize
  }

  lemma {:induction false} NoPagesNoCount(pgsize: nat, j: nat)
    requires pgsize > 0
    ensures CountBelow([], pgsize, j) == 0
  {
    if j > 0 { NoPagesNoCount(pgsize, j - 1); }
  }

  /** The buckets together count every page once. */
  lemma {:induction false} BucketsCountAllPages(pages: seq<nat>, pgsize: nat)
    requires pgsize > 0 && WithinPage(pages, pgsize)
    ensures CountBelow(pages, pgsize, DIST_DIVISION) == |pages|
  {
    if pages == [] {
      NoPagesNoCount(pgsize, DIST_DIVISION);
    } else {
      BucketsCountAllPages(pages[..|pages| - 1], pgsize);
      CountBelowStep(pages, pgsize, DIST_DIVISION);
      BucketIsSharp(pages[|pages| - 1], pgsize);
    }
  }

  /** Half-full pages are all in the upper buckets. */
  lemma {:induction false} LowBucketsAreEmpty(pages: seq<nat>, pgsize: nat)
    requires pgsize > 0 && WithinPage(pages, pgsize)
    requires forall k :: 0 <= k < |pages| ==> 2 * pages[k] >= pgsize
    ensures CountBelow(pages, pgsize, 5) == 0
  {
    if pages == [] {
      NoPagesNoCount(pgsize, 5);
    } else {
      LowBucketsAreEmpty(pages[..|pages| - 1], pgsize);
      CountBelowStep(pages, pgsize, 5);
      BucketIsSharp(pages[|pages| - 1], pgsize);
    }
  }

  lemma NoNeedsNoPages(prot: Protection, i: nat, pages: seq<TreePage>)
    requires i < NUM_PGSIZES && forall k :: 0 <= k < |pages| ==> Readable(pages[k])
    requires Needs(prot, i, pages) == []
    ensures PageSize(i) > 0 && LeafPages(Simulate(prot, i, pages)) == []
  {
    PageSizeInRange(i);
    LeafIsPacked(prot, PageSize(i), TraversalOps(PageSize(i), pages));
  }

  lemma OnlyTheLastIsSparse(result: seq<nat>, pgsize: nat)
    requires SIZEOF_PAGE < pgsize && Dense(result, pgsize)
    requires forall k :: 0 <= k < |result| - 1 ==> 2 * Used(result[k]) > Usable(pgsize)
    ensures CountBelow(result, pgsize, 5) <= 1
  {
    if result == [] {
      NoPagesNoCount(pgsize, 5);
    } else {
      LowBucketsAreEmpty(result[..|result| - 1], pgsize);
      CountBelowStep(result, pgsize, 5);
    }
  }

  /** Of all the leaf pages of a traversal at most one, the last, falls below fill factor 0.5. */
  lemma AtMostOneSparseLeaf(prot: Protection, i: nat, pages: seq<TreePage>)
    requires i < NUM_PGSIZES && forall k :: 0 <= k < |pages| ==> Readable(pages[k])
    ensures PageSize(i) > 0 && CountBelow(LeafPages(Simulate(prot, i, pages)), PageSize(i), 5) <= 1
  {
    PageSizeInRange(i);
    var result, pgsize := LeafPages(Simulate(prot, i, pages)), PageSize(i);
    if Needs(prot, i, pages) == [] {
      NoNeedsNoPages(prot, i, pages);
      NoPagesNoCount(pgsize, 5);
    } else {
      LeafPagesAreNearlyOptimal(prot, i, pages, []);
      hide *;
      OnlyTheLastIsSparse(result, pgsize);
    }
  }

  // ---------- overflow buckets ----------

  /** What one overflow item adds to a bucket: its full pages, and one page for the remainder. */
  function SpillShare(size: uint32, pgsize: nat, d: nat): nat
    requires SIZEOF_PAGE < pgsize
  {
    (if d == DIST_DIVISION - 1 then size / Usable(pgsize) else 0) +
    (if d == Bucket(size % Usable(pgsize) + SIZEOF_PAGE, pgsize) then 1 else 0)
  }

  function SpillCount(spilled: seq<uint32>, pgsize: nat, d: nat): nat
    requires SIZEOF_PAGE < pgsize
  {
    if spilled == [] then 0
    else SpillCount(spilled[..|spilled| - 1], pgsize, d) + SpillShare(spilled[|spilled| - 1], pgsize, d)
  }

  function SpillBelow(spilled: seq<uint32>, pgsize: nat, j: nat): nat
    requires SIZEOF_PAGE < pgsize
  {
    if j == 0 then 0 else SpillBelow(spilled, pgsize, j - 1) + SpillCount(spilled, pgsize, j - 1)
  }

  function ShareBelow(size: uint32, pgsize: nat, j: nat): nat
    requires SIZEOF_PAGE < pgsize
  {
    if j == 0 then 0 else ShareBelow(size, pgsize, j - 1) + SpillShare(size, pgsize, j - 1)
  }

  lemma {:induction false} ShareBelowIs(size: uint32, pgsize: nat, j: nat)
    requires SIZEOF_PAGE < pgsize && j < DIST_DIVISION
    ensures ShareBelow(size, pgsize, j)
            == if Bucket(size % Usable(pgsize) + SIZEOF_PAGE, pgsize) < j then 1 else 0
  {
    hide Bucket;
    if j > 0 { ShareBelowIs(size, pgsize, j - 1); }
  }

  /** The remainder page is never full; the item takes size / usable + 1 pages in all. */
  lemma SpillShares(size: uint32, pgsize: nat)
    requires SIZEOF_PAGE < pgsize
    ensures Bucket(size % Usable(pgsize) + SIZEOF_PAGE, pgsize) < DIST_DIVISION - 1
    ensures ShareBelow(size, pgsize, DIST_DIVISION) == SpillPages(pgsize, size)
  {
    BucketIsSharp(size % Usable(pgsize) + SIZEOF_PAGE, pgsize);
    ShareBelowIs(size, pgsize, DIST_DIVISION - 1);
  }

  lemma {:induction false} SpillBelowStep(spilled: seq<uint32>, pgsize: nat, j: nat)
    requires SIZEOF_PAGE < pgsize && spilled != []
    ensures SpillBelow(spilled, pgsize, j)
            == SpillBelow(spilled[..|spilled| - 1], pgsize, j) + ShareBelow(spilled[|spilled| - 1], pgsize, j)
  {
    hide SpillShare;
    if j > 0 { SpillBelowStep(spilled, pgsize, j - 1); }
  }

  lemma {:induction false} NoSpillNoCount(pgsize: nat, j: nat)
    requires SIZEOF_PAGE < pgsize
    ensures SpillBelow([], pgsize, j) == 0
  {
    if j > 0 { NoSpillNoCount(pgsize, j - 1); }
  }

  /** The overflow buckets together count all overflow pages. */
  lemma {:induction false} BucketsCountAllSpills(spilled: seq<uint32>, pgsize: nat)
    requires SIZEOF_PAGE < pgsize
    ensures SpillBelow(spilled, pgsize, DIST_DIVISION) == SpillTotal(pgsize, spilled)
  {
    if spilled == [] {
      NoSpillNoCount(pgsize, DIST_DIVISION);
    } else {
      BucketsCountAllSpills(spilled[..|spilled| - 1], pgsize);
      SpillBelowStep(spilled, pgsize, DIST_DIVISION);
      SpillShares(spilled[|spilled| - 1], pgsize);
    }
  }
}
