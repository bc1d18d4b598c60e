/** Whole traversals: the final flush, the totals, and the page size that is recommended. */
module TunerRuns {
  import opened Sums
  import opened NextFit
  import opened Bits
  import opened TunerSpec
  import opened TunerFacts
  import opened TunerPacking
  import opened TunerDups

  // ---------- the final flush ----------

  function FlushBin(b: Bin): Bin {
    if b.offset > 0 then Bin(b.closed + [b.offset], b.offset) else b
  }

  function Flush(s: Sim): Sim {
    s.(leaf := FlushBin(s.leaf), dup := FlushBin(s.dup))
  }

  /** The pages counted for one page size at the end. */
  function OvflPagesOf(prot: Protection, i: nat, pages: seq<TreePage>): nat
    requires i < NUM_PGSIZES && forall k :: 0 <= k < |pages| ==> Readable(pages[k])
  {
    PageSizeInRange(i);
    SpillTotal(PageSize(i), Simulate(prot, i, pages).spilled)
  }

  function AllPagesOf(prot: Protection, i: nat, pages: seq<TreePage>): nat
    requires i < NUM_PGSIZES && forall k :: 0 <= k < |pages| ==> Readable(pages[k])
  {
    OvflPagesOf(prot, i, pages) + |LeafPages(Simulate(prot, i, pages))| + |Simulate(prot, i, pages).dup.closed|
  }

  lemma FlushAddsTheLastLeaf(prot: Protection, i: nat, pages: seq<TreePage>)
    requires i < NUM_PGSIZES && forall k :: 0 <= k < |pages| ==> Readable(pages[k])
    ensures Flush(Simulate(prot, i, pages)).leaf.closed == LeafPages(Simulate(prot, i, pages))
    ensures Flush(Simulate(prot, i, pages)).dup == Simulate(prot, i, pages).dup
  {
    PageSizeInRange(i);
    NoOpenDupPage(prot, PageSize(i), pages);
  }

  // ---------- the recommendation ----------

  /** Unsigned 64-bit subtraction of two counters. */
  function Drop(a: nat, b: nat): nat
    requires b <= a || b - a < 0x1_0000_0000_0000_0000
  {
    if b <= a then a - b else 0x1_0000_0000_0000_0000 + a - b
  }

  /** Among the first size and those with any storage, the smallest one with the least storage. */
  ghost predicate LeastSpace(space: seq<nat>, n: nat, best: nat)
    requires 0 < n <= |space|
  {
    && best < n && (best == 0 || space[best] != 0)
    && (forall k :: 0 <= k < n && (k == 0 || space[k] != 0) ==> space[best] <= space[k])
    && (forall k :: 0 <= k < best && (k == 0 || space[k] != 0) ==> space[best] < space[k])
  }

  /** The overflow pages saved from size k - 1 to size k exceed two percent of the pages at k. */
  predicate BigDrop(ovfl: seq<nat>, pages: seq<nat>, k: nat)
    requires 0 < k < |ovfl| == |pages|
    requires ovfl[k] <= ovfl[k - 1]
  {
    50 * Drop(ovfl[k - 1], ovfl[k]) > pages[k]
  }

  ghost predicate Decreasing(ovfl: seq<nat>) {
    forall k :: 0 < k < |ovfl| ==> ovfl[k] <= ovfl[k - 1]
  }

  /** The largest size with such a drop, or the first one. */
  ghost predicate LastBigDrop(ovfl: seq<nat>, pages: seq<nat>, n: nat, best: nat)
    requires 0 < n <= |ovfl| == |pages| && Decreasing(ovfl)
  {
    && best < n && (best > 0 ==> BigDrop(ovfl, pages, best))
    && (forall k :: best < k < n ==> !BigDrop(ovfl, pages, k))
  }

  /** The choice at the end of __tuner_print_btree_fillfactor. */
  method Choose(ovfl: array<nat>, pages: array<nat>, space: array<nat>) returns (best: nat)
    requires ovfl.Length == pages.Length == space.Length == NUM_PGSIZES && Decreasing(ovfl[..])
    ensures if ovfl[0] == 0 then LeastSpace(space[..], NUM_PGSIZES, best)
            else LastBigDrop(ovfl[..], pages[..], NUM_PGSIZES, best)
  {
    best := 0;
    if ovfl[0] == 0 {
      var minispace := space[0];
      for i := 1 to NUM_PGSIZES
        invariant LeastSpace(space[..], i, best) && minispace == space[best]
      {
        if space[i] != 0 && minispace > space[i] {
          minispace := space[i];
          best := i;
        }
      }
    } else {
      for i := 1 to NUM_PGSIZES
        invariant LastBigDrop(ovfl[..], pages[..], i, best)
      {
        assert ovfl[..][i] <= ovfl[..][i - 1];
        if 50 * Drop(ovfl[i - 1], ovfl[i]) > pages[i] {
          best := i;
        }
      }
    }
  }

  // ---------- storage is zero at every size or at none ----------

  /** Nothing on the page is deleted, and an off-page set starts with a non-empty page. */
  predicate Intact(p: TreePage) {
    match p
    case Leaf(entries) => IsLeaf(entries) && forall k :: 0 <= k < |entries| ==> !entries[k].item.deleted
    case FirstDup(chain) => chain[0] != [] && forall k :: 0 <= k < |chain[0]| ==> !chain[0][k].deleted
    case _ => true
  }

  predicate HasRecords(p: TreePage) {
    (p.Leaf? && p.entries != []) || p.FirstDup?
  }

  lemma {:induction false} FirstSetOp(g: Group, offPage: bool, n: nat)
    requires 0 < n <= |g.data| && !g.data[0].deleted
    ensures |SetPrefix(g, offPage, n)| > 0
    ensures SetPrefix(g, offPage, n)[0].Pair? && SetPrefix(g, offPage, n)[0].inKey.Normal?
  {
    if n > 1 { FirstSetOp(g, offPage, n - 1); }
  }

  lemma {:induction false} FirstRepeated(n: nat, ops: seq<Op>)
    requires n > 0 && ops != []
    ensures |Repeat(n, ops)| > 0 && Repeat(n, ops)[0] == ops[0]
  {
    if n > 1 { FirstRepeated(n - 1, ops); }
  }

  lemma {:induction false} SlotPairsAre(sizes: seq<uint32>, k: nat)
    requires k < |sizes|
    ensures |SlotPairs(sizes)| == |sizes| && SlotPairs(sizes)[k] == Pair(0, sizes[k], SlotOnly, Normal)
  {
    if k < |sizes| - 1 {
      SlotPairsAre(sizes[..|sizes| - 1], k);
    } else if |sizes| > 1 {
      SlotPairsAre(sizes[..|sizes| - 1], 0);
    } else {
      FlatOne(sizes[0], OneSlotPair);
      assert sizes == [sizes[0]];
    }
  }

  /** The first insertion of an intact page that has records puts something on a leaf page. */
  lemma FirstOpTakesSpace(prot: Protection, pgsize: nat, p: TreePage)
    requires DB_MIN_PGSIZE <= pgsize <= DB_MAX_PGSIZE && Readable(p) && Intact(p) && HasRecords(p)
    ensures |PageOps(pgsize, p)| > 0 && PageOps(pgsize, p)[0].Pair?
    ensures PairNeed(prot, pgsize, PageOps(pgsize, p)[0]) > 0
  {
    hide KeyNeed, DataNeed, ItemSize, SetSpace, ChainSpace, Repeat, SlotPairs, DupItems, SetPrefix, Flat;
    match p
    case Leaf(entries) =>
      var g := GroupAt(entries, 0);
      DupTest(entries, 0);
      if IsDupSet(g) {
        FirstSetOp(g, GoesOffPage(SetSpace(g), pgsize), |g.data|);
      }
      var op := PageOps(pgsize, p)[0];
      KeyIsAtMostQuarter(prot, pgsize, op.keySize, Normal);
    case FirstDup(chain) =>
      if GoesOffPage(ChainSpace(chain), pgsize) {
        DataIsAtMostQuarter(prot, pgsize, 0, BDuplicate);
      } else {
        LiveOfLive(chain[0]);
        var first := Sizes(chain[0]);
        SizesAreAsMany(chain[0]);
        SlotPairsAre(first, 0);
        FirstRepeated(|chain|, SlotPairs(first));
        DataIsAtMostQuarter(prot, pgsize, first[0], Normal);
      }
  }

  lemma {:induction false} TakesSpace(prot: Protection, pgsize: nat, ops: seq<Op>, k: nat)
    requires DB_MIN_PGSIZE <= pgsize <= DB_MAX_PGSIZE
    requires k < |ops| && ops[k].Pair? && PairNeed(prot, pgsize, ops[k]) > 0
    ensures LeafNeeds(prot, pgsize, ops) != []
  {
    hide PairNeed;
    if k < |ops| - 1 { TakesSpace(prot, pgsize, ops[..|ops| - 1], k); }
  }

  /** Where the insertions of the j-th page stand among all. */
  lemma {:induction false} PageOpsWithin(pgsize: nat, pages: seq<TreePage>, j: nat) returns (at: nat)
    requires (forall k :: 0 <= k < |pages| ==> Readable(pages[k])) && j < |pages| && PageOps(pgsize, pages[j]) != []
    ensures at < |TraversalOps(pgsize, pages)|
    ensures TraversalOps(pgsize, pages)[at] == PageOps(pgsize, pages[j])[0]
  {
    hide PageOps;
    var n := |pages| - 1;
    if j == n {
      at := |TraversalOps(pgsize, pages[..n])|;
    } else {
      at := PageOpsWithin(pgsize, pages[..n], j);
    }
  }

  lemma {:induction false} NoRecordsNoOps(pgsize: nat, pages: seq<TreePage>)
    requires forall k :: 0 <= k < |pages| ==> Readable(pages[k]) && !HasRecords(pages[k])
    ensures TraversalOps(pgsize, pages) == []
  {
    if pages != [] { NoRecordsNoOps(pgsize, pages[..|pages| - 1]); }
  }

  lemma PlaceIsOpen(b: Bin, need: nat, pgsize: nat)
    ensures Place(b, need, pgsize).offset > 0
  {
  }

  lemma NeedsTakePages(prot: Protection, i: nat, pages: seq<TreePage>)
    requires i < NUM_PGSIZES && forall k :: 0 <= k < |pages| ==> Readable(pages[k])
    requires Needs(prot, i, pages) != []
    ensures LeafPages(Simulate(prot, i, pages)) != []
  {
    hide LeafNeeds, Run, PageSize, Place;
    PageSizeInRange(i);
    var needs, pgsize := Needs(prot, i, pages), PageSize(i);
    LeafIsPacked(prot, pgsize, TraversalOps(pgsize, pages));
    PlaceIsOpen(Pack(needs[..|needs| - 1], pgsize), needs[|needs| - 1], pgsize);
  }

  /** An intact database needs pages at every size if it has records, and at no size if it has none. */
  lemma RecordsTakePages(prot: Protection, i: nat, pages: seq<TreePage>)
    requires i < NUM_PGSIZES && forall k :: 0 <= k < |pages| ==> Readable(pages[k]) && Intact(pages[k])
    ensures AllPagesOf(prot, i, pages) > 0 <==> exists k :: 0 <= k < |pages| && HasRecords(pages[k])
  {
    hide PageOps, PageSize, LeafNeeds, Run;
    PageSizeInRange(i);
    var pgsize := PageSize(i);
    if k :| 0 <= k < |pages| && HasRecords(pages[k]) {
      FirstOpTakesSpace(prot, pgsize, pages[k]);
      var at := PageOpsWithin(pgsize, pages, k);
      TakesSpace(prot, pgsize, TraversalOps(pgsize, pages), at);
      LeafPagesAreNearlyOptimal(prot, i, pages, []);
      NeedsTakePages(prot, i, pages);
    } else {
      NoRecordsNoOps(pgsize, pages);
      RunNone(prot, pgsize, START);
    }
  }

  /** Storage in bytes at the eight page sizes. */
  ghost predicate IsSpace(prot: Protection, pages: seq<TreePage>, space: seq<nat>)
    requires forall k :: 0 <= k < |pages| ==> Readable(pages[k])
  {
    |space| == NUM_PGSIZES &&
    forall k :: 0 <= k < NUM_PGSIZES ==> space[k] == PageSize(k) * AllPagesOf(prot, k, pages)
  }

  /** A choice by storage is least of all eight exactly if it is zero or no size has zero storage. */
  lemma LeastSpaceExactly(space: seq<nat>, best: nat)
    requires |space| == NUM_PGSIZES && LeastSpace(space, NUM_PGSIZES, best)
    ensures (forall k :: 0 <= k < NUM_PGSIZES ==> space[best] <= space[k])
            <==> space[best] == 0 || forall k :: 0 <= k < NUM_PGSIZES ==> space[k] != 0
    ensures (forall k :: 0 <= k < NUM_PGSIZES ==> space[k] != 0) ==>
              forall k :: 0 <= k < best ==> space[best] < space[k]
  {
    if space[best] != 0 {
      if k :| 0 <= k < NUM_PGSIZES && space[k] == 0 {
        assert space[best] > space[k];
      }
    }
  }

  lemma Nonzero(a: nat, b: nat)
    requires a > 0
    ensures a * b == 0 <==> b == 0
  {
    if b > 0 { MulMono(a, 1, b); }
  }

  /** For an intact database the choice is the smallest size with the least storage of all eight. */
  lemma LeastSpaceOfAll(prot: Protection, pages: seq<TreePage>, space: seq<nat>, best: nat)
    requires forall k :: 0 <= k < |pages| ==> Readable(pages[k]) && Intact(pages[k])
    requires IsSpace(prot, pages, space) && LeastSpace(space, NUM_PGSIZES, best)
    ensures forall k :: 0 <= k < NUM_PGSIZES ==> space[best] <= space[k]
    ensures forall k :: 0 <= k < best ==> space[best] < space[k]
  {
    hide AllPagesOf, PageSize;
    forall k | 0 <= k < NUM_PGSIZES ensures space[k] == 0 <==> space[0] == 0 {
      RecordsTakePages(prot, k, pages);
      RecordsTakePages(prot, 0, pages);
      PageSizeInRange(k);
      PageSizeInRange(0);
      Nonzero(PageSize(k), AllPagesOf(prot, k, pages));
      Nonzero(PageSize(0), AllPagesOf(prot, 0, pages));
    }
  }
}
