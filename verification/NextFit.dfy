/**
 * Packing a stream of needs into pages in order: a need that does not fit on the current page
 * closes it and starts the next one. This is how db_tuner fills its simulated pages.
 */
module NextFit {
  import opened Sums

  /** Page header bytes that a page starts with. */
  const SIZEOF_PAGE := 26

  /** Fill levels of the closed pages, and of the current one (0 before the first need). */
  datatype Bin = Bin(closed: seq<nat>, offset: nat)

  const EMPTY := Bin([], 0)

  function Place(b: Bin, need: nat, pgsize: nat): Bin {
    var start := if b.offset == 0 then SIZEOF_PAGE else b.offset;
    if start + need > pgsize then Bin(b.closed + [start], need + SIZEOF_PAGE)
    else Bin(b.closed, start + need)
  }

  function Pack(needs: seq<nat>, pgsize: nat): Bin {
    if needs == [] then EMPTY
    else Place(Pack(needs[..|needs| - 1], pgsize), needs[|needs| - 1], pgsize)
  }

  /** Bytes a page offers to pairs. */
  function Usable(pgsize: nat): nat
    requires SIZEOF_PAGE < pgsize
  {
    pgsize - SIZEOF_PAGE
  }

  /** Every need is positive and fits on an empty page. */
  predicate Fitting(needs: seq<nat>, pgsize: nat)
    requires SIZEOF_PAGE < pgsize
  {
    forall k :: 0 <= k < |needs| ==> 0 < needs[k] <= Usable(pgsize)
  }

  /** The pages in the order they were used, the current one last. */
  function Pages(b: Bin): seq<nat> {
    b.closed + [b.offset]
  }

  function Used(offset: nat): nat {
    if offset < SIZEOF_PAGE then 0 else offset - SIZEOF_PAGE
  }

  /** Every page has something on it and does not overflow; neighbours exceed one page's worth. */
  ghost predicate Dense(pages: seq<nat>, pgsize: nat)
    requires SIZEOF_PAGE < pgsize
  {
    && (forall k :: 0 <= k < |pages| ==> SIZEOF_PAGE < pages[k] <= pgsize)
    && (forall k :: 0 <= k < |pages| - 1 ==> pages[k] + pages[k + 1] > pgsize + SIZEOF_PAGE)
  }

  /** What packing a non-empty stream keeps. */
  ghost predicate Packed(b: Bin, needs: seq<nat>, pgsize: nat)
    requires SIZEOF_PAGE < pgsize
  {
    Dense(Pages(b), pgsize) && Total(Pages(b), Used) == Sum(needs)
  }

  /** Placing a need adds its bytes to the pages and moves no others. */
  lemma PlaceConserves(b: Bin, need: nat, pgsize: nat)
    requires SIZEOF_PAGE < b.offset
    ensures Total(Pages(Place(b, need, pgsize)), Used) == Total(Pages(b), Used) + need
  {
    var c := Place(b, need, pgsize);
    TotalConcat(b.closed, [b.offset], Used);
    TotalOne(b.offset, Used);
    TotalConcat(c.closed, [c.offset], Used);
    TotalOne(c.offset, Used);
  }

  lemma PlaceIsDense(b: Bin, need: nat, pgsize: nat)
    requires SIZEOF_PAGE < pgsize && 0 < need <= Usable(pgsize)
    requires Dense(Pages(b), pgsize)
    ensures Dense(Pages(Place(b, need, pgsize)), pgsize)
  {
    var n, p, q := |b.closed|, Pages(b), Pages(Place(b, need, pgsize));
    assert p[n] == b.offset;
    assert forall k :: 0 <= k < n ==> q[k] == p[k];
  }

  lemma PlaceKeeps(b: Bin, needs: seq<nat>, need: nat, pgsize: nat)
    requires SIZEOF_PAGE < pgsize && 0 < need <= Usable(pgsize)
    requires Packed(b, needs, pgsize)
    ensures Packed(Place(b, need, pgsize), needs + [need], pgsize)
  {
    assert Pages(b)[|b.closed|] == b.offset;
    PlaceConserves(b, need, pgsize);
    PlaceIsDense(b, need, pgsize);
    TotalConcat(needs, [need], Same);
    TotalOne(need, Same);
  }

  /**
   * Conservation and density: the bytes on the pages are the bytes of the stream, every page has
   * something on it and does not overflow, and any two neighbours hold more than one page's worth.
   */
  lemma {:induction false} PackKeeps(needs: seq<nat>, pgsize: nat)
    requires SIZEOF_PAGE < pgsize && Fitting(needs, pgsize) && needs != []
    ensures Packed(Pack(needs, pgsize), needs, pgsize)
  {
    var n := |needs| - 1;
    var before, after := Pack(needs[..n], pgsize), Pack(needs, pgsize);
    if n == 0 {
      var first: nat := needs[0] + SIZEOF_PAGE;
      assert Pages(after) == [first];
      TotalOne(first, Used);
      TotalOne(needs[0], Same);
      assert needs == [needs[0]];
    } else {
      PackKeeps(needs[..n], pgsize);
      PlaceKeeps(before, needs[..n], needs[n], pgsize);
      assert needs[..n] + [needs[n]] == needs;
    }
  }

  /** If no need exceeds limit, every closed page is within limit of being full. */
  lemma {:induction false} ClosedPagesAreFull(needs: seq<nat>, pgsize: nat, limit: nat)
    requires SIZEOF_PAGE < pgsize && Fitting(needs, pgsize)
    requires forall k :: 0 <= k < |needs| ==> needs[k] <= limit
    ensures forall k :: 0 <= k < |Pack(needs, pgsize).closed| ==> Pack(needs, pgsize).closed[k] + limit > pgsize
  {
    if needs != [] {
      ClosedPagesAreFull(needs[..|needs| - 1], pgsize, limit);
    }
  }

  // ---------- comparison with the best possible packing ----------

  function Flatten(packing: seq<seq<nat>>): seq<nat> {
    if packing == [] then [] else Flatten(packing[..|packing| - 1]) + packing[|packing| - 1]
  }

  /** Any way of putting the needs, each kept whole, onto pages. */
  ghost predicate IsPacking(packing: seq<seq<nat>>, needs: seq<nat>, pgsize: nat)
    requires SIZEOF_PAGE < pgsize
  {
    && multiset(Flatten(packing)) == multiset(needs)
    && forall k :: 0 <= k < |packing| ==> Sum(packing[k]) <= Usable(pgsize)
  }

  /** n times c. */
  function Times(n: nat, c: nat): nat {
    if n == 0 then 0 else Times(n - 1, c) + c
  }

  lemma {:induction false} PackingHoldsAtMost(packing: seq<seq<nat>>, cap: nat)
    requires forall k :: 0 <= k < |packing| ==> Sum(packing[k]) <= cap
    ensures Sum(Flatten(packing)) <= Times(|packing|, cap)
  {
    if packing != [] {
      var n := |packing| - 1;
      PackingHoldsAtMost(packing[..n], cap);
      TotalConcat(Flatten(packing[..n]), packing[n], Same);
    }
  }

  /** Neighbours taken two by two each hold more than cap. */
  lemma {:induction false} PairsOfPages(pages: seq<nat>, cap: nat)
    requires forall k :: 0 <= k < |pages| - 1 ==> pages[k] + pages[k + 1] > cap + 2 * SIZEOF_PAGE
    requires forall k :: 0 <= k < |pages| ==> SIZEOF_PAGE < pages[k]
    ensures Total(pages, Used) >= Times(|pages| / 2, cap + 1)
  {
    var n := |pages|;
    if n >= 2 {
      var front, a, b := pages[..n - 2], pages[n - 2], pages[n - 1];
      PairsOfPages(front, cap);
      assert pages[..n - 1][..n - 2] == front;
      assert pages[n - 2] + pages[n - 2 + 1] > cap + 2 * SIZEOF_PAGE;
      assert n / 2 == |front| / 2 + 1;
    }
  }

  lemma {:induction false} TimesCompare(m: nat, h: nat, cap: nat)
    requires m <= h
    ensures Times(m, cap) + m <= Times(h, cap + 1)
  {
    if m > 0 {
      TimesCompare(m - 1, h - 1, cap);
    }
  }

  lemma PositiveSum(needs: seq<nat>)
    requires needs != [] && forall k :: 0 <= k < |needs| ==> 0 < needs[k]
    ensures Sum(needs) > 0
  {
  }

  /** The simulator never uses more than twice the pages of the best packing, less one. */
  lemma AtMostTwiceOptimal(needs: seq<nat>, pgsize: nat, packing: seq<seq<nat>>)
    requires SIZEOF_PAGE < pgsize && Fitting(needs, pgsize) && needs != []
    requires IsPacking(packing, needs, pgsize)
    ensures |Pages(Pack(needs, pgsize))| <= 2 * |packing| - 1
  {
    var cap, m, h := Usable(pgsize), |packing|, |Pages(Pack(needs, pgsize))| / 2;
    PackKeeps(needs, pgsize);
    TotalPermutation(Flatten(packing), needs, Same);
    PackingHoldsAtMost(packing, cap);
    PairsOfPages(Pages(Pack(needs, pgsize)), cap);
    PositiveSum(needs);
    assert Times(h, cap + 1) <= Times(m, cap);
    if m <= h {
      TimesCompare(m, h, cap);
    }
  }
}
