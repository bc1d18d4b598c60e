/**
 * What the page-size simulator computes, as functions: the insertions that each database page
 * causes at one simulated page size, and their effect on the simulated pages.
 */
module TunerSpec {
  import opened Sums
  import opened NextFit
  import opened Bits

  const NUM_PGSIZES := 8
  const DIST_DIVISION := 11

  /** sizeof(db_indx_t), and the entries of a leaf page that make up a pair. */
  const INDX_SIZE := 2
  const P_INDX := 2
  const O_INDX := 1

  type uint16 = x: nat | x < 0x1_0000
  type uint32 = x: nat | x < 0x1_0000_0000

  const UINT32_RANGE := 0x1_0000_0000

  /** Page checksums and encryption enlarge the page header of the database being read. */
  datatype Protection = Unprotected | Checksummed | Encrypted

  // ---------- space on a page ----------

  /** P_OVERHEAD */
  function Overhead(prot: Protection): nat {
    match prot
    case Unprotected => SIZEOF_PAGE
    case Checksummed => SIZEOF_PAGE + 6
    case Encrypted => SIZEOF_PAGE + 38
  }

  /** BKEYDATA_PSIZE, with its cast to 16 bits. */
  function KeyDataSpace(len: uint32): nat {
    Pow2Of64();
    DbAlign(len + 3, 4, UINTMAX_BITS) % 0x1_0000 + INDX_SIZE
  }

  /** BOVERFLOW_PSIZE */
  function OverflowSpace(): nat {
    Pow2Of64();
    DbAlign(12, 4, UINTMAX_BITS) % 0x1_0000 + INDX_SIZE
  }

  lemma SpaceValues()
    ensures KeyDataSpace(0) == 6 && OverflowSpace() == 14
    ensures Pow2(64) >= 4 && DbAlign(1, 4, UINTMAX_BITS) == 4
  {
    hide DbAlign, Pow2;
    Pow2Of64();
    AlignToFour(1);
    AlignToFour(3);
    AlignToFour(12);
  }

  /** B_MINKEY_TO_OVFLSIZE for two keys a page: larger items go to overflow pages. */
  function OvflSize(prot: Protection, pgsize: nat): nat
    requires DB_MIN_PGSIZE <= pgsize <= DB_MAX_PGSIZE
  {
    Pow2Of64();
    SpaceValues();
    ((pgsize - Overhead(prot)) / (2 * P_INDX) - (KeyDataSpace(0) + DbAlign(1, 4, UINTMAX_BITS))) % 0x1_0000
  }

  lemma KeyDataSpaceValue(len: uint32)
    ensures KeyDataSpace(len) == (len + 6) / 4 * 4 % 0x1_0000 + 2
  {
    hide DbAlign, Pow2;
    AlignToFour(len + 3);
  }

  lemma OvflSizeValue(prot: Protection, pgsize: nat)
    requires DB_MIN_PGSIZE <= pgsize <= DB_MAX_PGSIZE
    ensures OvflSize(prot, pgsize) == (pgsize - Overhead(prot)) / 4 - 10
    ensures 102 <= OvflSize(prot, pgsize) < 0x4000
  {
    hide DbAlign, Pow2, KeyDataSpace;
    SpaceValues();
  }

  /** The eight simulated sizes. */
  lemma PageSizeInRange(i: nat)
    requires i < NUM_PGSIZES
    ensures DB_MIN_PGSIZE <= PageSize(i) <= DB_MAX_PGSIZE
    ensures PageSize(i + 1) == 2 * PageSize(i)
  {
    PageSizes();
    Pow2Mono(i, 7);
    Pow2Mono(0, i);
  }

  // ---------- insertions ----------

  /** How a key or a data item takes part in an insertion: INSERT_NORMAL and its companions. */
  datatype Insert = Normal | Nothing | SlotOnly | BDuplicate

  datatype Op =
    | Pair(keySize: uint32, dataSize: uint32, inKey: Insert, inData: Insert)
    | DupItem(size: uint32)
    | EndSet

  /** One simulated database: its leaf pages, duplicate pages and overflowing items. */
  datatype Sim = Sim(leaf: Bin, dup: Bin, spilled: seq<uint32>)

  const START := Sim(EMPTY, EMPTY, [])

  function Spill(prot: Protection, pgsize: nat, size: uint32): seq<uint32>
    requires DB_MIN_PGSIZE <= pgsize <= DB_MAX_PGSIZE
  {
    if size > OvflSize(prot, pgsize) then [size] else []
  }

  function KeyNeed(prot: Protection, pgsize: nat, size: uint32, inKey: Insert): nat
    requires DB_MIN_PGSIZE <= pgsize <= DB_MAX_PGSIZE
  {
    if size > OvflSize(prot, pgsize) then OverflowSpace()
    else match inKey
      case SlotOnly => INDX_SIZE
      case Normal => KeyDataSpace(size)
      case _ => 0
  }

  function DataNeed(prot: Protection, pgsize: nat, size: uint32, inData: Insert): nat
    requires DB_MIN_PGSIZE <= pgsize <= DB_MAX_PGSIZE
  {
    if size > OvflSize(prot, pgsize) then OverflowSpace()
    else match inData
      case BDuplicate => OverflowSpace()
      case Normal => KeyDataSpace(size)
      case _ => 0
  }

  /** Bytes that an insertion of a pair takes on a leaf page. */
  function PairNeed(prot: Protection, pgsize: nat, op: Op): nat
    requires DB_MIN_PGSIZE <= pgsize <= DB_MAX_PGSIZE && op.Pair?
  {
    KeyNeed(prot, pgsize, op.keySize, op.inKey) + DataNeed(prot, pgsize, op.dataSize, op.inData)
  }

  lemma SmallItemSpace(size: uint32)
    requires size < 0x4000
    ensures size < KeyDataSpace(size) <= size + 8
  {
    hide KeyDataSpace;
    KeyDataSpaceValue(size);
  }

  /** An item that stays on the page takes at most a quarter of it. */
  lemma ItemIsAtMostQuarter(prot: Protection, pgsize: nat, size: uint32)
    requires DB_MIN_PGSIZE <= pgsize <= DB_MAX_PGSIZE && size <= OvflSize(prot, pgsize)
    ensures 0 < 4 * KeyDataSpace(size) <= Usable(pgsize)
  {
    hide KeyDataSpace, OvflSize;
    OvflSizeValue(prot, pgsize);
    SmallItemSpace(size);
    assert 4 * (size + 8) <= pgsize - Overhead(prot);
  }

  lemma KeyIsAtMostQuarter(prot: Protection, pgsize: nat, size: uint32, inKey: Insert)
    requires DB_MIN_PGSIZE <= pgsize <= DB_MAX_PGSIZE
    ensures 4 * KeyNeed(prot, pgsize, size, inKey) <= Usable(pgsize)
    ensures inKey.Normal? || inKey.SlotOnly? ==> 0 < KeyNeed(prot, pgsize, size, inKey)
  {
    hide KeyDataSpace, OverflowSpace, OvflSize, DbAlign, Pow2;
    SpaceValues();
    if size <= OvflSize(prot, pgsize) { ItemIsAtMostQuarter(prot, pgsize, size); }
  }

  lemma DataIsAtMostQuarter(prot: Protection, pgsize: nat, size: uint32, inData: Insert)
    requires DB_MIN_PGSIZE <= pgsize <= DB_MAX_PGSIZE
    ensures 4 * DataNeed(prot, pgsize, size, inData) <= Usable(pgsize)
    ensures inData.Normal? || inData.BDuplicate? ==> 0 < DataNeed(prot, pgsize, size, inData)
  {
    hide KeyDataSpace, OverflowSpace, OvflSize, DbAlign, Pow2;
    SpaceValues();
    if size <= OvflSize(prot, pgsize) { ItemIsAtMostQuarter(prot, pgsize, size); }
  }

  /** A pair always fits in half of a page, which is what the overflow threshold is for. */
  lemma NeedIsAtMostHalf(prot: Protection, pgsize: nat, op: Op)
    requires DB_MIN_PGSIZE <= pgsize <= DB_MAX_PGSIZE && op.Pair?
    ensures 2 * PairNeed(prot, pgsize, op) <= Usable(pgsize)
  {
    hide KeyNeed, DataNeed;
    KeyIsAtMostQuarter(prot, pgsize, op.keySize, op.inKey);
    DataIsAtMostQuarter(prot, pgsize, op.dataSize, op.inData);
  }

  /** The effect of one insertion. */
  function Step(prot: Protection, pgsize: nat, s: Sim, op: Op): Sim
    requires DB_MIN_PGSIZE <= pgsize <= DB_MAX_PGSIZE
  {
    match op
    case Pair(keySize, dataSize, _, _) =>
      var need := PairNeed(prot, pgsize, op);
      if need == 0 then s
      else s.(leaf := Place(s.leaf, need, pgsize),
              spilled := s.spilled + Spill(prot, pgsize, keySize) + Spill(prot, pgsize, dataSize))
    case DupItem(size) =>
      s.(dup := Place(s.dup, DataNeed(prot, pgsize, size, Normal), pgsize),
         spilled := s.spilled + Spill(prot, pgsize, size))
    case EndSet =>
      if s.dup.offset == 0 then s else s.(dup := Bin(s.dup.closed + [s.dup.offset], 0))
  }

  function Run(prot: Protection, pgsize: nat, s: Sim, ops: seq<Op>): Sim
    requires DB_MIN_PGSIZE <= pgsize <= DB_MAX_PGSIZE
  {
    if ops == [] then s
    else Step(prot, pgsize, Run(prot, pgsize, s, ops[..|ops| - 1]), ops[|ops| - 1])
  }

  lemma {:induction false} RunConcat(prot: Protection, pgsize: nat, s: Sim, a: seq<Op>, b: seq<Op>)
    requires DB_MIN_PGSIZE <= pgsize <= DB_MAX_PGSIZE
    ensures Run(prot, pgsize, s, a + b) == Run(prot, pgsize, Run(prot, pgsize, s, a), b)
  {
    if b == [] {
      assert a + b == a;
    } else {
      var n := |b| - 1;
      assert (a + b)[..|a + b| - 1] == a + b[..n];
      RunConcat(prot, pgsize, s, a, b[..n]);
    }
  }

  lemma RunNone(prot: Protection, pgsize: nat, s: Sim)
    requires DB_MIN_PGSIZE <= pgsize <= DB_MAX_PGSIZE
    ensures Run(prot, pgsize, s, []) == s
  {
  }

  lemma RunOne(prot: Protection, pgsize: nat, s: Sim, op: Op)
    requires DB_MIN_PGSIZE <= pgsize <= DB_MAX_PGSIZE
    ensures Run(prot, pgsize, s, [op]) == Step(prot, pgsize, s, op)
  {
    assert [op][..0] == [];
  }

  lemma RunAppend(prot: Protection, pgsize: nat, s: Sim, ops: seq<Op>, op: Op)
    requires DB_MIN_PGSIZE <= pgsize <= DB_MAX_PGSIZE
    ensures Run(prot, pgsize, s, ops + [op]) == Step(prot, pgsize, Run(prot, pgsize, s, ops), op)
  {
    assert (ops + [op])[..|ops|] == ops;
  }

  /** Step and Run at the i-th page size. */
  function StepAt(prot: Protection, i: nat, s: Sim, op: Op): Sim
    requires i < NUM_PGSIZES
  {
    PageSizeInRange(i);
    Step(prot, PageSize(i), s, op)
  }

  function RunAt(prot: Protection, i: nat, s: Sim, ops: seq<Op>): Sim
    requires i < NUM_PGSIZES
  {
    PageSizeInRange(i);
    Run(prot, PageSize(i), s, ops)
  }

  lemma RunAtConcat(prot: Protection, i: nat, s: Sim, a: seq<Op>, b: seq<Op>)
    requires i < NUM_PGSIZES
    ensures RunAt(prot, i, s, a + b) == RunAt(prot, i, RunAt(prot, i, s, a), b)
  {
    hide PageSize;
    PageSizeInRange(i);
    RunConcat(prot, PageSize(i), s, a, b);
  }

  lemma RunAtOne(prot: Protection, i: nat, s: Sim, op: Op)
    requires i < NUM_PGSIZES
    ensures RunAt(prot, i, s, [op]) == StepAt(prot, i, s, op)
    ensures RunAt(prot, i, s, []) == s
  {
    hide PageSize;
    PageSizeInRange(i);
    RunOne(prot, PageSize(i), s, op);
  }

  // ---------- the pages of the database that is read ----------

  datatype ItemKind = KeyData | Duplicate | Overflow | Blob

  /** An item on a page: len for key data, tlen for the others. */
  datatype Item = Item(kind: ItemKind, len: uint16, tlen: uint32, deleted: bool)

  /** An index entry and the item it leads to. */
  datatype Slot = Slot(off: uint16, item: Item)

  function ItemSize(x: Item): uint32 {
    if x.kind.KeyData? then x.len else x.tlen
  }

  function ItemSpace(x: Item): nat {
    KeyDataSpace(ItemSize(x))
  }

  function IfLive(x: Item): seq<Item> {
    if x.deleted then [] else [x]
  }

  function Live(items: seq<Item>): seq<Item> {
    Flat(items, IfLive)
  }

  function OneSize(x: Item): seq<uint32> {
    [ItemSize(x)]
  }

  function Sizes(items: seq<Item>): seq<uint32> {
    Flat(items, OneSize)
  }

  /** A leaf page: key and data entries in turn. */
  predicate IsLeaf(page: seq<Slot>) {
    |page| % 2 == 0 && |page| < 0x1_0000
  }

  // ---------- runs of entries that share a key ----------

  /** First entry at or after indx whose key offset differs from that of entry first. */
  function RunEnd(page: seq<Slot>, first: nat, indx: nat): (r: nat)
    requires IsLeaf(page) && first < |page| && indx % 2 == 0 && indx <= |page|
    ensures indx <= r <= |page| && r % 2 == 0
    decreases |page| - indx
  {
    if indx < |page| && page[first].off == page[indx].off then RunEnd(page, first, indx + P_INDX) else indx
  }

  /** The entries first..RunEnd are the maximal run of one key from first on. */
  lemma {:induction false} RunIsMaximal(page: seq<Slot>, first: nat, indx: nat)
    requires IsLeaf(page) && first < |page| && indx % 2 == 0 && indx <= |page|
    ensures var r := RunEnd(page, first, indx);
            && (forall k :: indx <= k < r && k % 2 == 0 ==> page[k].off == page[first].off)
            && (r < |page| ==> page[r].off != page[first].off)
    decreases |page| - indx
  {
    if indx < |page| && page[first].off == page[indx].off {
      RunIsMaximal(page, first, indx + P_INDX);
      var r := RunEnd(page, first, indx);
      forall k | indx <= k < r && k % 2 == 0 ensures page[k].off == page[first].off {
        if k > indx { assert indx + P_INDX <= k; }
      }
    }
  }

  /** The data items of the entries from..to. */
  function DataItems(page: seq<Slot>, from: nat, to: nat): (r: seq<Item>)
    requires from <= to <= |page| && from % 2 == 0 && to % 2 == 0
    ensures |r| == (to - from) / 2
  {
    if from == to then [] else DataItems(page, from, to - P_INDX) + [page[to - 1].item]
  }

  lemma {:induction false} DataItemAt(page: seq<Slot>, from: nat, to: nat, k: nat)
    requires from <= to <= |page| && from % 2 == 0 && to % 2 == 0 && k < (to - from) / 2
    ensures DataItems(page, from, to)[k] == page[from + P_INDX * k + 1].item
  {
    if k < (to - from) / 2 - 1 {
      DataItemAt(page, from, to - P_INDX, k);
    }
  }

  /** One key and its data items. */
  datatype Group = Group(key: Item, data: seq<Item>)

  function GroupAt(page: seq<Slot>, indx: nat): (g: Group)
    requires IsLeaf(page) && indx % 2 == 0 && indx < |page|
    ensures |g.data| == (RunEnd(page, indx, indx) - indx) / 2 >= 1
  {
    Group(page[indx].item, DataItems(page, indx, RunEnd(page, indx, indx)))
  }

  predicate IsDupSet(g: Group) {
    |g.data| > 1
  }

  /** The test at the head of the scan tells a duplicate set from a single pair. */
  lemma DupTest(page: seq<Slot>, indx: nat)
    requires IsLeaf(page) && indx % 2 == 0 && indx < |page|
    ensures IsDupSet(GroupAt(page, indx)) <==> indx + P_INDX < |page| && page[indx].off == page[indx + P_INDX].off
    ensures GroupAt(page, indx).data[0] == page[indx + O_INDX].item
    ensures !IsDupSet(GroupAt(page, indx)) ==> RunEnd(page, indx, indx) == indx + P_INDX
  {
    hide DataItems;
    var r := RunEnd(page, indx, indx);
    assert r == RunEnd(page, indx, indx + P_INDX);
    DataItemAt(page, indx, r, 0);
  }

  /** The scan goes around without advancing when it meets one of these deleted items. */
  predicate Stuck(g: Group)
    requires |g.data| >= 1
  {
    g.key.deleted || (!IsDupSet(g) && g.data[0].deleted)
  }

  /** The index after one turn of the scan loop. */
  function ScanStep(page: seq<Slot>, indx: nat): (r: nat)
    requires IsLeaf(page) && indx % 2 == 0 && indx < |page|
    ensures r % 2 == 0 && indx <= r <= |page|
  {
    if Stuck(GroupAt(page, indx)) then indx else RunEnd(page, indx, indx)
  }

  function ScanSteps(page: seq<Slot>, indx: nat, n: nat): (r: nat)
    requires IsLeaf(page) && indx % 2 == 0 && indx <= |page|
    ensures r % 2 == 0 && r <= |page|
    decreases n
  {
    if n == 0 || indx == |page| then indx else ScanSteps(page, ScanStep(page, indx), n - 1)
  }

  /** No group from indx on stops the scan. */
  predicate Scannable(page: seq<Slot>, indx: nat)
    requires IsLeaf(page) && indx % 2 == 0 && indx <= |page|
    decreases |page| - indx
  {
    indx == |page| ||
    (!Stuck(GroupAt(page, indx)) && Scannable(page, RunEnd(page, indx, indx)))
  }

  lemma {:induction false} ScanEnds(page: seq<Slot>, indx: nat) returns (n: nat)
    requires IsLeaf(page) && indx % 2 == 0 && indx <= |page| && Scannable(page, indx)
    ensures ScanSteps(page, indx, n) == |page|
    decreases |page| - indx
  {
    if indx == |page| {
      n := 0;
    } else {
      n := ScanEnds(page, RunEnd(page, indx, indx));
      n := n + 1;
    }
  }

  lemma {:induction false} ScanNeverEnds(page: seq<Slot>, indx: nat, n: nat)
    requires IsLeaf(page) && indx % 2 == 0 && indx <= |page| && !Scannable(page, indx)
    ensures ScanSteps(page, indx, n) != |page|
    decreases n
  {
    if n > 0 {
      if Stuck(GroupAt(page, indx)) {
        ScanNeverEnds(page, indx, n - 1);
      } else {
        ScanNeverEnds(page, RunEnd(page, indx, indx), n - 1);
      }
    }
  }

  /** The scan of a page ends if and only if no group stops it. */
  lemma ScanEndsExactlyWhenScannable(page: seq<Slot>)
    requires IsLeaf(page)
    ensures Scannable(page, 0) <==> exists n: nat :: ScanSteps(page, 0, n) == |page|
  {
    if Scannable(page, 0) {
      var n := ScanEnds(page, 0);
    } else {
      forall n: nat ensures ScanSteps(page, 0, n) != |page| {
        ScanNeverEnds(page, 0, n);
      }
    }
  }

  // ---------- insertions that a leaf page causes ----------

  /** A key with one data item; an off-page set's pointer item is left to the set's own pages. */
  function SingleOp(g: Group): Op
    requires |g.data| >= 1
  {
    if g.data[0].kind.Duplicate? then Pair(ItemSize(g.key), 0, Normal, Nothing)
    else Pair(ItemSize(g.key), ItemSize(g.data[0]), Normal, Normal)
  }

  /** Space of the key and all live data items of a set. */
  function SetSpace(g: Group): nat {
    ItemSpace(g.key) + Total(Live(g.data), ItemSpace)
  }

  lemma NoneIsLive()
    ensures Total(Live([]), ItemSpace) == 0
  {
  }

  lemma SpaceIsBounded(x: Item)
    ensures ItemSpace(x) <= 65534
  {
    hide KeyDataSpace;
    KeyDataSpaceValue(ItemSize(x));
  }

  lemma {:induction false} TotalSpaceIsBounded(items: seq<Item>)
    ensures Total(Live(items), ItemSpace) <= 65534 * |items|
  {
    hide KeyDataSpace, ItemSize;
    if items == [] {
      NoneIsLive();
    } else {
      var front, x := items[..|items| - 1], items[|items| - 1];
      TotalSpaceIsBounded(front);
      assert items == front + [x];
      hide ItemSpace;
      FlatAppend(front, x, IfLive);
      SpaceIsBounded(x);
      if !x.deleted {
        TotalAppend(Live(front), x, ItemSpace);
      } else {
        assert Live(front) + [] == Live(front);
      }
    }
  }

  /** The space of a set on one page is too small for onpd_sz to wrap. */
  lemma SetSpaceFits(page: seq<Slot>, indx: nat)
    requires IsLeaf(page) && indx % 2 == 0 && indx < |page|
    ensures SetSpace(GroupAt(page, indx)) < UINT32_RANGE / 2
  {
    hide ItemSpace, Total, Live, DataItems;
    var g := GroupAt(page, indx);
    TotalSpaceIsBounded(g.data);
    SpaceIsBounded(g.key);
  }

  predicate GoesOffPage(space: nat, pgsize: nat) {
    space >= pgsize / 4
  }

  /** The k-th data item of a set that stays on the leaf page; the first one brings the key. */
  function OnPageOp(g: Group, k: nat): seq<Op>
    requires k < |g.data|
  {
    if g.data[k].deleted then []
    else if k == 0 then [Pair(ItemSize(g.key), ItemSize(g.data[0]), Normal, Normal)]
    else [Pair(0, ItemSize(g.data[k]), SlotOnly, Normal)]
  }

  /** The k-th data item of a set that goes off the page; the key's pointer comes before all. */
  function OffPageOp(g: Group, k: nat): seq<Op>
    requires k < |g.data|
  {
    (if k == 0 then [Pair(ItemSize(g.key), 0, Normal, BDuplicate)] else []) +
    (if g.data[k].deleted then [] else [DupItem(ItemSize(g.data[k]))])
  }

  /** The insertions of the first n data items of a set. */
  function SetPrefix(g: Group, offPage: bool, n: nat): seq<Op>
    requires n <= |g.data|
  {
    if n == 0 then []
    else SetPrefix(g, offPage, n - 1) + if offPage then OffPageOp(g, n - 1) else OnPageOp(g, n - 1)
  }

  function OneDupItem(size: uint32): seq<Op> {
    [DupItem(size)]
  }

  function DupItems(sizes: seq<uint32>): seq<Op> {
    Flat(sizes, OneDupItem)
  }

  /** All insertions of a set; one that went off the page ends by closing its last page. */
  function SetOps(g: Group, offPage: bool): seq<Op> {
    SetPrefix(g, offPage, |g.data|) + if offPage then [EndSet] else []
  }

  function GroupOps(pgsize: nat, g: Group): seq<Op>
    requires |g.data| >= 1
  {
    if IsDupSet(g) then SetOps(g, GoesOffPage(SetSpace(g), pgsize)) else [SingleOp(g)]
  }

  function LeafOps(pgsize: nat, page: seq<Slot>, indx: nat): seq<Op>
    requires IsLeaf(page) && indx % 2 == 0 && indx <= |page|
    decreases |page| - indx
  {
    if indx == |page| then []
    else GroupOps(pgsize, GroupAt(page, indx)) + LeafOps(pgsize, page, RunEnd(page, indx, indx))
  }

  // ---------- insertions that an off-page set causes ----------

  /** The pages of one off-page duplicate set, first to last. */
  type Chain = c: seq<seq<Item>> | |c| >= 1 witness [[]]

  /** Space of the live items of these pages. */
  function ChainBytes(chain: seq<seq<Item>>): nat {
    if chain == [] then 0
    else ChainBytes(chain[..|chain| - 1]) + Total(Live(chain[|chain| - 1]), ItemSpace)
  }

  /** What opd_sz holds of that, which is 32 bits wide. */
  function ChainSpace(chain: seq<seq<Item>>): uint32 {
    ChainBytes(chain) % UINT32_RANGE
  }

  function OneSlotPair(size: uint32): seq<Op> {
    [Pair(0, size, SlotOnly, Normal)]
  }

  function SlotPairs(sizes: seq<uint32>): seq<Op> {
    Flat(sizes, OneSlotPair)
  }

  /** The loop over the chain inserts the first page's items once for every page. */
  function Repeat(n: nat, ops: seq<Op>): seq<Op> {
    if n == 0 then [] else Repeat(n - 1, ops) + ops
  }

  function ChainOps(chain: Chain, offPage: bool): seq<Op> {
    var first := Sizes(Live(chain[0]));
    if offPage then [Pair(0, 0, Nothing, BDuplicate)] + Repeat(|chain|, DupItems(first)) + [EndSet]
    else Repeat(|chain|, SlotPairs(first))
  }

  // ---------- a whole traversal ----------

  /** A page as the traversal hands it to the callback. */
  datatype TreePage =
    | Leaf(entries: seq<Slot>)
    | FirstDup(chain: Chain)
    | LaterDup
    | NoRecords
    | Unknown

  predicate Readable(p: TreePage) {
    p.Leaf? ==> IsLeaf(p.entries) && Scannable(p.entries, 0)
  }

  function PageOps(pgsize: nat, p: TreePage): seq<Op>
    requires Readable(p)
  {
    match p
    case Leaf(entries) => LeafOps(pgsize, entries, 0)
    case FirstDup(chain) => ChainOps(chain, GoesOffPage(ChainSpace(chain), pgsize))
    case _ => []
  }

  function TraversalOps(pgsize: nat, pages: seq<TreePage>): seq<Op>
    requires forall k :: 0 <= k < |pages| ==> Readable(pages[k])
  {
    if pages == [] then []
    else TraversalOps(pgsize, pages[..|pages| - 1]) + PageOps(pgsize, pages[|pages| - 1])
  }
}
