/** Where cynder/filepage.cpp puts things. The layout is computed from the items stored
    so far, oldest first, and from the number of slots in an index block: the header, a
    first index block, and then item data with further index blocks in between. */
module PageLayout {
  import opened Bytes
  import opened Disk
  import opened Options

  const HEADER: int := 28
  const SLOT: int := 48
  const NAME: int := 36
  const NEXT: int := 4
  const INDEX_NEXT_EMPTY: int := 0x11
  const PAGE_FLAG_FULL: int := 0x10

  /** One call of storeItem: its arguments, and what the stack held before. */
  datatype Entry = Entry(name: seq<Byte>, data: seq<Byte>, junk: seq<Byte>)

  /** Where an item's data is, as the contents map has it. */
  datatype Place = Place(at: nat, size: nat)

  /** A std::string up to its first NUL. */
  function CString(s: seq<Byte>): (c: seq<Byte>)
    ensures |c| <= |s| && c == s[..|c|]
    ensures forall i :: 0 <= i < |c| ==> c[i] != 0
    ensures |c| < |s| ==> s[|c|] == 0
  {
    if s == [] || s[0] == 0 then [] else [s[0]] + CString(s[1..])
  }

  /** strcpy into the 36 bytes of a slot's name; what does not fit is overwritten by the
      fields that follow it. */
  function NameField(name: seq<Byte>, junk: seq<Byte>): (field: seq<Byte>)
    ensures |field| == NAME
  {
    var c := CString(name);
    if |c| >= NAME then c[..NAME] else c + [0] + Read(junk, |c| + 1, NAME - |c| - 1)
  }

  /** A pageIndexItem in memory, three bytes of padding at its end. */
  function SlotBytes(e: Entry, at: nat): (b: seq<Byte>)
    ensures |b| == SLOT
  {
    NameField(e.name, e.junk) + Le32(|e.data|) + Le32(at) + [0] + Read(e.junk, NAME, 3)
  }

  // ---------- offsets ----------

  /** The size of some slots; a slot has SLOT bytes. */
  function SlotsSize(n: nat): nat {
    48 * n
  }

  function BlockSize(g: nat): nat {
    SlotsSize(g) + NEXT
  }

  /** The room a new index block takes before the n-th item. */
  function Gap(g: nat, n: nat): nat
    requires g >= 1
  {
    if n % g == 0 && n > 1 then BlockSize(g) else 0
  }

  /** The first free offset after some items. */
  function Free(g: nat, log: seq<Entry>): (free: nat)
    requires g >= 1
    ensures free >= HEADER + BlockSize(g)
  {
    if log == [] then HEADER + BlockSize(g)
    else
      var n := |log| - 1;
      Free(g, log[..n]) + Gap(g, n) + |log[n].data|
  }

  /** Where the i-th item's data starts. */
  function DataAt(g: nat, log: seq<Entry>, i: nat): nat
    requires g >= 1 && i <= |log|
  {
    Free(g, log[..i]) + Gap(g, i)
  }

  /** The first item of the index block that item i has its slot in. */
  function First(g: nat, i: nat): (first: nat)
    requires g >= 1
    ensures first <= i
  {
    i - i % g
  }

  /** Where the index block of item i starts. */
  function BlockOf(g: nat, log: seq<Entry>, i: nat): nat
    requires g >= 1 && i <= |log|
  {
    if First(g, i) == 0 then HEADER else Free(g, log[..First(g, i)])
  }

  function SlotAt(g: nat, log: seq<Entry>, i: nat): nat
    requires g >= 1 && i <= |log|
  {
    BlockOf(g, log, i) + SlotsSize(i % g)
  }

  /** The pointer behind the slots of item i's block. */
  function NextAt(g: nat, log: seq<Entry>, i: nat): nat
    requires g >= 1 && i <= |log|
  {
    BlockOf(g, log, i) + SlotsSize(g)
  }

  /** Where the index block in use starts. */
  function LastBlock(g: nat, log: seq<Entry>): nat
    requires g >= 1
  {
    if log == [] then HEADER else BlockOf(g, log, |log| - 1)
  }

  // ---------- the map and what it means ----------

  /** The contents map after some items. */
  function Contents(g: nat, log: seq<Entry>): map<seq<Byte>, Place>
    requires g >= 1
  {
    if log == [] then map[]
    else
      var n := |log| - 1;
      Contents(g, log[..n])[log[n].name := Place(DataAt(g, log, n), |log[n].data|)]
  }

  /** The data last stored under a name. */
  function LastData(log: seq<Entry>, name: seq<Byte>): Option<seq<Byte>> {
    if log == [] then None
    else if log[|log| - 1].name == name then Some(log[|log| - 1].data)
    else LastData(log[..|log| - 1], name)
  }

  // ---------- offsets only grow ----------

  lemma {:induction false} FreeGrows(g: nat, log: seq<Entry>, a: nat, b: nat)
    requires g >= 1 && a <= b <= |log|
    ensures Free(g, log[..a]) <= Free(g, log[..b])
    ensures a < b ==> DataAt(g, log, a) + |log[a].data| <= Free(g, log[..b])
    decreases b - a
  {
    if a < b {
      assert log[..a + 1][..a] == log[..a];
      FreeGrows(g, log, a + 1, b);
    }
  }

  lemma SameFirst(g: nat, n: nat)
    requires g >= 1 && n > 0 && n % g != 0
    ensures First(g, n) == First(g, n - 1) && n % g == (n - 1) % g + 1
  {
    var q := n / g;
    assert n - 1 == q * g + (n % g - 1);
    Quotient(g, n - 1, q, n % g - 1);
  }

  lemma Quotient(g: nat, n: nat, q: nat, r: nat)
    requires g >= 1 && r < g && n == q * g + r
    ensures n / g == q && n % g == r
  {
    Scaled(n / g + 1, q, g);
    Scaled(q + 1, n / g, g);
  }

  lemma Scaled(a: int, b: int, g: nat)
    ensures a <= b ==> a * g <= b * g
  {}

  /** The item before the first of a block is the last of the block before. */
  lemma BlockFull(g: nat, n: nat)
    requires g >= 1 && n > 0 && n % g == 0
    ensures (n - 1) % g == g - 1
  {
    var q := n / g;
    assert n - 1 == (q - 1) * g + (g - 1);
    Quotient(g, n - 1, q - 1, g - 1);
  }

  /** Blocks hold their items in order. */
  lemma FirstOrder(g: nat, i: nat, j: nat)
    requires g >= 1 && i <= j
    ensures First(g, i) <= First(g, j)
    ensures First(g, i) < First(g, j) ==> i < First(g, j)
    ensures First(g, i) == First(g, j) ==> j % g - i % g == j - i
  {
    var a, b := i / g, j / g;
    FirstScaled(g, i);
    FirstScaled(g, j);
    hide First;
    Scaled(a + 1, b, g);
    Scaled(b + 1, a, g);
    Scaled(a, b, g);
  }

  lemma FirstScaled(g: nat, i: nat)
    requires g >= 1
    ensures First(g, i) == i / g * g && (i / g + 1) * g == First(g, i) + g
    ensures i == First(g, i) + i % g && i % g < g
  {}

  lemma FirstIsFirst(g: nat, i: nat)
    requires g >= 1
    ensures First(g, i) % g == 0 && First(g, First(g, i)) == First(g, i)
  {
    var a := i / g;
    assert First(g, i) == a * g;
    Quotient(g, First(g, i), a, 0);
  }

  // ---------- the regions of the file ----------

  /** The regions: the header, an index block with its pointer, named by its first item,
      and an item's data. */
  datatype Part = HeaderPart | BlockPart(first: nat) | DataPart(item: nat)

  predicate PartOf(part: Part, g: nat, log: seq<Entry>)
    requires g >= 1
  {
    match part
    case HeaderPart => true
    case BlockPart(first) => first == 0 || (first < |log| && first % g == 0)
    case DataPart(item) => item < |log|
  }

  function PartAt(part: Part, g: nat, log: seq<Entry>): nat
    requires g >= 1 && PartOf(part, g, log)
  {
    match part
    case HeaderPart => 0
    case BlockPart(first) => BlockOf(g, log, first)
    case DataPart(item) => DataAt(g, log, item)
  }

  function PartSize(part: Part, g: nat, log: seq<Entry>): nat
    requires g >= 1 && PartOf(part, g, log)
  {
    match part
    case HeaderPart => HEADER
    case BlockPart(_) => BlockSize(g)
    case DataPart(item) => |log[item].data|
  }

  /** An item's data lies behind the first block and below the first free offset. */
  lemma DataBounds(g: nat, log: seq<Entry>, i: nat)
    requires g >= 2 && i < |log|
    ensures HEADER + BlockSize(g) <= DataAt(g, log, i)
    ensures DataAt(g, log, i) + |log[i].data| <= Free(g, log)
  {
    FreeGrows(g, log, i, |log|);
    assert log[..|log|] == log;
  }

  lemma BlockBounds(g: nat, log: seq<Entry>, first: nat)
    requires g >= 2 && PartOf(BlockPart(first), g, log)
    ensures HEADER <= BlockOf(g, log, first)
    ensures first > 0 ==> BlockOf(g, log, first) == Free(g, log[..first]) && Gap(g, first) == BlockSize(g)
    ensures first > 0 ==> HEADER + BlockSize(g) <= BlockOf(g, log, first)
    ensures BlockOf(g, log, first) + BlockSize(g) <= Free(g, log)
  {
    assert 1 % g == 1;
    if first > 0 { FreeGrows(g, log, first, |log|); }
    assert log[..|log|] == log;
  }

  lemma BlockBeforeData(g: nat, log: seq<Entry>, first: nat, i: nat)
    requires g >= 2 && PartOf(BlockPart(first), g, log) && first <= i < |log|
    ensures BlockOf(g, log, first) + BlockSize(g) <= DataAt(g, log, i)
  {
    BlockBounds(g, log, first);
    if first > 0 && first < i { FreeGrows(g, log, first, i); }
  }

  lemma DataBeforeBlock(g: nat, log: seq<Entry>, i: nat, first: nat)
    requires g >= 2 && PartOf(BlockPart(first), g, log) && i < first
    ensures DataAt(g, log, i) + |log[i].data| <= BlockOf(g, log, first)
  {
    BlockBounds(g, log, first);
    FreeGrows(g, log, i, first);
  }

  lemma BlocksInOrder(g: nat, log: seq<Entry>, a: nat, b: nat)
    requires g >= 2 && PartOf(BlockPart(a), g, log) && PartOf(BlockPart(b), g, log) && a < b
    ensures BlockOf(g, log, a) + BlockSize(g) <= BlockOf(g, log, b)
  {
    BlockBounds(g, log, a);
    BlockBounds(g, log, b);
    if a > 0 { FreeGrows(g, log, a, b); }
  }

  lemma DataInOrder(g: nat, log: seq<Entry>, i: nat, j: nat)
    requires g >= 2 && i < j < |log|
    ensures DataAt(g, log, i) + |log[i].data| <= DataAt(g, log, j)
  {
    FreeGrows(g, log, i, j);
  }

  /** The header, every index block and every item's data lie apart from each other and
      below the first free offset. */
  lemma PartsApart(g: nat, log: seq<Entry>, p: Part, q: Part)
    requires g >= 2 && PartOf(p, g, log) && PartOf(q, g, log) && p != q
    ensures PartAt(p, g, log) + PartSize(p, g, log) <= PartAt(q, g, log)
         || PartAt(q, g, log) + PartSize(q, g, log) <= PartAt(p, g, log)
    ensures PartAt(p, g, log) + PartSize(p, g, log) <= Free(g, log)
  {
    hide Free, DataAt, BlockOf;
    PartBounds(g, log, p);
    PartBounds(g, log, q);
    match (p, q)
    case (BlockPart(a), BlockPart(b)) => if a < b { BlocksInOrder(g, log, a, b); } else { BlocksInOrder(g, log, b, a); }
    case (BlockPart(a), DataPart(i)) =>
      if a <= i { BlockBeforeData(g, log, a, i); } else { DataBeforeBlock(g, log, i, a); }
    case (DataPart(i), BlockPart(a)) =>
      if a <= i { BlockBeforeData(g, log, a, i); } else { DataBeforeBlock(g, log, i, a); }
    case (DataPart(i), DataPart(j)) => if i < j { DataInOrder(g, log, i, j); } else { DataInOrder(g, log, j, i); }
    case _ =>
  }

  lemma PartBounds(g: nat, log: seq<Entry>, p: Part)
    requires g >= 2 && PartOf(p, g, log)
    ensures PartAt(p, g, log) + PartSize(p, g, log) <= Free(g, log)
    ensures p == HeaderPart || HEADER <= PartAt(p, g, log)
  {
    match p
    case HeaderPart =>
    case BlockPart(first) => BlockBounds(g, log, first);
    case DataPart(item) => DataBounds(g, log, item);
  }

  // ---------- one more item moves nothing ----------

  lemma Extended(g: nat, log: seq<Entry>, e: Entry, i: nat)
    requires g >= 1 && i <= |log|
    ensures DataAt(g, log + [e], i) == DataAt(g, log, i)
    ensures BlockOf(g, log + [e], i) == BlockOf(g, log, i)
    ensures SlotAt(g, log + [e], i) == SlotAt(g, log, i)
    ensures NextAt(g, log + [e], i) == NextAt(g, log, i)
  {
    var more := log + [e];
    assert more[..i] == log[..i] && more[..First(g, i)] == log[..First(g, i)];
  }

  lemma ExtendedEnd(g: nat, log: seq<Entry>, e: Entry)
    requires g >= 1
    ensures Free(g, log + [e]) == DataAt(g, log, |log|) + |e.data|
    ensures Contents(g, log + [e]) == Contents(g, log)[e.name := Place(DataAt(g, log, |log|), |e.data|)]
    ensures LastBlock(g, log + [e]) == BlockOf(g, log, |log|)
  {
    var more := log + [e];
    assert more[..|log|] == log && log[..|log|] == log;
    Extended(g, log, e, |log|);
  }
}
