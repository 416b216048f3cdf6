/** The large-file page of cynder/filepage.cpp: what each operation makes of the file
    and of the fields, that the file keeps the layout of PageLayout over any run of
    stores, and that opening the file finds everything again. */
module Filepage {
  import opened Bytes
  import opened Options
  import opened Disk
  import opened PageLayout
  import opened Sequences

  /** PAGE_MAGIC with its NUL. */
  const PAGE_MAGIC: seq<Byte> := [76, 70, 66, 88, 48, 49, 69, 0]

  /** The file and the fields of a Filepage. */
  datatype Page = Page(
    file: seq<Byte>, elements: nat, firstFree: nat, grow: nat, lastIndex: nat, itemSize: nat,
    contents: map<seq<Byte>, Place>, full: bool)

  // ---------- what the operations do ----------

  /** A pageHeader in memory; `pad` is the uninitialised gap after the short. */
  function HeaderBytes(p: Page, pad: seq<Byte>): (b: seq<Byte>)
    ensures |b| == HEADER
  {
    PAGE_MAGIC + Le16(p.elements) + Read(pad, 0, 2) + Le32(p.firstFree) + Le32(p.grow) + Le32(p.itemSize)
    + Le32(if p.full then PAGE_FLAG_FULL else 0)
  }

  function WithHeader(p: Page, pad: seq<Byte>): Page {
    p.(file := Written(p.file, 0, HeaderBytes(p, pad)))
  }

  /** create(alloc, size) on a truncated file. */
  function Created(alloc: nat, size: nat, pad: seq<Byte>): Page {
    var free := Word(HEADER + SlotsSize(alloc) + NEXT);
    var p := Page([], 0, free, alloc, HEADER, size, map[], false);
    var f := Written(WithHeader(p, pad).file, HEADER + SlotsSize(alloc), Le32(INDEX_NEXT_EMPTY));
    p.(file := Written(f, |f| + Word(size * alloc), [0]))
  }

  /** Where growPage writes the byte that is to extend the file. Its last fseek counts
      from the pointer just written, not from the start. */
  function ZeroAt(p: Page): nat {
    var free := Word(Word(p.firstFree + SlotsSize(p.grow)) + NEXT);
    p.lastIndex + SlotsSize(p.grow) + NEXT + Word(free + Word(p.itemSize * p.grow))
  }

  function Grown(p: Page, pad: seq<Byte>): Page {
    var pointer := Word(p.firstFree + SlotsSize(p.grow));
    var f1 := Written(p.file, pointer, Le32(INDEX_NEXT_EMPTY));
    var f2 := Written(f1, p.lastIndex + SlotsSize(p.grow), Le32(p.firstFree));
    var f3 := Written(f2, ZeroAt(p), [0]);
    WithHeader(p.(file := f3, firstFree := Word(pointer + NEXT), lastIndex := p.firstFree), pad)
  }

  /** Whether storeItem grows the page first. */
  predicate Grows(p: Page)
    requires p.grow >= 1
  {
    p.elements % p.grow == 0 && p.elements > 1
  }

  /** storeItem after any growth: slot, data, map, count, fullness, header. */
  function Placed(p: Page, e: Entry): Page
    requires p.grow >= 1
  {
    var f1 := Written(p.file, p.lastIndex + SlotsSize(p.elements % p.grow), SlotBytes(e, p.firstFree));
    var f2 := Written(f1, p.firstFree, e.data);
    var free := Word(p.firstFree + |e.data|);
    WithHeader(p.(file := f2, firstFree := free, elements := (p.elements + 1) % 65536,
                  contents := p.contents[e.name := Place(p.firstFree, Word(|e.data|))],
                  full := p.full || Word(free + p.itemSize) > 0xFFFF_FFFF), e.junk)
  }

  const MAX_NAME: int := 40

  function Stored(p: Page, e: Entry): Page
    requires p.grow >= 1
  {
    if |e.name| > MAX_NAME then p
    else Placed(if Grows(p) then Grown(p, e.junk) else p, e)
  }

  function Retrieved(p: Page, name: seq<Byte>): Option<seq<Byte>> {
    if name in p.contents then Some(Read(p.file, p.contents[name].at, p.contents[name].size)) else None
  }

  // ---------- the file follows the layout ----------

  /** Every slot, every item's data and every pointer to a further block is in the file. */
  ghost predicate OnDisk(f: seq<Byte>, g: nat, log: seq<Entry>)
    requires g >= 1
  {
    && Free(g, log) <= |f|
    && (forall i :: 0 <= i < |log| ==> Holds(f, SlotAt(g, log, i), SlotBytes(log[i], DataAt(g, log, i))))
    && (forall i :: 0 <= i < |log| ==> Holds(f, DataAt(g, log, i), log[i].data))
    && (forall i :: 0 < i < |log| && i % g == 0 ==> Holds(f, NextAt(g, log, i - 1), Le32(BlockOf(g, log, i))))
  }

  ghost predicate HeaderOnDisk(p: Page) {
    exists pad :: Holds(p.file, 0, HeaderBytes(p, pad))
  }

  /** The page is the one these items make. */
  ghost predicate Laid(p: Page, log: seq<Entry>) {
    && p.grow >= 2
    && p.elements == |log| < 65536
    && p.firstFree == Free(p.grow, log) < WORD
    && p.lastIndex == LastBlock(p.grow, log)
    && p.contents == Contents(p.grow, log)
    && !p.full
    && OnDisk(p.file, p.grow, log)
    && HeaderOnDisk(p)
  }

  /** Room for the next item is there. */
  ghost predicate Ready(p: Page, log: seq<Entry>) {
    && p.grow >= 2
    && p.elements == |log| < 65536
    && p.firstFree == DataAt(p.grow, log, |log|) <= |p.file|
    && p.lastIndex == BlockOf(p.grow, log, |log|)
    && p.contents == Contents(p.grow, log)
    && !p.full
    && OnDisk(p.file, p.grow, log)
    && (|log| > 0 && |log| % p.grow == 0 ==>
          Holds(p.file, NextAt(p.grow, log, |log| - 1), Le32(BlockOf(p.grow, log, |log|))))
  }

  /** The byte growPage writes does not wrap to below the first free offset, or finds a zero
      there. */
  predicate GrowthSpares(p: Page) {
    p.firstFree <= ZeroAt(p) || (ZeroAt(p) < |p.file| && p.file[ZeroAt(p)] == 0)
  }

  /** The sizes that a store of an item must stay under: offsets of 32 bits, a count of
      16, and a growth byte that changes nothing of what is stored. */
  predicate Roomy(p: Page, data: seq<Byte>)
    requires p.grow >= 1
  {
    var free := p.firstFree + if Grows(p) then BlockSize(p.grow) else 0;
    && p.elements + 1 < 65536
    && free + |data| < WORD
    && (Grows(p) ==> GrowthSpares(p))
  }

  /** A write at or past the first free offset, or into the header, leaves the layout. */
  lemma OutsideKeeps(f: seq<Byte>, g: nat, log: seq<Entry>, pos: nat, b: seq<Byte>)
    requires g >= 2 && OnDisk(f, g, log)
    requires Free(g, log) <= pos || pos + |b| <= HEADER
    ensures OnDisk(Written(f, pos, b), g, log)
  {
    hide Written, Free, DataAt, SlotAt, NextAt, BlockOf, SlotBytes;
    WriteLengthens(f, pos, b);
    forall i | 0 <= i < |log|
      ensures Holds(Written(f, pos, b), SlotAt(g, log, i), SlotBytes(log[i], DataAt(g, log, i)))
    {
      SlotBounds(g, log, i);
      WrittenKeeps(f, pos, b, SlotAt(g, log, i), SlotBytes(log[i], DataAt(g, log, i)));
    }
    forall i | 0 <= i < |log| ensures Holds(Written(f, pos, b), DataAt(g, log, i), log[i].data) {
      DataBounds(g, log, i);
      WrittenKeeps(f, pos, b, DataAt(g, log, i), log[i].data);
    }
    forall i | 0 < i < |log| && i % g == 0
      ensures Holds(Written(f, pos, b), NextAt(g, log, i - 1), Le32(BlockOf(g, log, i)))
    {
      NextBounds(g, log, i - 1);
      WrittenKeeps(f, pos, b, NextAt(g, log, i - 1), Le32(BlockOf(g, log, i)));
    }
  }

  lemma WriteLengthens(f: seq<Byte>, pos: nat, b: seq<Byte>)
    ensures |f| <= |Written(f, pos, b)|
    ensures b != [] ==> pos + |b| <= |Written(f, pos, b)|
  {}

  lemma FirstIsPart(g: nat, log: seq<Entry>, i: nat)
    requires g >= 1 && i < |log|
    ensures PartOf(BlockPart(First(g, i)), g, log)
    ensures BlockOf(g, log, i) == BlockOf(g, log, First(g, i))
  {
    FirstIsFirst(g, i);
  }

  lemma SlotBounds(g: nat, log: seq<Entry>, i: nat)
    requires g >= 2 && i < |log|
    ensures HEADER <= BlockOf(g, log, i) <= SlotAt(g, log, i)
    ensures SlotAt(g, log, i) + SLOT <= NextAt(g, log, i)
    ensures NextAt(g, log, i) + NEXT <= Free(g, log)
  {
    FirstIsPart(g, log, i);
    BlockBounds(g, log, First(g, i));
  }

  lemma NextBounds(g: nat, log: seq<Entry>, i: nat)
    requires g >= 2 && i < |log|
    ensures HEADER <= NextAt(g, log, i)
    ensures NextAt(g, log, i) + NEXT <= Free(g, log)
  {
    SlotBounds(g, log, i);
  }

  /** A write into the part of the last block not in use yet leaves the layout. */
  lemma LastBlockKeeps(f: seq<Byte>, g: nat, log: seq<Entry>, pos: nat, b: seq<Byte>)
    requires g >= 2 && log != [] && OnDisk(f, g, log)
    requires SlotAt(g, log, |log| - 1) + SLOT <= pos && pos + |b| <= LastBlock(g, log) + BlockSize(g)
    ensures OnDisk(Written(f, pos, b), g, log)
  {
    hide Written, Free, DataAt, SlotAt, NextAt, BlockOf, SlotBytes, LastBlock;
    WriteLengthens(f, pos, b);
    DataBesideRest(g, log, |log| - 1);
    forall i | 0 <= i < |log|
      ensures Holds(Written(f, pos, b), SlotAt(g, log, i), SlotBytes(log[i], DataAt(g, log, i)))
    {
      SlotBeforeRest(g, log, i);
      WrittenKeeps(f, pos, b, SlotAt(g, log, i), SlotBytes(log[i], DataAt(g, log, i)));
    }
    forall i | 0 <= i < |log| ensures Holds(Written(f, pos, b), DataAt(g, log, i), log[i].data) {
      DataBesideRest(g, log, i);
      WrittenKeeps(f, pos, b, DataAt(g, log, i), log[i].data);
    }
    forall i | 0 < i < |log| && i % g == 0
      ensures Holds(Written(f, pos, b), NextAt(g, log, i - 1), Le32(BlockOf(g, log, i)))
    {
      NextBeforeRest(g, log, i);
      WrittenKeeps(f, pos, b, NextAt(g, log, i - 1), Le32(BlockOf(g, log, i)));
    }
  }

  lemma SlotBeforeRest(g: nat, log: seq<Entry>, i: nat)
    requires g >= 2 && i < |log|
    ensures SlotAt(g, log, i) <= SlotAt(g, log, |log| - 1)
  {
    var n := |log| - 1;
    FirstIsPart(g, log, i);
    FirstIsPart(g, log, n);
    FirstOrder(g, i, n);
    if First(g, i) < First(g, n) {
      SlotBounds(g, log, i);
      BlocksInOrder(g, log, First(g, i), First(g, n));
      hide BlockOf, First;
    } else {
      SameBlockSlots(g, log, i, n);
    }
  }

  lemma SameBlockSlots(g: nat, log: seq<Entry>, i: nat, j: nat)
    requires g >= 2 && i <= j < |log| && First(g, i) == First(g, j) && j % g - i % g == j - i
    ensures SlotAt(g, log, i) <= SlotAt(g, log, j)
  {
    hide Free;
  }

  lemma DataBesideRest(g: nat, log: seq<Entry>, i: nat)
    requires g >= 2 && i < |log|
    ensures DataAt(g, log, i) + |log[i].data| <= LastBlock(g, log)
         || LastBlock(g, log) + BlockSize(g) <= DataAt(g, log, i)
    ensures LastBlock(g, log) <= SlotAt(g, log, |log| - 1)
  {
    var n := |log| - 1;
    FirstIsPart(g, log, n);
    PartsApart(g, log, DataPart(i), BlockPart(First(g, n)));
  }

  lemma NextBeforeRest(g: nat, log: seq<Entry>, i: nat)
    requires g >= 2 && 0 < i < |log| && i % g == 0
    ensures NextAt(g, log, i - 1) + NEXT <= LastBlock(g, log)
  {
    var n := |log| - 1;
    FirstIsPart(g, log, i - 1);
    FirstIsPart(g, log, n);
    FirstOrder(g, i, n);
    BlocksInOrder(g, log, First(g, i - 1), First(g, n));
  }

  // ---------- growing ----------

  lemma NewBlock(g: nat, log: seq<Entry>)
    requires g >= 2 && |log| > 0 && |log| % g == 0
    ensures |log| > 1
    ensures BlockOf(g, log, |log|) == SlotAt(g, log, |log|) == Free(g, log)
    ensures DataAt(g, log, |log|) == Free(g, log) + BlockSize(g)
    ensures SlotAt(g, log, |log| - 1) + SLOT == NextAt(g, log, |log| - 1) == LastBlock(g, log) + SlotsSize(g)
  {
    hide Free;
    OneIsNone(g);
    assert log[..|log|] == log;
    assert First(g, |log|) == |log|;
    LastSlotEnds(g, log);
  }

  lemma OneIsNone(g: nat)
    requires g >= 2
    ensures 1 % g == 1
  {}

  lemma LastSlotEnds(g: nat, log: seq<Entry>)
    requires g >= 2 && |log| > 0 && |log| % g == 0
    ensures SlotAt(g, log, |log| - 1) + SLOT == NextAt(g, log, |log| - 1) == LastBlock(g, log) + SlotsSize(g)
  {
    hide BlockOf;
    BlockFull(g, |log|);
  }

  lemma BehindLastBlock(p: Page)
    ensures p.lastIndex + BlockSize(p.grow) <= ZeroAt(p)
  {}

  lemma ZeroThere(f: seq<Byte>, at: nat)
    requires at < |f| && f[at] == 0
    ensures Written(f, at, [0]) == f
  {
    assert f == f[..at] + [0] + f[at + 1..];
  }

  /** Growing lays the new block on free space and chains it to the last one. */
  lemma GrowMakesReady(p: Page, log: seq<Entry>, pad: seq<Byte>)
    requires Laid(p, log) && Grows(p) && p.firstFree + BlockSize(p.grow) < WORD && GrowthSpares(p)
    ensures Ready(Grown(p, pad), log)
    ensures Grown(p, pad).firstFree == p.firstFree + BlockSize(p.grow)
    ensures Grown(p, pad).itemSize == p.itemSize && Grown(p, pad).grow == p.grow
  {
    hide Written, OnDisk, Free, DataAt, SlotAt, NextAt, BlockOf, LastBlock, Contents, HeaderBytes, HeaderOnDisk,
         ZeroAt, Gap, Holds, Le32, Word;
    var g, n := p.grow, |log|;
    NewBlock(g, log);
    var pointer := p.firstFree + SlotsSize(g);
    var f1 := Written(p.file, pointer, Le32(INDEX_NEXT_EMPTY));
    var f2 := Written(f1, NextAt(g, log, n - 1), Le32(p.firstFree));
    var f3 := Written(f2, ZeroAt(p), [0]);
    OutsideKeeps(p.file, g, log, pointer, Le32(INDEX_NEXT_EMPTY));
    WriteLengthens(p.file, pointer, Le32(INDEX_NEXT_EMPTY));
    LastBlockKeeps(f1, g, log, NextAt(g, log, n - 1), Le32(p.firstFree));
    WriteLengthens(f1, NextAt(g, log, n - 1), Le32(p.firstFree));
    WrittenHolds(f1, NextAt(g, log, n - 1), Le32(p.firstFree));
    NextBounds(g, log, n - 1);
    if p.firstFree <= ZeroAt(p) {
      OutsideKeeps(f2, g, log, ZeroAt(p), [0]);
      WriteLengthens(f2, ZeroAt(p), [0]);
      WrittenKeeps(f2, ZeroAt(p), [0], NextAt(g, log, n - 1), Le32(p.firstFree));
    } else {
      WrittenElsewhere(p.file, pointer, Le32(INDEX_NEXT_EMPTY), ZeroAt(p));
      BehindLastBlock(p);
      WrittenElsewhere(f1, NextAt(g, log, n - 1), Le32(p.firstFree), ZeroAt(p));
      ZeroThere(f2, ZeroAt(p));
    }
    var header := HeaderBytes(p.(file := f3, firstFree := Word(pointer + NEXT), lastIndex := p.firstFree), pad);
    OutsideKeeps(f3, g, log, 0, header);
    WriteLengthens(f3, 0, header);
    WrittenKeeps(f3, 0, header, NextAt(g, log, n - 1), Le32(p.firstFree));
    assert Grown(p, pad).file == Written(f3, 0, header);
  }

  // ---------- placing ----------

  /** Where the next item's slot is, in a page that is ready for it. */
  lemma NextSlot(g: nat, log: seq<Entry>)
    requires g >= 2
    ensures var n := |log|;
            && HEADER <= SlotAt(g, log, n) && SlotAt(g, log, n) + SLOT <= DataAt(g, log, n)
            && Free(g, log) <= DataAt(g, log, n)
            && (n > 0 && n % g == 0 ==> NextAt(g, log, n - 1) + NEXT <= SlotAt(g, log, n) == Free(g, log))
            && (n > 0 && n % g != 0 ==>
                  && SlotAt(g, log, n) == SlotAt(g, log, n - 1) + SLOT
                  && SlotAt(g, log, n) + SLOT <= LastBlock(g, log) + BlockSize(g))
  {
    var n := |log|;
    assert log[..n] == log;
    if n == 0 {
      assert 0 % g == 0;
    } else if n % g == 0 {
      NewBlock(g, log);
      NextBounds(g, log, n - 1);
    } else {
      SameFirst(g, n);
      SlotBounds(g, log, n - 1);
      assert SlotsSize(n % g) == SlotsSize((n - 1) % g) + SLOT;
      assert SlotsSize(n % g) + SLOT <= SlotsSize(g);
    }
  }

  /** Writing the slot of the next item leaves the earlier ones. */
  lemma SlotWritten(f: seq<Byte>, g: nat, log: seq<Entry>, b: seq<Byte>)
    requires g >= 2 && OnDisk(f, g, log) && |b| == SLOT
    ensures OnDisk(Written(f, SlotAt(g, log, |log|), b), g, log)
  {
    hide SlotAt, Written, DataAt, NextAt, LastBlock;
    NextSlot(g, log);
    if log == [] {
      WriteLengthens(f, SlotAt(g, log, 0), b);
    } else if |log| % g == 0 {
      OutsideKeeps(f, g, log, SlotAt(g, log, |log|), b);
    } else {
      LastBlockKeeps(f, g, log, SlotAt(g, log, |log|), b);
    }
  }

  /** The layout with one more item is the old one, a slot, the data and perhaps a pointer. */
  lemma OneMore(f: seq<Byte>, g: nat, log: seq<Entry>, e: Entry)
    requires g >= 2 && OnDisk(f, g, log)
    requires Holds(f, SlotAt(g, log, |log|), SlotBytes(e, DataAt(g, log, |log|)))
    requires Holds(f, DataAt(g, log, |log|), e.data)
    requires |log| > 0 && |log| % g == 0 ==> Holds(f, NextAt(g, log, |log| - 1), Le32(BlockOf(g, log, |log|)))
    ensures OnDisk(f, g, log + [e])
  {
    hide SlotAt, DataAt, NextAt, BlockOf, SlotBytes, Free;
    var more := log + [e];
    forall i | 0 <= i <= |log|
      ensures DataAt(g, more, i) == DataAt(g, log, i) && SlotAt(g, more, i) == SlotAt(g, log, i)
      ensures BlockOf(g, more, i) == BlockOf(g, log, i) && NextAt(g, more, i) == NextAt(g, log, i)
    {
      Extended(g, log, e, i);
    }
    ExtendedEnd(g, log, e);
  }

  /** Storing into a page that is ready appends the item to the layout. */
  lemma PlacedIsLaid(p: Page, log: seq<Entry>, e: Entry)
    requires Ready(p, log) && |log| + 1 < 65536 && p.firstFree + |e.data| < WORD
    ensures Laid(Placed(p, e), log + [e])
    ensures Placed(p, e).itemSize == p.itemSize && Placed(p, e).grow == p.grow
  {
    hide Written, OnDisk, Free, DataAt, SlotAt, NextAt, BlockOf, LastBlock, Contents, HeaderBytes, SlotBytes,
         Holds, Le32, HeaderOnDisk;
    PlacedOnDisk(p, log, e);
    ExtendedEnd(p.grow, log, e);
  }

  /** Whatever its size, the item is in the file then, and everything before it. */
  lemma PlacedOnDisk(p: Page, log: seq<Entry>, e: Entry)
    requires Ready(p, log)
    ensures Placed(p, e).grow == p.grow >= 2
    ensures OnDisk(Placed(p, e).file, p.grow, log + [e]) && HeaderOnDisk(Placed(p, e))
  {
    hide Written, OnDisk, Free, DataAt, SlotAt, NextAt, BlockOf, LastBlock, Contents, HeaderBytes, SlotBytes,
         Holds, Le32, HeaderOnDisk;
    var g, n, slot, q := p.grow, |log|, SlotAt(p.grow, log, |log|), Placed(p, e);
    NextSlot(g, log);
    NextSlotAt(g, log);
    var bytes := SlotBytes(e, p.firstFree);
    var f1 := Written(p.file, slot, bytes);
    SlotWritten(p.file, g, log, bytes);
    WrittenHolds(p.file, slot, bytes);
    WriteLengthens(p.file, slot, bytes);
    var f2 := Written(f1, p.firstFree, e.data);
    OutsideKeeps(f1, g, log, p.firstFree, e.data);
    WrittenKeeps(f1, p.firstFree, e.data, slot, bytes);
    DataWritten(f1, p.firstFree, e.data);
    var header := HeaderBytes(q, e.junk);
    assert q.file == Written(f2, 0, header) by { HeaderForgetsFile(p, e, f2); }
    OutsideKeeps(f2, g, log, 0, header);
    WrittenKeeps(f2, 0, header, slot, bytes);
    WrittenKeeps(f2, 0, header, p.firstFree, e.data);
    if n > 0 && n % g == 0 {
      var next, pointer := NextAt(g, log, n - 1), Le32(BlockOf(g, log, n));
      NextBounds(g, log, n - 1);
      WrittenKeeps(p.file, slot, bytes, next, pointer);
      WrittenKeeps(f1, p.firstFree, e.data, next, pointer);
      WrittenKeeps(f2, 0, header, next, pointer);
    }
    OneMore(q.file, g, log, e);
    HeaderWritten(q, f2, e.junk);
  }

  lemma NextSlotAt(g: nat, log: seq<Entry>)
    requires g >= 1
    ensures SlotAt(g, log, |log|) == BlockOf(g, log, |log|) + SlotsSize(|log| % g)
  {}

  lemma DataWritten(f: seq<Byte>, pos: nat, data: seq<Byte>)
    requires pos <= |f|
    ensures Holds(Written(f, pos, data), pos, data)
  {
    if data == [] {
      assert f[pos..pos] == data;
    } else {
      WrittenHolds(f, pos, data);
    }
  }

  lemma HeaderForgetsFile(p: Page, e: Entry, f: seq<Byte>)
    requires p.grow >= 1
    requires var slot := p.lastIndex + SlotsSize(p.elements % p.grow);
             f == Written(Written(p.file, slot, SlotBytes(e, p.firstFree)), p.firstFree, e.data)
    ensures Placed(p, e).file == Written(f, 0, HeaderBytes(Placed(p, e), e.junk))
  {}

  lemma HeaderWritten(p: Page, f: seq<Byte>, pad: seq<Byte>)
    requires p.file == Written(f, 0, HeaderBytes(p, pad))
    ensures HeaderOnDisk(p)
  {
    WrittenHolds(f, 0, HeaderBytes(p, pad));
  }

  // ---------- whole runs ----------

  lemma NoGrowthIsReady(p: Page, log: seq<Entry>)
    requires Laid(p, log) && !Grows(p)
    ensures Ready(p, log)
  {
    hide Contents, Holds, HeaderOnDisk, Free, DataAt, BlockOf, LastBlock, NextAt, Le32, SlotAt, SlotBytes;
    NoGap(p.grow, log);
  }

  lemma NoGap(g: nat, log: seq<Entry>)
    requires g >= 2 && !(|log| % g == 0 && |log| > 1)
    ensures DataAt(g, log, |log|) == Free(g, log)
    ensures BlockOf(g, log, |log|) == LastBlock(g, log)
    ensures |log| > 0 ==> |log| % g != 0
  {
    var n := |log|;
    assert log[..n] == log && 1 % g == 1 && 0 % g == 0;
    if n > 0 { SameFirst(g, n); }
  }

  /** A store keeps the layout: it appends its item and disturbs no other. */
  lemma StoreKeepsLayout(p: Page, log: seq<Entry>, e: Entry)
    requires Laid(p, log) && |e.name| <= MAX_NAME && Roomy(p, e.data)
    ensures Laid(Stored(p, e), log + [e])
    ensures Stored(p, e).itemSize == p.itemSize && Stored(p, e).grow == p.grow
  {
    hide Laid, Ready, Grown, Placed;
    LaidCount(p, log);
    if Grows(p) {
      GrowMakesReady(p, log, e.junk);
      PlacedIsLaid(Grown(p, e.junk), log, e);
    } else {
      NoGrowthIsReady(p, log);
      PlacedIsLaid(p, log, e);
    }
  }

  lemma LaidCount(p: Page, log: seq<Entry>)
    requires Laid(p, log)
    ensures p.elements == |log| && p.grow >= 2
  {}

  lemma CreatedIsLaid(alloc: nat, size: nat, pad: seq<Byte>)
    requires alloc >= 2 && HEADER + BlockSize(alloc) < WORD
    ensures Laid(Created(alloc, size, pad), [])
    ensures Created(alloc, size, pad).grow == alloc && Created(alloc, size, pad).itemSize == size
  {
    hide Written, HeaderBytes, Le32, Holds, HeaderOnDisk;
    var p0 := Page([], 0, HEADER + BlockSize(alloc), alloc, HEADER, size, map[], false);
    var header := HeaderBytes(p0, pad);
    var f1 := Written([], 0, header);
    var pointer := HEADER + SlotsSize(alloc);
    var f2 := Written(f1, pointer, Le32(INDEX_NEXT_EMPTY));
    var zero := |f2| + Word(size * alloc);
    WrittenHolds([], 0, header);
    WrittenKeeps(f1, pointer, Le32(INDEX_NEXT_EMPTY), 0, header);
    WriteLengthens(f1, pointer, Le32(INDEX_NEXT_EMPTY));
    WrittenKeeps(f2, zero, [0], 0, header);
    WriteLengthens(f2, zero, [0]);
    SameHeader(p0, Created(alloc, size, pad), pad);
    HeaderHeld(Created(alloc, size, pad), pad, header);
  }

  lemma SameHeader(p: Page, q: Page, pad: seq<Byte>)
    requires p == q.(file := p.file, contents := p.contents, lastIndex := p.lastIndex)
    ensures HeaderBytes(p, pad) == HeaderBytes(q, pad)
  {}

  lemma HeaderHeld(p: Page, pad: seq<Byte>, header: seq<Byte>)
    requires Holds(p.file, 0, header) && header == HeaderBytes(p, pad)
    ensures HeaderOnDisk(p)
  {}

  /** The page after create and a run of stores. */
  function Run(alloc: nat, size: nat, pad: seq<Byte>, log: seq<Entry>): (p: Page)
    requires alloc >= 1
    ensures p.grow == alloc && p.itemSize == size
  {
    if log == [] then Created(alloc, size, pad)
    else Stored(Run(alloc, size, pad, log[..|log| - 1]), log[|log| - 1])
  }

  /** Every store of the run has an acceptable name and room. */
  ghost predicate RoomyRun(alloc: nat, size: nat, pad: seq<Byte>, log: seq<Entry>)
    requires alloc >= 1
  {
    forall i :: 0 <= i < |log| ==> |log[i].name| <= MAX_NAME && Roomy(Run(alloc, size, pad, log[..i]), log[i].data)
  }

  /** Every page a run reaches follows the layout. */
  lemma {:induction false} RunIsLaid(alloc: nat, size: nat, pad: seq<Byte>, log: seq<Entry>)
    requires alloc >= 2 && HEADER + BlockSize(alloc) < WORD && RoomyRun(alloc, size, pad, log)
    ensures Laid(Run(alloc, size, pad, log), log)
  {
    hide Laid, Created, Stored, Roomy;
    if log == [] {
      CreatedIsLaid(alloc, size, pad);
    } else {
      var n := |log| - 1;
      var before := log[..n];
      assert forall i :: 0 <= i < n ==> before[..i] == log[..i];
      RunIsLaid(alloc, size, pad, before);
      StoreKeepsLayout(Run(alloc, size, pad, before), before, log[n]);
      assert before + [log[n]] == log;
    }
  }

  /** A growth whose offsets stay below 2^32 puts its last byte on free space. */
  lemma NoWrapIsRoomy(p: Page, log: seq<Entry>, data: seq<Byte>)
    requires Laid(p, log) && |log| + 1 < 65536
    requires p.firstFree + BlockSize(p.grow) + |data| + p.itemSize * p.grow < WORD
    ensures Roomy(p, data)
  {
    hide Free, LastBlock, Contents, OnDisk, HeaderOnDisk;
    var room := p.itemSize * p.grow;
    assert room >= 0 && Word(room) == room;
    assert SlotsSize(p.grow) + NEXT == BlockSize(p.grow);
  }

  function TotalSize(log: seq<Entry>): nat {
    if log == [] then 0 else TotalSize(log[..|log| - 1]) + |log[|log| - 1].data|
  }

  /** A run that cannot reach 2^32, however its items fall into blocks. */
  predicate SmallRun(alloc: nat, size: nat, log: seq<Entry>) {
    && |log| < 65536
    && (forall i :: 0 <= i < |log| ==> |log[i].name| <= MAX_NAME)
    && HEADER + (|log| + 2) * BlockSize(alloc) + TotalSize(log) + size * alloc < WORD
  }

  lemma {:induction false} FreeBound(g: nat, log: seq<Entry>)
    requires g >= 1
    ensures Free(g, log) <= HEADER + (|log| + 1) * BlockSize(g) + TotalSize(log)
  {
    if log != [] {
      FreeBound(g, log[..|log| - 1]);
      assert (|log| + 1) * BlockSize(g) == |log| * BlockSize(g) + BlockSize(g);
    }
  }

  lemma SmallerRun(alloc: nat, size: nat, log: seq<Entry>)
    requires SmallRun(alloc, size, log) && log != []
    ensures SmallRun(alloc, size, log[..|log| - 1]) && |log| < 65536
    ensures HEADER + BlockSize(alloc) < WORD
    ensures HEADER + |log| * BlockSize(alloc) + TotalSize(log[..|log| - 1])
          + BlockSize(alloc) + |log[|log| - 1].data| + size * alloc < WORD
  {
    var n, b := |log|, BlockSize(alloc);
    assert (n + 2) * b == n * b + b + b && (n - 1 + 2) * b == n * b + b && n * b >= 0 && size * alloc >= 0;
  }

  /** Such a run always has room. */
  lemma {:induction false} SmallRunIsRoomy(alloc: nat, size: nat, pad: seq<Byte>, log: seq<Entry>)
    requires alloc >= 2 && SmallRun(alloc, size, log)
    ensures RoomyRun(alloc, size, pad, log)
    decreases |log|
  {
    if log != [] {
      hide Laid, Roomy, SmallRun, Free, BlockSize, RoomyRun, TotalSize, Run;
      var n := |log| - 1;
      var before := log[..n];
      SmallerRun(alloc, size, log);
      SmallRunIsRoomy(alloc, size, pad, before);
      RunIsLaid(alloc, size, pad, before);
      SmallRunLeavesRoom(alloc, size, log);
      LastIsRoomy(Run(alloc, size, pad, before), before, log[n].data);
      SmallNames(alloc, size, log);
      RoomyOn(alloc, size, pad, log);
    }
  }

  lemma SmallRunLeavesRoom(alloc: nat, size: nat, log: seq<Entry>)
    requires alloc >= 1 && SmallRun(alloc, size, log) && log != []
    ensures Free(alloc, log[..|log| - 1]) + BlockSize(alloc) + |log[|log| - 1].data| + size * alloc < WORD
  {
    hide SmallRun, Free, BlockSize, TotalSize;
    SmallerRun(alloc, size, log);
    FreeBound(alloc, log[..|log| - 1]);
  }

  lemma SmallNames(alloc: nat, size: nat, log: seq<Entry>)
    requires SmallRun(alloc, size, log)
    ensures forall i :: 0 <= i < |log| ==> |log[i].name| <= MAX_NAME
  {}

  lemma LastIsRoomy(p: Page, log: seq<Entry>, data: seq<Byte>)
    requires Laid(p, log) && |log| + 1 < 65536
    requires Free(p.grow, log) + BlockSize(p.grow) + |data| + p.itemSize * p.grow < WORD
    ensures Roomy(p, data)
  {
    NoWrapIsRoomy(p, log, data);
  }

  lemma RoomyOn(alloc: nat, size: nat, pad: seq<Byte>, log: seq<Entry>)
    requires alloc >= 1 && log != [] && RoomyRun(alloc, size, pad, log[..|log| - 1])
    requires |log[|log| - 1].name| <= MAX_NAME
    requires Roomy(Run(alloc, size, pad, log[..|log| - 1]), log[|log| - 1].data)
    ensures RoomyRun(alloc, size, pad, log)
  {
    hide Roomy, Run;
    var before := log[..|log| - 1];
    forall i | 0 <= i < |log|
      ensures |log[i].name| <= MAX_NAME && Roomy(Run(alloc, size, pad, log[..i]), log[i].data)
    {
      if i < |before| { assert before[..i] == log[..i] && before[i] == log[i]; }
    }
  }

  // ---------- reading back ----------

  /** A name in the map leads to the last item stored under it. */
  lemma {:induction false} ContentsLast(g: nat, log: seq<Entry>, name: seq<Byte>) returns (i: nat)
    requires g >= 1
    ensures name in Contents(g, log) <==> LastData(log, name).Some?
    ensures name in Contents(g, log) ==>
              && i < |log| && LastData(log, name) == Some(log[i].data)
              && Contents(g, log)[name] == Place(DataAt(g, log, i), |log[i].data|)
  {
    if log == [] {
      i := 0;
    } else if log[|log| - 1].name == name {
      i := |log| - 1;
    } else {
      var before := log[..|log| - 1];
      i := ContentsLast(g, before, name);
      if name in Contents(g, before) {
        assert before[..i] == log[..i];
      }
    }
  }

  /** retrieveItem returns the last data stored under the name, and nothing for a name
      never stored. */
  lemma RetrievesLast(p: Page, log: seq<Entry>, name: seq<Byte>)
    requires Laid(p, log)
    ensures Retrieved(p, name) == LastData(log, name)
  {
    var i := ContentsLast(p.grow, log, name);
    if name in p.contents {
      HoldsRead(p.file, DataAt(p.grow, log, i), log[i].data);
    }
  }

  // ---------- opening ----------

  const INDEX_FLAG_DEL: int := 0x1

  /** The loop of open(): the file position, m_LastIndex and the map so far. */
  datatype Cursor = Cursor(pos: nat, last: nat, contents: map<seq<Byte>, Place>)

  /** Past the slots of a block, the pointer behind them leads on. */
  function Follow(f: seq<Byte>, g: nat, c: Cursor): Cursor {
    if c.last + SlotsSize(g) == Word(c.pos) then
      var next := Un32(Fetched(f, c.pos, Le32(c.last)));
      c.(pos := next, last := next)
    else c
  }

  function SlotPlace(slot: seq<Byte>): Place
    requires |slot| == SLOT
  {
    Place(Un32(slot[NAME + 4..NAME + 8]), Un32(slot[NAME..NAME + 4]))
  }

  function SlotRead(c: Cursor, slot: seq<Byte>): Cursor
    requires |slot| == SLOT
  {
    c.(contents := if slot[NAME + 8] % 2 == INDEX_FLAG_DEL then c.contents
                   else c.contents[slot[..NAME] := SlotPlace(slot)])
  }

  /** A pageIndexItem before it is read, as far as it is initialised. */
  function SlotMemory(junk: seq<Byte>): (memory: seq<Byte>)
    ensures |memory| == SLOT
  {
    Read(junk, 0, NAME + 4) + Le32(0) + [0] + Read(junk, NAME + 4, 3)
  }

  function SlotStep(f: seq<Byte>, g: nat, c: Cursor, junk: seq<Byte>): Cursor {
    var at := Follow(f, g, c);
    SlotRead(at.(pos := Advanced(f, at.pos, SLOT)), Fetched(f, at.pos, SlotMemory(junk)))
  }

  /** The loop after n slots; `junk(i)` is what memory held before the i-th. */
  function Slots(f: seq<Byte>, g: nat, n: nat, junk: nat -> seq<Byte>): Cursor {
    if n == 0 then Cursor(Advanced(f, 0, HEADER), HEADER, map[])
    else SlotStep(f, g, Slots(f, g, n - 1, junk), junk(n - 1))
  }

  /** A pageHeader before it is read, as far as it is initialised. */
  function HeaderMemory(pad: seq<Byte>): (memory: seq<Byte>)
    ensures |memory| == HEADER
  {
    Read(pad, 0, 8) + Le16(0) + Read(pad, 8, 2) + Repeated<Byte>(0, 16)
  }

  /** open() on a file; none for the magic error. */
  function Opened(f: seq<Byte>, pad: seq<Byte>, junk: nat -> seq<Byte>): Option<Page> {
    var h := Fetched(f, 0, HeaderMemory(pad));
    if h[0..8] != PAGE_MAGIC then None
    else
      var elements, grow := Un16(h[8..10]), Un32(h[16..20]);
      var c := Slots(f, grow, elements, junk);
      Some(Page(f, elements, Un32(h[12..16]), grow, c.last, Un32(h[20..24]), c.contents,
                Un32(h[24..28]) / PAGE_FLAG_FULL % 2 == 1))
  }

  /** The map that the slots on disk stand for: names cut or filled to 36 bytes. */
  function FieldContents(g: nat, log: seq<Entry>): (m: map<seq<Byte>, Place>)
    requires g >= 1
    ensures forall name :: name in m ==> |name| == NAME
  {
    if log == [] then map[]
    else
      var n := |log| - 1;
      FieldContents(g, log[..n])[NameField(log[n].name, log[n].junk) := Place(DataAt(g, log, n), |log[n].data|)]
  }

  lemma SlotReadsBack(c: Cursor, e: Entry, at: nat)
    requires at < WORD && |e.data| < WORD
    ensures SlotRead(c, SlotBytes(e, at))
         == c.(contents := c.contents[NameField(e.name, e.junk) := Place(at, |e.data|)])
  {
    hide NameField;
    var slot := SlotBytes(e, at);
    Le32RoundTrip(at);
    Le32RoundTrip(|e.data|);
    assert slot[..NAME] == NameField(e.name, e.junk);
    assert slot[NAME..NAME + 4] == Le32(|e.data|);
    assert slot[NAME + 4..NAME + 8] == Le32(at);
    assert slot[NAME + 8] == 0;
  }

  /** The loop before it reads slot i: at the end of the slot before, in its block. */
  ghost predicate Between(g: nat, log: seq<Entry>, i: nat, c: Cursor)
    requires g >= 1 && i <= |log|
  {
    && (i == 0 ==> c.pos == HEADER && c.last == HEADER)
    && (i > 0 ==> c.pos == SlotAt(g, log, i - 1) + SLOT && c.last == BlockOf(g, log, i - 1))
  }

  /** One turn of the loop reads the next slot, wherever it is. */
  lemma SlotStepReads(p: Page, log: seq<Entry>, i: nat, c: Cursor, junk: seq<Byte>)
    requires Laid(p, log) && i < |log| && Between(p.grow, log, i, c)
    ensures Between(p.grow, log, i + 1, SlotStep(p.file, p.grow, c, junk))
    ensures SlotStep(p.file, p.grow, c, junk).contents
         == c.contents[NameField(log[i].name, log[i].junk) := Place(DataAt(p.grow, log, i), |log[i].data|)]
  {
    hide Laid, SlotBytes, Fetched, SlotRead, NameField, Follow, SlotAt, BlockOf, DataAt, SlotMemory, Advanced;
    FollowFinds(p, log, i, c);
    LaidSlot(p, log, i, SlotMemory(junk));
    var at := Follow(p.file, p.grow, c);
    SlotReadsBack(at.(pos := Advanced(p.file, at.pos, SLOT)), log[i], DataAt(p.grow, log, i));
    SlotReadMoves(at.(pos := Advanced(p.file, at.pos, SLOT)), SlotBytes(log[i], DataAt(p.grow, log, i)));
  }

  lemma SlotReadMoves(c: Cursor, slot: seq<Byte>)
    requires |slot| == SLOT
    ensures SlotRead(c, slot).pos == c.pos && SlotRead(c, slot).last == c.last
  {}

  /** Where the loop stands after n slots. */
  lemma {:induction false} SlotsFollowLayout(p: Page, log: seq<Entry>, n: nat, junk: nat -> seq<Byte>)
    requires Laid(p, log) && n <= |log|
    ensures p.grow >= 2 && Between(p.grow, log, n, Slots(p.file, p.grow, n, junk))
    ensures Slots(p.file, p.grow, n, junk).contents == FieldContents(p.grow, log[..n])
  {
    hide Laid, FieldContents, SlotStep, Between, NameField, DataAt;
    LaidCount(p, log);
    FieldContentsStep(p.grow, log, n);
    if n == 0 {
      StartsBetween(p, log);
    } else {
      SlotsFollowLayout(p, log, n - 1, junk);
      SlotStepReads(p, log, n - 1, Slots(p.file, p.grow, n - 1, junk), junk(n - 1));
    }
  }

  lemma StartsBetween(p: Page, log: seq<Entry>)
    requires Laid(p, log)
    ensures p.grow >= 2 && Between(p.grow, log, 0, Cursor(Advanced(p.file, 0, HEADER), HEADER, map[]))
  {
    hide HeaderBytes;
    var pad :| Holds(p.file, 0, HeaderBytes(p, pad));
  }

  lemma FieldContentsStep(g: nat, log: seq<Entry>, n: nat)
    requires g >= 1 && n <= |log|
    ensures FieldContents(g, log[..n])
         == if n == 0 then map[]
            else FieldContents(g, log[..n - 1])[NameField(log[n - 1].name, log[n - 1].junk)
                   := Place(DataAt(g, log, n - 1), |log[n - 1].data|)]
  {
    hide NameField;
    if n > 0 {
      assert log[..n][..n - 1] == log[..n - 1];
    }
  }

  lemma LaidSlot(p: Page, log: seq<Entry>, i: nat, memory: seq<Byte>)
    requires Laid(p, log) && i < |log| && |memory| == SLOT
    ensures p.grow >= 2
    ensures Fetched(p.file, SlotAt(p.grow, log, i), memory) == SlotBytes(log[i], DataAt(p.grow, log, i))
    ensures Advanced(p.file, SlotAt(p.grow, log, i), SLOT) == SlotAt(p.grow, log, i) + SLOT
    ensures DataAt(p.grow, log, i) < WORD && |log[i].data| < WORD
  {
    hide SlotAt, DataAt, SlotBytes;
    HoldsFetched(p.file, SlotAt(p.grow, log, i), SlotBytes(log[i], DataAt(p.grow, log, i)), memory);
    DataBounds(p.grow, log, i);
  }

  /** From the end of a slot the loop finds the next one, by the pointer if the block is full. */
  lemma FollowFinds(p: Page, log: seq<Entry>, i: nat, c: Cursor)
    requires Laid(p, log) && i < |log|
    requires Between(p.grow, log, i, c)
    ensures Follow(p.file, p.grow, c) == c.(pos := SlotAt(p.grow, log, i), last := BlockOf(p.grow, log, i))
  {
    hide Laid, Free, Fetched, Un32, Le32;
    LaidCount(p, log);
    var g := p.grow;
    if i == 0 {
      assert 0 % g == 0;
    } else {
      LaidNext(p, log, i, Le32(c.last));
      if i % g != 0 {
        SameFirst(g, i);
        assert SlotsSize(i % g) == SlotsSize((i - 1) % g) + SLOT;
        assert SlotsSize(i % g) < SlotsSize(g);
      }
    }
  }

  lemma LaidNext(p: Page, log: seq<Entry>, i: nat, memory: seq<Byte>)
    requires Laid(p, log) && 0 < i < |log| && |memory| == NEXT
    ensures p.grow >= 2 && SlotAt(p.grow, log, i - 1) + SLOT < WORD
    ensures i % p.grow == 0 ==>
              && SlotAt(p.grow, log, i - 1) + SLOT == NextAt(p.grow, log, i - 1)
              && Un32(Fetched(p.file, NextAt(p.grow, log, i - 1), memory)) == BlockOf(p.grow, log, i)
              && SlotAt(p.grow, log, i) == BlockOf(p.grow, log, i)
  {
    hide Contents, Free, BlockOf, Un32, Fetched, Holds, LastBlock, HeaderOnDisk, SlotBytes, Le32;
    var g := p.grow;
    SlotBounds(g, log, i - 1);
    if i % g == 0 {
      BlockFull(g, i);
      assert SlotsSize(g - 1) + SLOT == SlotsSize(g);
      SlotBounds(g, log, i);
      HoldsFetched(p.file, NextAt(g, log, i - 1), Le32(BlockOf(g, log, i)), memory);
      Le32RoundTrip(BlockOf(g, log, i));
    }
  }

  lemma HeaderReadsBack(p: Page, header: seq<Byte>, pad: seq<Byte>)
    requires Holds(p.file, 0, HeaderBytes(p, header))
    requires p.elements < 65536 && p.firstFree < WORD && p.grow < WORD && p.itemSize < WORD
    ensures var h := Fetched(p.file, 0, HeaderMemory(pad));
            && h[0..8] == PAGE_MAGIC && Un16(h[8..10]) == p.elements && Un32(h[12..16]) == p.firstFree
            && Un32(h[16..20]) == p.grow && Un32(h[20..24]) == p.itemSize
            && Un32(h[24..28]) == if p.full then PAGE_FLAG_FULL else 0
  {
    hide Le32, Le16, Un16, Un32, Read, Holds, Fetched, HeaderMemory;
    HoldsFetched(p.file, 0, HeaderBytes(p, header), HeaderMemory(pad));
    Le16RoundTrip(p.elements);
    Le32RoundTrip(p.firstFree);
    Le32RoundTrip(p.grow);
    Le32RoundTrip(p.itemSize);
    Le32RoundTrip(if p.full then PAGE_FLAG_FULL else 0);
    var flags := Le32(if p.full then PAGE_FLAG_FULL else 0);
    FieldsOf(PAGE_MAGIC, Le16(p.elements), Read(header, 0, 2), Le32(p.firstFree), Le32(p.grow), Le32(p.itemSize),
             flags);
  }

  lemma FieldsOf(a: seq<Byte>, b: seq<Byte>, c: seq<Byte>, d: seq<Byte>, e: seq<Byte>, f: seq<Byte>, g: seq<Byte>)
    requires |a| == 8 && |b| == |c| == 2 && |d| == |e| == |f| == |g| == 4
    ensures var h := a + b + c + d + e + f + g;
            && h[0..8] == a && h[8..10] == b && h[12..16] == d && h[16..20] == e && h[20..24] == f && h[24..28] == g
  {}

  /** Opening the file follows the chain of blocks and finds the page again, its names as
      the slots hold them. */
  lemma OpenFinds(p: Page, log: seq<Entry>, pad: seq<Byte>, junk: nat -> seq<Byte>)
    requires Laid(p, log) && p.itemSize < WORD
    ensures Opened(p.file, pad, junk) == Some(p.(contents := FieldContents(p.grow, log)))
  {
    hide Slots, FieldContents, Free, HeaderBytes, HeaderMemory, OnDisk, Fetched, Un32, Un16, Contents;
    var header :| Holds(p.file, 0, HeaderBytes(p, header));
    FreeIsLarge(p.grow, log);
    HeaderReadsBack(p, header, pad);
    SlotsFollowLayout(p, log, |log|, junk);
    assert log[..|log|] == log;
  }

  lemma FreeIsLarge(g: nat, log: seq<Entry>)
    requires g >= 1
    ensures g < Free(g, log)
  {}

  // ---------- which names survive ----------

  predicate NulFree(name: seq<Byte>) {
    forall i :: 0 <= i < |name| ==> name[i] != 0
  }

  lemma NameKept(name: seq<Byte>, junk: seq<Byte>)
    requires NulFree(name)
    ensures NameField(name, junk) == name <==> |name| == NAME
  {
    assert name[..|name|] == name;
  }

  lemma {:induction false} NamesKept(g: nat, log: seq<Entry>)
    requires g >= 1
    requires forall i :: 0 <= i < |log| ==> NulFree(log[i].name) && |log[i].name| == NAME
    ensures FieldContents(g, log) == Contents(g, log)
  {
    if log != [] {
      NamesKept(g, log[..|log| - 1]);
      NameKept(log[|log| - 1].name, log[|log| - 1].junk);
    }
  }

  lemma {:induction false} NamesAreKeys(g: nat, log: seq<Entry>, i: nat)
    requires g >= 1 && i < |log|
    ensures log[i].name in Contents(g, log)
  {
    if i < |log| - 1 { NamesAreKeys(g, log[..|log| - 1], i); }
  }

  /** The destructor writes the header once more, and changes nothing else. */
  lemma CloseKeepsLayout(p: Page, log: seq<Entry>, pad: seq<Byte>)
    requires Laid(p, log)
    ensures Laid(WithHeader(p, pad), log)
  {
    hide Written, HeaderBytes, OnDisk, Contents, Free, LastBlock, HeaderOnDisk;
    var q := WithHeader(p, pad);
    HeaderIgnoresFile(p, q, pad);
    OutsideKeeps(p.file, p.grow, log, 0, HeaderBytes(p, pad));
    HeaderWritten(q, p.file, pad);
  }

  /** Closing and opening a page after any run of stores gives back the same page, if and
      only if every name has the 36 bytes of the slot's field. */
  lemma ReopenIsIdentity(alloc: nat, size: nat, pad: seq<Byte>, log: seq<Entry>, last: seq<Byte>,
                         junk: nat -> seq<Byte>)
    requires alloc >= 2 && HEADER + BlockSize(alloc) < WORD && size < WORD && RoomyRun(alloc, size, pad, log)
    requires forall i :: 0 <= i < |log| ==> NulFree(log[i].name)
    ensures var p := WithHeader(Run(alloc, size, pad, log), last);
            Opened(p.file, pad, junk) == Some(p) <==> forall i :: 0 <= i < |log| ==> |log[i].name| == NAME
  {
    hide Opened, OnDisk, HeaderOnDisk, Contents, FieldContents, RoomyRun, Roomy, Written;
    RunIsLaid(alloc, size, pad, log);
    CloseKeepsLayout(Run(alloc, size, pad, log), log, last);
    var p := WithHeader(Run(alloc, size, pad, log), last);
    OpenFinds(p, log, pad, junk);
    if forall i :: 0 <= i < |log| ==> |log[i].name| == NAME {
      NamesKept(alloc, log);
    } else {
      var i :| 0 <= i < |log| && |log[i].name| != NAME;
      NamesAreKeys(alloc, log, i);
    }
  }

  // ---------- the object ----------

  const ITEM_SIZE: int := 8 * 1024 * 1024
  const DEFAULT_PAGE_ALLOC: int := 16

  /** A Filepage and the file it has open. */
  class Filepage {
    var file: seq<Byte>
    var position: nat
    var isOpen: bool
    var elements: nat
    var firstFree: nat
    var grow: nat
    var lastIndex: nat
    var itemSize: nat
    var contents: map<seq<Byte>, Place>
    var pageFull: bool

    function State(): Page
      reads this
    {
      Page(file, elements, firstFree, grow, lastIndex, itemSize, contents, pageFull)
    }

    ghost predicate Valid()
      reads this
    {
      !isOpen ==> contents == map[] && !pageFull
    }

    /** A file that exists is opened, another one created with the default sizes. */
    constructor (onDisk: Option<seq<Byte>>, pad: seq<Byte>, junk: nat -> seq<Byte>)
      ensures Valid() && isOpen && fresh(this)
      ensures onDisk == None ==> State() == Created(DEFAULT_PAGE_ALLOC, ITEM_SIZE, pad)
      ensures onDisk.Some? ==>
                match Opened(onDisk.value, pad, junk)
                case Some(p) => State() == p
                case None => file == onDisk.value && contents == map[] && !pageFull
    {
      file := if onDisk.Some? then onDisk.value else [];
      isOpen, contents, pageFull := false, map[], false;
      new;
      if onDisk == None {
        Create(DEFAULT_PAGE_ALLOC, ITEM_SIZE, pad);
      } else {
        var _ := Open(pad, junk);
      }
    }

    method Fwrite(b: seq<Byte>)
      modifies `file, `position
      ensures file == Written(old(file), old(position), b)
      ensures position == old(position) + |b|
    {
      file := Written(file, position, b);
      position := position + |b|;
    }

    method Fread(memory: seq<Byte>) returns (b: seq<Byte>)
      modifies `position
      ensures b == Fetched(file, old(position), memory)
      ensures position == Advanced(file, old(position), |memory|)
    {
      b := Fetched(file, position, memory);
      position := Advanced(file, position, |memory|);
    }

    /** What create writes. */
    method Allocate(alloc: nat, size: nat, pad: seq<Byte>)
      modifies `file, `position, `lastIndex
      ensures file == Created(alloc, size, pad).file && lastIndex == HEADER
    {
      hide Written, HeaderBytes, Le32;
      file, position := [], 0;
      Fwrite(HeaderBytes(Page([], 0, Word(HEADER + SlotsSize(alloc) + NEXT), alloc, HEADER, size, map[], false), pad));
      lastIndex := HEADER;
      position := position + SlotsSize(alloc);
      Fwrite(Le32(INDEX_NEXT_EMPTY));
      position := |file| + Word(size * alloc);
      Fwrite([0]);
    }

    method Create(alloc: nat, size: nat, pad: seq<Byte>)
      requires Valid()
      modifies this
      ensures Valid() && isOpen
      ensures old(isOpen) ==> State() == old(State())
      ensures !old(isOpen) ==> State() == Created(alloc, size, pad)
    {
      hide Written, HeaderBytes, Le32;
      if isOpen {
        return;
      }
      isOpen := true;
      Allocate(alloc, size, pad);
      elements, firstFree, grow, itemSize := 0, Word(HEADER + SlotsSize(alloc) + NEXT), alloc, size;
    }

    /** The loop of open(). */
    method ReadIndex(count: nat, size: nat, junk: nat -> seq<Byte>)
      requires position == Advanced(file, 0, HEADER) && lastIndex == HEADER && contents == map[]
      modifies `position, `lastIndex, `contents
      ensures Cursor(position, lastIndex, contents) == Slots(file, size, count, junk)
    {
      hide Fetched, Advanced, Un32, Le32, SlotMemory;
      var i: nat := 0;
      while i < count
        invariant i <= count
        invariant Cursor(position, lastIndex, contents) == Slots(file, size, i, junk)
      {
        if lastIndex + SlotsSize(size) == Word(position) {
          var pointer := Fread(Le32(lastIndex));
          lastIndex := Un32(pointer);
          position := lastIndex;
        }
        var slot := Fread(SlotMemory(junk(i)));
        if slot[NAME + 8] % 2 != INDEX_FLAG_DEL {
          contents := contents[slot[..NAME] := Place(Un32(slot[NAME + 4..NAME + 8]), Un32(slot[NAME..NAME + 4]))];
        }
        i := i + 1;
      }
    }

    /** On a magic error the page stays open, with fields that were never set. */
    method Open(pad: seq<Byte>, junk: nat -> seq<Byte>) returns (ok: bool)
      requires Valid()
      modifies this
      ensures Valid() && isOpen && file == old(file)
      ensures ok <==> old(isOpen) || Opened(file, pad, junk).Some?
      ensures old(isOpen) || !ok ==> State() == old(State())
      ensures !old(isOpen) && ok ==> Opened(file, pad, junk) == Some(State())
    {
      hide Fetched, Advanced, Un32, Un16, Slots, HeaderMemory;
      if isOpen {
        return true;
      }
      isOpen := true;
      position := 0;
      var header := Fread(HeaderMemory(pad));
      if header[0..8] != PAGE_MAGIC {
        return false;
      }
      var count, size := Un16(header[8..10]), Un32(header[16..20]);
      if Un32(header[24..28]) / PAGE_FLAG_FULL % 2 == 1 {
        pageFull := true;
      }
      lastIndex := HEADER;
      ReadIndex(count, size, junk);
      elements, firstFree, grow, itemSize := count, Un32(header[12..16]), size, Un32(header[20..24]);
      ok := true;
    }

    method WriteHeader(pad: seq<Byte>)
      requires Valid()
      modifies `file, `position
      ensures Valid()
      ensures State() == if isOpen then WithHeader(old(State()), pad) else old(State())
    {
      if !isOpen {
        return;
      }
      position := 0;
      Fwrite(HeaderBytes(State(), pad));
    }

    /** The new block's pointer, behind its slots. */
    method LayPointer()
      modifies `file, `position, `firstFree
      ensures var pointer := Word(old(firstFree) + SlotsSize(grow));
              file == Written(old(file), pointer, Le32(INDEX_NEXT_EMPTY)) && firstFree == Word(pointer + NEXT)
    {
      hide Written, Le32;
      firstFree := Word(firstFree + SlotsSize(grow));
      position := firstFree;
      Fwrite(Le32(INDEX_NEXT_EMPTY));
      firstFree := Word(firstFree + NEXT);
    }

    /** The last block's pointer, and the byte that extends the file. */
    method Link(newIndex: nat)
      modifies `file, `position, `lastIndex
      ensures lastIndex == newIndex
      ensures var at := old(lastIndex) + SlotsSize(grow);
              file == Written(Written(old(file), at, Le32(newIndex)),
                              at + NEXT + Word(firstFree + Word(itemSize * grow)), [0])
    {
      hide Written, Le32;
      position := lastIndex + SlotsSize(grow);
      lastIndex := newIndex;
      Fwrite(Le32(newIndex));
      position := position + Word(firstFree + Word(itemSize * grow));
      Fwrite([0]);
    }

    method GrowPage(pad: seq<Byte>)
      requires Valid() && isOpen
      modifies `file, `position, `firstFree, `lastIndex
      ensures Valid() && State() == Grown(old(State()), pad)
    {
      hide Written, HeaderBytes, Word, Le32;
      var newIndex := firstFree;
      LayPointer();
      Link(newIndex);
      HeaderIgnoresFile(State(), Grown(old(State()), pad), pad);
      WriteHeader(pad);
    }

    method ShouldClose()
      requires Valid()
      modifies `pageFull
      ensures Valid() && pageFull == old(pageFull)
    {
      pageFull := pageFull || (isOpen && Word(firstFree + itemSize) > 0xFFFF_FFFF);
    }

    /** The part of storeItem after any growth. */
    method PlaceItem(name: seq<Byte>, data: seq<Byte>, junk: seq<Byte>)
      requires Valid() && isOpen && grow >= 1
      modifies this
      ensures Valid() && isOpen && State() == Placed(old(State()), Entry(name, data, junk))
    {
      hide Written, HeaderBytes, SlotBytes;
      ghost var p, e := State(), Entry(name, data, junk);
      position := lastIndex + SlotsSize(elements % grow);
      Fwrite(SlotBytes(Entry(name, data, junk), firstFree));
      position := firstFree;
      Fwrite(data);
      contents := contents[name := Place(firstFree, Word(|data|))];
      firstFree := Word(firstFree + |data|);
      elements := (elements + 1) % 65536;
      ShouldClose();
      HeaderForgetsFile(p, e, file);
      HeaderIgnoresFile(State(), Placed(p, e), junk);
      WriteHeader(junk);
    }

    /** Appends the item to whatever the page held; see Laid. */
    method StoreItem(name: seq<Byte>, data: seq<Byte>, junk: seq<Byte>)
      requires Valid() && (isOpen ==> grow >= 1)
      modifies this
      ensures Valid() && isOpen == old(isOpen)
      ensures State() == if isOpen then Stored(old(State()), Entry(name, data, junk)) else old(State())
      ensures forall log :: isOpen && Laid(old(State()), log) && |name| <= MAX_NAME && Roomy(old(State()), data)
                ==> Laid(State(), log + [Entry(name, data, junk)])
    {
      hide Laid, Grown, Roomy, Written, SlotBytes, HeaderBytes;
      if !isOpen {
        return;
      }
      ghost var e := Entry(name, data, junk);
      forall log | Laid(State(), log) && |name| <= MAX_NAME && Roomy(State(), data)
        ensures Laid(Stored(State(), e), log + [e])
      {
        StoreKeepsLayout(State(), log, e);
      }
      if |name| > MAX_NAME {
        return;
      }
      if elements % grow == 0 && elements > 1 {
        GrowPage(junk);
      }
      PlaceItem(name, data, junk);
    }

    method RetrieveItem(name: seq<Byte>) returns (data: Option<seq<Byte>>)
      requires Valid()
      modifies `position
      ensures isOpen ==> data == Retrieved(State(), name)
      ensures !isOpen ==> data == None
      ensures forall log :: isOpen && Laid(State(), log) ==> data == LastData(log, name)
    {
      hide Laid, Read;
      forall log | Laid(State(), log)
        ensures Retrieved(State(), name) == LastData(log, name)
      {
        RetrievesLast(State(), log, name);
      }
      if !isOpen || name !in contents {
        return None;
      }
      var place := contents[name];
      position := place.at;
      var buffer := Fread(Repeated<Byte>(0, place.size));
      FetchedIntoZeros(file, place.at, place.size);
      return Some(buffer);
    }
  }

  lemma FetchedIntoZeros(f: seq<Byte>, pos: nat, n: nat)
    ensures Fetched(f, pos, Repeated<Byte>(0, n)) == Read(f, pos, n)
  {}

  lemma HeaderIgnoresFile(p: Page, q: Page, pad: seq<Byte>)
    requires p == q.(file := p.file)
    ensures HeaderBytes(p, pad) == HeaderBytes(q, pad)
  {}
}
