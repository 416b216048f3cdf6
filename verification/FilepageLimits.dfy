/** Where cynder/filepage.cpp leaves the layout: offsets that wrap around 32 bits, and
    index blocks of one slot. */
module FilepageLimits {
  import opened Bytes
  import opened Disk
  import opened Options
  import opened PageLayout
  import opened Pages = Filepage
  import opened Sequences

  // ---------- the growth byte wraps ----------

  /** Between the last index block and the first free offset there is nothing but the data
      of that block's items. */
  lemma {:induction false} LandsInItem(g: nat, log: seq<Entry>, m: nat, z: nat) returns (i: nat)
    requires g >= 2 && m < |log| && First(g, m) == First(g, |log| - 1)
    requires LastBlock(g, log) + BlockSize(g) <= z < DataAt(g, log, m) + |log[m].data|
    ensures i < |log| && DataAt(g, log, i) <= z < DataAt(g, log, i) + |log[i].data|
    decreases m
  {
    if DataAt(g, log, m) <= z {
      i := m;
    } else {
      BlockStart(g, log, m);
      SameFirst(g, m);
      DataFollows(g, log, m);
      i := LandsInItem(g, log, m - 1, z);
    }
  }

  /** The first item of a block has its data right behind the block. */
  lemma BlockStart(g: nat, log: seq<Entry>, m: nat)
    requires g >= 2 && m < |log| && First(g, m) == First(g, |log| - 1)
    ensures m % g == 0 ==> DataAt(g, log, m) == LastBlock(g, log) + BlockSize(g)
    ensures m % g != 0 ==> m > 0
  {
    OneIsNone(g);
    assert 0 % g == 0;
    if m == 0 { assert log[..0] == []; }
  }

  /** The others have it right behind the data of the item before. */
  lemma DataFollows(g: nat, log: seq<Entry>, m: nat)
    requires g >= 2 && 0 < m < |log| && m % g != 0
    ensures DataAt(g, log, m) == DataAt(g, log, m - 1) + |log[m - 1].data|
  {
    assert log[..m][..m - 1] == log[..m - 1];
  }

  lemma Spoiled(f: seq<Byte>, at: nat, data: seq<Byte>, k: nat)
    requires Holds(f, at, data) && k < |data|
    ensures Holds(Written(f, at + k, [0]), at, data[k := 0])
  {
    var g := Written(f, at + k, [0]);
    var part, was := g[at..at + |data|], f[at..at + |data|];
    forall j | 0 <= j < |data| ensures part[j] == data[k := 0][j] {
      assert was[j] == f[at + j];
    }
    assert part == data[k := 0];
  }

  /** The item still reads back from the file. */
  ghost predicate ReadsBack(f: seq<Byte>, g: nat, log: seq<Entry>, i: nat)
    requires g >= 1 && i < |log|
  {
    Read(f, DataAt(g, log, i), |log[i].data|) == log[i].data
  }

  /** The new block's pointer lands above the items, or, where it wraps, below them. */
  lemma PointerApart(p: Page, log: seq<Entry>, i: nat)
    requires Laid(p, log) && i < |log|
    ensures p.grow >= 2
    ensures var pointer, at := Word(p.firstFree + SlotsSize(p.grow)), DataAt(p.grow, log, i);
            at + |log[i].data| <= pointer || pointer + NEXT <= at
  {
    hide DataAt, Free, LastBlock, Contents, OnDisk, HeaderOnDisk;
    DataBounds(p.grow, log, i);
  }

  /** An item survives growth unless the growth byte lands in it, on a byte that is not zero. */
  lemma GrowthAndItem(p: Page, log: seq<Entry>, pad: seq<Byte>, i: nat)
    requires Laid(p, log) && Grows(p) && i < |log|
    ensures p.grow >= 2
    ensures var k := ZeroAt(p) - DataAt(p.grow, log, i);
            ReadsBack(Grown(p, pad).file, p.grow, log, i) <==> !(0 <= k < |log[i].data|) || log[i].data[k] == 0
  {
    hide Written, DataAt, Free, NextAt, BlockOf, LastBlock, Contents, HeaderBytes, HeaderOnDisk, ZeroAt, SlotAt,
         SlotBytes;
    var g, n, at, data := p.grow, |log|, DataAt(p.grow, log, i), log[i].data;
    NewBlock(g, log);
    DataBounds(g, log, i);
    DataBesideRest(g, log, i);
    var pointer, k := Word(p.firstFree + SlotsSize(g)), ZeroAt(p) - at;
    PointerApart(p, log, i);
    var f1 := Written(p.file, pointer, Le32(INDEX_NEXT_EMPTY));
    var f2 := Written(f1, NextAt(g, log, n - 1), Le32(p.firstFree));
    WrittenKeeps(p.file, pointer, Le32(INDEX_NEXT_EMPTY), at, data);
    WrittenKeeps(f1, NextAt(g, log, n - 1), Le32(p.firstFree), at, data);
    var f3 := Written(f2, ZeroAt(p), [0]);
    var header := HeaderBytes(p.(file := f3, firstFree := Word(pointer + NEXT), lastIndex := p.firstFree), pad);
    assert Grown(p, pad).file == Written(f3, 0, header);
    if 0 <= k < |data| {
      Spoiled(f2, at, data, k);
      WrittenKeeps(f3, 0, header, at, data[k := 0]);
      HoldsRead(Written(f3, 0, header), at, data[k := 0]);
      assert data[k := 0] == data <==> data[k] == 0 by { assert data[k := 0][k] == 0; }
    } else {
      WrittenKeeps(f2, ZeroAt(p), [0], at, data);
      WrittenKeeps(f3, 0, header, at, data);
      HoldsRead(Written(f3, 0, header), at, data);
    }
  }

  /** Every stored item still reads back. */
  ghost predicate AllReadBack(f: seq<Byte>, g: nat, log: seq<Entry>)
    requires g >= 1
  {
    forall i :: 0 <= i < |log| ==> ReadsBack(f, g, log, i)
  }

  lemma ByteOfItem(f: seq<Byte>, at: nat, data: seq<Byte>, z: nat)
    requires Holds(f, at, data) && at <= z < at + |data|
    ensures z < |f| && f[z] == data[z - at]
  {
    assert f[at..at + |data|][z - at] == f[z];
  }

  /** Growth leaves every item as it was exactly when its last byte does not wrap to below
      the first free offset, or hits a byte there that is zero already, whether or not the
      new block itself wraps. */
  lemma GrowthSparesItemsIff(p: Page, log: seq<Entry>, pad: seq<Byte>)
    requires Laid(p, log) && Grows(p)
    ensures p.grow >= 2
    ensures AllReadBack(Grown(p, pad).file, p.grow, log) <==> GrowthSpares(p)
  {
    hide Laid, Grown, ReadsBack, ZeroAt, Holds;
    GrowingPage(p, log);
    var g, z := p.grow, ZeroAt(p);
    forall i | 0 <= i < |log|
      ensures ReadsBack(Grown(p, pad).file, g, log, i)
         <==> !(0 <= z - DataAt(g, log, i) < |log[i].data|) || log[i].data[z - DataAt(g, log, i)] == 0
      ensures 0 <= z - DataAt(g, log, i) < |log[i].data| ==>
                z < p.firstFree && p.file[z] == log[i].data[z - DataAt(g, log, i)]
    {
      GrowthAndItem(p, log, pad, i);
      LaidData(p, log, i);
      if 0 <= z - DataAt(g, log, i) < |log[i].data| {
        ByteOfItem(p.file, DataAt(g, log, i), log[i].data, z);
      }
    }
    if z < p.firstFree {
      var i := LandsInItem(g, log, |log| - 1, z);
      assert ReadsBack(Grown(p, pad).file, g, log, i) <==> p.file[z] == 0;
    }
  }

  lemma LaidData(p: Page, log: seq<Entry>, i: nat)
    requires Laid(p, log) && i < |log|
    ensures p.grow >= 2 && Holds(p.file, DataAt(p.grow, log, i), log[i].data)
    ensures DataAt(p.grow, log, i) + |log[i].data| <= p.firstFree
  {
    hide SlotAt, DataAt, NextAt, BlockOf, SlotBytes, Contents, HeaderOnDisk;
    DataBounds(p.grow, log, i);
  }

  /** A page about to grow has items; the growth byte lands behind its last index block. */
  lemma GrowingPage(p: Page, log: seq<Entry>)
    requires Laid(p, log) && Grows(p)
    ensures p.grow >= 2 && log != [] && p.firstFree <= |p.file|
    ensures p.firstFree == DataAt(p.grow, log, |log| - 1) + |log[|log| - 1].data|
    ensures LastBlock(p.grow, log) + BlockSize(p.grow) <= ZeroAt(p)
  {
    hide Contents, HeaderOnDisk, Holds, SlotAt, SlotBytes, NextAt, Le32;
  }

  /** The growth byte is still there after the store. */
  lemma ZeroStays(p: Page, e: Entry)
    requires p.grow >= 1 && Grows(p) && |e.name| <= MAX_NAME
    requires HEADER <= ZeroAt(p) < p.firstFree && p.firstFree + BlockSize(p.grow) < WORD
    ensures var f := Stored(p, e).file; ZeroAt(p) < |f| && f[ZeroAt(p)] == 0
  {
    hide Written, Le32, HeaderBytes, SlotBytes, ZeroAt, Grown;
    var q, z := Grown(p, e.junk), ZeroAt(p);
    GrownByte(p, e.junk);
    WrittenByte(q.file, q.lastIndex + SlotsSize(q.elements % q.grow), SlotBytes(e, q.firstFree), z);
    var f1 := Written(q.file, q.lastIndex + SlotsSize(q.elements % q.grow), SlotBytes(e, q.firstFree));
    WrittenByte(f1, q.firstFree, e.data, z);
    HeaderForgetsFile(q, e, Written(f1, q.firstFree, e.data));
    WrittenByte(Written(f1, q.firstFree, e.data), 0, HeaderBytes(Placed(q, e), e.junk), z);
  }

  lemma GrownByte(p: Page, pad: seq<Byte>)
    requires HEADER <= ZeroAt(p) && p.firstFree + BlockSize(p.grow) < WORD
    ensures var q, z := Grown(p, pad), ZeroAt(p);
            && z < |q.file| && q.file[z] == 0 && q.grow == p.grow && q.elements == p.elements
            && q.lastIndex == p.firstFree && q.firstFree == p.firstFree + BlockSize(p.grow)
  {
    hide Written, Le32, HeaderBytes, ZeroAt;
    var pointer := p.firstFree + SlotsSize(p.grow);
    var f1 := Written(p.file, pointer, Le32(INDEX_NEXT_EMPTY));
    var f2 := Written(f1, p.lastIndex + SlotsSize(p.grow), Le32(p.firstFree));
    var f3 := Written(f2, ZeroAt(p), [0]);
    WrittenHolds(f2, ZeroAt(p), [0]);
    ByteOfItem(f3, ZeroAt(p), [0], ZeroAt(p));
    var header := HeaderBytes(p.(file := f3, firstFree := Word(pointer + NEXT), lastIndex := p.firstFree), pad);
    WrittenByte(f3, 0, header, ZeroAt(p));
    assert Grown(p, pad).file == Written(f3, 0, header);
  }

  /** A growth byte on an item's byte that is not zero leaves no layout. */
  lemma GrowthSpoilsLayout(p: Page, log: seq<Entry>, e: Entry)
    requires Laid(p, log) && Grows(p) && |e.name| <= MAX_NAME && p.firstFree + BlockSize(p.grow) < WORD
    requires Laid(Stored(p, e), log + [e]) && Stored(p, e).grow == p.grow
    ensures GrowthSpares(p)
  {
    hide Laid, Stored, ZeroAt, Holds, DataAt, Free, BlockOf, SlotAt, NextAt;
    GrowingPage(p, log);
    var g, z := p.grow, ZeroAt(p);
    if z < p.firstFree {
      var i := LandsInItem(g, log, |log| - 1, z);
      LaidData(p, log, i);
      ByteOfItem(p.file, DataAt(g, log, i), log[i].data, z);
      BehindHeader(p, log);
      ZeroStays(p, e);
      Extended(g, log, e, i);
      LaidData(Stored(p, e), log + [e], i);
      ByteOfItem(Stored(p, e).file, DataAt(g, log, i), log[i].data, z);
    }
  }

  lemma BehindHeader(p: Page, log: seq<Entry>)
    requires Laid(p, log) && log != []
    ensures HEADER <= ZeroAt(p)
  {
    hide Contents, OnDisk, HeaderOnDisk, ZeroAt;
    BehindLastBlock(p);
    SlotBounds(p.grow, log, |log| - 1);
  }

  /** A store keeps the layout if and only if there is room for it, which can be told from
      the page and the size of the data. */
  lemma StoreKeepsLayoutIff(p: Page, log: seq<Entry>, e: Entry)
    requires Laid(p, log) && |e.name| <= MAX_NAME
    ensures p.grow >= 2
    ensures Laid(Stored(p, e), log + [e]) <==> Roomy(p, e.data)
  {
    hide Laid, Stored, ZeroAt, DataAt, Free, Gap;
    LaidCount(p, log);
    LaidFree(p, log);
    StoredKeepsGrow(p, e);
    if Roomy(p, e.data) {
      StoreKeepsLayout(p, log, e);
    } else if Laid(Stored(p, e), log + [e]) {
      LaidFree(Stored(p, e), log + [e]);
      ExtendedEnd(p.grow, log, e);
      if Grows(p) {
        NewBlock(p.grow, log);
        GrowthSpoilsLayout(p, log, e);
      } else {
        NoGap(p.grow, log);
      }
    }
  }

  lemma LaidFree(p: Page, log: seq<Entry>)
    requires Laid(p, log)
    ensures p.grow >= 2 && p.firstFree == Free(p.grow, log) < WORD && |log| < 65536
  {}

  lemma StoredKeepsGrow(p: Page, e: Entry)
    requires p.grow >= 1
    ensures Stored(p, e).grow == p.grow
  {}

  /** Two blocks of two slots, and items sized so that the growth for the third one wraps. */
  const WRAPPING_SIZE: int := 2147483533

  /** It happens: with these sizes two stores reach a page that the third one grows, and
      the first item then reads back as a zero. */
  lemma WrappedGrowthHappens(pad: seq<Byte>, a: Entry, b: Entry, junk: seq<Byte>)
    requires |a.data| == |b.data| == 1 && |a.name| <= MAX_NAME && |b.name| <= MAX_NAME
    ensures var p := Run(2, WRAPPING_SIZE, pad, [a, b]);
            && Laid(p, [a, b]) && Grows(p) && p.firstFree + BlockSize(2) < WORD && ZeroAt(p) == DataAt(2, [a, b], 0)
            && (ReadsBack(Grown(p, junk).file, 2, [a, b], 0) <==> a.data[0] == 0)
  {
    hide Laid, Created, Placed, Grown, ReadsBack;
    var log := [a, b];
    assert log[..0] == [] && log[..1] == [a] && [a][..0] == [];
    assert 0 % 2 == 0 && 1 % 2 == 1;
    CreatedCounts(2, WRAPPING_SIZE, pad);
    PlacedCounts(Run(2, WRAPPING_SIZE, pad, []), a);
    assert RoomyRun(2, WRAPPING_SIZE, pad, log) by { TwoRoomy(pad, a, b); }
    RunIsLaid(2, WRAPPING_SIZE, pad, log);
    var p := Run(2, WRAPPING_SIZE, pad, log);
    TwoItems(p, a, b);
    GrowthAndItem(p, log, junk, 0);
  }

  lemma CreatedCounts(alloc: nat, size: nat, pad: seq<Byte>)
    ensures var p := Created(alloc, size, pad);
            && p.elements == 0 && p.firstFree == Word(HEADER + BlockSize(alloc)) && p.lastIndex == HEADER
            && p.grow == alloc && p.itemSize == size && !p.full
  {}

  lemma PlacedCounts(p: Page, e: Entry)
    requires p.grow >= 1
    ensures var q := Placed(p, e);
            && q.elements == (p.elements + 1) % 65536 && q.firstFree == Word(p.firstFree + |e.data|)
            && q.lastIndex == p.lastIndex && q.grow == p.grow && q.itemSize == p.itemSize
            && (!p.full ==> !q.full)
  {}

  lemma TwoRoomy(pad: seq<Byte>, a: Entry, b: Entry)
    requires |a.data| == |b.data| == 1 && |a.name| <= MAX_NAME && |b.name| <= MAX_NAME
    ensures RoomyRun(2, WRAPPING_SIZE, pad, [a, b])
  {
    hide Created, Placed;
    var log := [a, b];
    assert log[..0] == [] && log[..1] == [a] && [a][..0] == [];
    assert 0 % 2 == 0 && 1 % 2 == 1;
    CreatedCounts(2, WRAPPING_SIZE, pad);
    PlacedCounts(Run(2, WRAPPING_SIZE, pad, []), a);
    forall i | 0 <= i < 2
      ensures |log[i].name| <= MAX_NAME && Roomy(Run(2, WRAPPING_SIZE, pad, log[..i]), log[i].data)
    {
      assert i == 0 || i == 1;
    }
  }

  lemma TwoItems(p: Page, a: Entry, b: Entry)
    requires Laid(p, [a, b]) && p.grow == 2 && p.itemSize == WRAPPING_SIZE && |a.data| == |b.data| == 1
    ensures Grows(p) && p.firstFree == 130 && DataAt(2, [a, b], 0) == 128 == ZeroAt(p)
  {
    hide Contents, OnDisk, HeaderOnDisk;
    var log := [a, b];
    assert log[..0] == [] && log[..1] == [a] && [a][..0] == [];
    assert 0 % 2 == 0 && 1 % 2 == 1 && 2 % 2 == 0 && First(2, 1) == 0;
    assert Free(2, []) == 128 && Free(2, [a]) == 129 && Free(2, log) == 130;
    assert LastBlock(2, log) == HEADER;
  }

  // ---------- the data wraps ----------

  /** Two regions of the file hold the same where they overlap. */
  predicate Agrees(at: nat, item: seq<Byte>, from: nat, data: seq<Byte>) {
    forall k :: 0 <= k < |item| && from <= at + k < from + |data| ==> item[k] == data[at + k - from]
  }

  lemma WrittenByte(f: seq<Byte>, pos: nat, b: seq<Byte>, z: nat)
    requires z < |f|
    ensures z < |Written(f, pos, b)|
    ensures Written(f, pos, b)[z] == if pos <= z < pos + |b| then b[z - pos] else f[z]
  {
    if pos <= z < pos + |b| {
      WrittenHolds(f, pos, b);
      assert Written(f, pos, b)[pos..pos + |b|][z - pos] == Written(f, pos, b)[z];
    } else {
      WrittenElsewhere(f, pos, b, z);
    }
  }

  lemma ReadIs(f: seq<Byte>, at: nat, item: seq<Byte>)
    requires at + |item| <= |f|
    ensures Read(f, at, |item|) == item <==> forall k :: 0 <= k < |item| ==> f[at + k] == item[k]
  {
    var r := Read(f, at, |item|);
    assert forall k :: 0 <= k < |item| ==> r[k] == f[at + k];
  }

  /** An item's region after some bytes were written, and the header. */
  lemma RegionWritten(f: seq<Byte>, at: nat, item: seq<Byte>, from: nat, data: seq<Byte>, header: seq<Byte>)
    requires Holds(f, at, item) && HEADER <= at && |header| == HEADER
    ensures Read(Written(Written(f, from, data), 0, header), at, |item|) == item <==> Agrees(at, item, from, data)
  {
    hide Written;
    var g := Written(f, from, data);
    var h := Written(g, 0, header);
    WriteLengthens(f, from, data);
    WriteLengthens(g, 0, header);
    forall k | 0 <= k < |item|
      ensures h[at + k] == if from <= at + k < from + |data| then data[at + k - from] else item[k]
    {
      WrittenByte(f, from, data, at + k);
      WrittenByte(g, 0, header, at + k);
      assert f[at..at + |item|][k] == f[at + k];
    }
    ReadIs(h, at, item);
  }

  /** The slot of the item to come, on a page whose file follows the layout. */
  lemma SlotToCome(q: Page, log: seq<Entry>)
    requires q.grow >= 2 && log != [] && q.elements == |log| && q.lastIndex == LastBlock(q.grow, log) && !Grows(q)
    ensures SlotAt(q.grow, log, |log|) == q.lastIndex + SlotsSize(q.elements % q.grow)
  {
    hide BlockOf, SlotAt, LastBlock;
    NextSlotAt(q.grow, log);
    NoGap(q.grow, log);
  }

  lemma ItemOnDisk(f: seq<Byte>, g: nat, log: seq<Entry>, i: nat)
    requires g >= 2 && OnDisk(f, g, log) && i < |log|
    ensures Holds(f, DataAt(g, log, i), log[i].data) && HEADER <= DataAt(g, log, i)
  {
    hide Free, SlotAt, SlotBytes, NextAt, BlockOf, Le32, DataAt, Holds;
    DataBounds(g, log, i);
  }

  /** What a further item does to one that is there, wherever the first free offset is. */
  lemma PlacedAndItem(q: Page, log: seq<Entry>, next: Entry, i: nat)
    requires q.grow >= 2 && q.elements == |log| && q.lastIndex == LastBlock(q.grow, log) && !Grows(q)
    requires OnDisk(q.file, q.grow, log) && i < |log|
    ensures ReadsBack(Placed(q, next).file, q.grow, log, i)
       <==> Agrees(DataAt(q.grow, log, i), log[i].data, q.firstFree, next.data)
  {
    hide Written, OnDisk, SlotBytes, HeaderBytes, SlotAt, DataAt, LastBlock, Agrees, Holds;
    var g, slot := q.grow, SlotBytes(next, q.firstFree);
    SlotToCome(q, log);
    var f1 := Written(q.file, SlotAt(g, log, |log|), slot);
    SlotWritten(q.file, g, log, slot);
    ItemOnDisk(f1, g, log, i);
    HeaderForgetsFile(q, next, Written(f1, q.firstFree, next.data));
    RegionWritten(f1, DataAt(g, log, i), log[i].data, q.firstFree, next.data, HeaderBytes(Placed(q, next), next.junk));
  }

  /** The page after a store, as far as it concerns what was stored: the next free offset
      may have wrapped. */
  lemma StoredOnDisk(p: Page, log: seq<Entry>, e: Entry)
    requires Ready(p, log) && |log| + 1 < 65536
    ensures var q, more := Placed(p, e), log + [e];
            && q.grow == p.grow >= 2 && q.elements == |more| && q.lastIndex == LastBlock(p.grow, more)
            && q.firstFree == Word(Free(p.grow, more)) && !q.full && OnDisk(q.file, p.grow, more)
            && Free(p.grow, more) == p.firstFree + |e.data|
            && DataAt(p.grow, more, |log|) == p.firstFree
  {
    hide Placed, OnDisk, Free, DataAt, BlockOf, LastBlock, NextAt, Le32, Contents, Holds, Word;
    PlacedOnDisk(p, log, e);
    PlacedCounts(p, e);
    ExtendedEnd(p.grow, log, e);
    Extended(p.grow, log, e, |log|);
    SmallCount(|log|);
  }

  lemma SmallCount(n: nat)
    requires n + 1 < 65536
    ensures (n + 1) % 65536 == n + 1
  {}

  /** A store that may grow the page, as far as its growth is in order. */
  predicate GrowthInOrder(p: Page)
    requires p.grow >= 1
  {
    Grows(p) ==> p.firstFree + BlockSize(p.grow) < WORD && GrowthSpares(p)
  }

  /** Where a store puts its data. */
  function DataOffset(p: Page): nat
    requires p.grow >= 1
  {
    p.firstFree + if Grows(p) then BlockSize(p.grow) else 0
  }

  lemma StoredInOrder(p: Page, log: seq<Entry>, e: Entry)
    requires Laid(p, log) && |log| + 1 < 65536 && |e.name| <= MAX_NAME && GrowthInOrder(p)
    ensures var q, more := Stored(p, e), log + [e];
            && q.grow == p.grow >= 2 && q.elements == |more| && q.lastIndex == LastBlock(p.grow, more)
            && q.firstFree == Word(Free(p.grow, more)) && !q.full && OnDisk(q.file, p.grow, more)
            && Free(p.grow, more) == DataOffset(p) + |e.data|
            && DataAt(p.grow, more, |log|) == DataOffset(p) < WORD
  {
    hide Placed, Grown, Ready, OnDisk, Free, DataAt, LastBlock, Contents, HeaderOnDisk, Word, ZeroAt;
    if Grows(p) {
      GrowMakesReady(p, log, e.junk);
      StoredOnDisk(Grown(p, e.junk), log, e);
    } else {
      NoGrowthIsReady(p, log);
      StoredOnDisk(p, log, e);
    }
  }

  /** No page ever counts as full, so the first free offset itself wraps once data passes
      2^32, and the next store starts there: an item survives it exactly if the new data
      agrees with it where they overlap. */
  lemma DataWrapsIntoItem(p: Page, log: seq<Entry>, e: Entry, next: Entry, i: nat)
    requires Laid(p, log) && |log| + 1 < 65536 && |e.name| <= MAX_NAME && GrowthInOrder(p)
    requires !Grows(Stored(p, e)) && |next.name| <= MAX_NAME && i <= |log|
    ensures var q, more := Stored(p, e), log + [e];
            && p.grow >= 2 && !q.full && q.firstFree == Word(DataOffset(p) + |e.data|)
            && (ReadsBack(Stored(q, next).file, p.grow, more, i)
                <==> Agrees(DataAt(p.grow, more, i), more[i].data, q.firstFree, next.data))
  {
    hide Laid, OnDisk, Free, DataAt, LastBlock, Word, GrowthInOrder, DataOffset, Placed, Grown, ReadsBack, Agrees,
         Grows;
    StoredInOrder(p, log, e);
    var q := Stored(p, e);
    PlacedAndItem(q, log + [e], next, i);
    StoredAsPlaced(q, next);
  }

  lemma StoredAsPlaced(q: Page, next: Entry)
    requires q.grow >= 1 && !Grows(q) && |next.name| <= MAX_NAME
    ensures Stored(q, next) == Placed(q, next)
  {}

  /** Bytes that reach from the wrapped offset to the end of the item and differ in the last. */
  function Spoiler(from: nat, to: nat, last: Byte): (data: seq<Byte>)
    requires from < to
    ensures |data| == to - from && data[|data| - 1] != last
  {
    Repeated<Byte>(if last == 0 then 1 else 0, to - from)
  }

  lemma SpoilerDiffers(at: nat, item: seq<Byte>, from: nat)
    requires item != [] && from < at + |item|
    ensures !Agrees(at, item, from, Spoiler(from, at + |item|, item[|item| - 1]))
  {
    hide Spoiler;
    var to := at + |item|;
    var data := Spoiler(from, to, item[|item| - 1]);
    assert item[|item| - 1] != data[at + (|item| - 1) - from];
  }

  /** Every item stays readable through any next store that does not grow the page exactly
      when the end of the last item does not pass 32 bits, which is what the test for a full
      page was to keep. */
  lemma NextStoreSparesIff(p: Page, log: seq<Entry>, e: Entry)
    requires Laid(p, log) && |log| + 1 < 65536 && |e.name| <= MAX_NAME && GrowthInOrder(p)
    requires !Grows(Stored(p, e))
    ensures p.grow >= 2
    ensures (forall next: Entry :: |next.name| <= MAX_NAME ==>
               AllReadBack(Stored(Stored(p, e), next).file, p.grow, log + [e]))
       <==> DataOffset(p) + |e.data| < WORD
  {
    hide Laid, OnDisk, Free, DataAt, LastBlock, GrowthInOrder, DataOffset, Stored, ReadsBack, Agrees,
         Grows, Word, Spoiler;
    StoredInOrder(p, log, e);
    var g, more, end := p.grow, log + [e], DataOffset(p) + |e.data|;
    WordOf(end);
    if end < WORD {
      forall next: Entry, i | |next.name| <= MAX_NAME && 0 <= i < |more|
        ensures ReadsBack(Stored(Stored(p, e), next).file, g, more, i)
      {
        DataWrapsIntoItem(p, log, e, next, i);
        DataBounds(g, more, i);
        ApartAgrees(DataAt(g, more, i), more[i].data, end, next.data);
      }
    } else {
      var from := Word(end);
      var next := Entry([], Spoiler(from, end, e.data[|e.data| - 1]), []);
      DataWrapsIntoItem(p, log, e, next, |log|);
      SpoilerDiffers(DataOffset(p), e.data, from);
      assert !ReadsBack(Stored(Stored(p, e), next).file, g, more, |log|);
    }
  }

  lemma WordOf(n: nat)
    ensures Word(n) <= n && (n < WORD ==> Word(n) == n) && (n >= WORD ==> Word(n) < n)
  {}

  lemma ApartAgrees(at: nat, item: seq<Byte>, from: nat, data: seq<Byte>)
    requires at + |item| <= from
    ensures Agrees(at, item, from, data)
  {}

  /** It happens to a page with the default sizes: after an item of one byte and one of
      2^32 - 1, a third one overwrites the first. */
  lemma WrappedDataHappens(pad: seq<Byte>, a: Entry, e: Entry, next: Entry)
    requires |a.data| == 1 && |e.data| == WORD - 1 && next.data != []
    requires |a.name| <= MAX_NAME && |e.name| <= MAX_NAME && |next.name| <= MAX_NAME
    ensures var p := Run(DEFAULT_PAGE_ALLOC, ITEM_SIZE, pad, [a]);
            && Laid(p, [a]) && !Stored(p, e).full
            && (ReadsBack(Stored(Stored(p, e), next).file, DEFAULT_PAGE_ALLOC, [a] + [e], 0)
                <==> next.data[0] == a.data[0])
  {
    hide Laid, Created, Placed, Grown, Read;
    var g, p := DEFAULT_PAGE_ALLOC, Run(DEFAULT_PAGE_ALLOC, ITEM_SIZE, pad, [a]);
    assert [a][..0] == [];
    CreatedCounts(g, ITEM_SIZE, pad);
    RunIsLaid(g, ITEM_SIZE, pad, [a]);
    PlacedCounts(Run(g, ITEM_SIZE, pad, []), a);
    FirstItemAt(g, [a] + [e]);
    PlacedCounts(p, e);
    DataWrapsIntoItem(p, [a], e, next, 0);
  }

  lemma FirstItemAt(g: nat, log: seq<Entry>)
    requires g >= 2 && log != []
    ensures DataAt(g, log, 0) == HEADER + BlockSize(g)
  {
    assert log[..0] == [] && 0 % g == 0;
  }

  // ---------- one slot to a block ----------

  /** The index blocks of a page with one slot to a block, oldest first: each is followed by
      the pointer to the next, the last one by the mark for none. */
  ghost predicate Chained(p: Page, blocks: seq<nat>) {
    && p.grow == 1 && blocks != [] && blocks[0] == HEADER && p.lastIndex == blocks[|blocks| - 1]
    && !p.full && p.firstFree < WORD && p.itemSize < WORD
    && InRow(blocks, p.firstFree)
    && Linked(p.file, blocks)
  }

  ghost predicate Linked(f: seq<Byte>, blocks: seq<nat>) {
    forall j :: 0 <= j < |blocks| ==> Holds(f, blocks[j] + SLOT, Le32(NextBlock(blocks, j)))
  }

  /** A block is added: the pointers up to the last one stay, the last one is set to it. */
  lemma LinkedGrows(g: seq<Byte>, blocks: seq<nat>, block: nat)
    requires blocks != []
    requires forall j :: 0 <= j < |blocks| - 1 ==> Holds(g, blocks[j] + SLOT, Le32(NextBlock(blocks, j)))
    requires Holds(g, blocks[|blocks| - 1] + SLOT, Le32(block)) && Holds(g, block + SLOT, Le32(INDEX_NEXT_EMPTY))
    ensures Linked(g, blocks + [block])
  {
    hide Holds, Le32;
    var more := blocks + [block];
    forall j | 0 <= j < |more| ensures Holds(g, more[j] + SLOT, Le32(NextBlock(more, j))) {
      if j < |blocks| - 1 {
        assert more[j] == blocks[j] && NextBlock(more, j) == NextBlock(blocks, j);
      }
    }
  }

  /** The blocks lie behind the header and below an offset, one after the other. */
  ghost predicate InRow(blocks: seq<nat>, end: nat) {
    && (forall j :: 0 <= j < |blocks| ==> HEADER <= blocks[j] && blocks[j] + SLOT + NEXT <= end)
    && (forall i, j :: 0 <= i < j < |blocks| ==> blocks[i] + SLOT + NEXT <= blocks[j])
  }

  lemma RowGrows(blocks: seq<nat>, end: nat)
    requires InRow(blocks, end) && HEADER <= end
    ensures InRow(blocks + [end], end + SLOT + NEXT)
  {}

  lemma RowBelow(blocks: seq<nat>, end: nat, later: nat)
    requires InRow(blocks, end) && end <= later
    ensures InRow(blocks, later)
  {}

  lemma InRowAt(blocks: seq<nat>, end: nat, j: nat)
    requires InRow(blocks, end) && j < |blocks|
    ensures HEADER <= blocks[j] && blocks[j] + SLOT + NEXT <= end
    ensures j + 1 < |blocks| ==> blocks[j] + SLOT + NEXT <= blocks[|blocks| - 1]
  {}

  function NextBlock(blocks: seq<nat>, j: nat): nat {
    if j + 1 < |blocks| then blocks[j + 1] else INDEX_NEXT_EMPTY
  }

  lemma OneSlotOnly(n: nat)
    ensures n % 1 == 0
  {}

  lemma PlacedKeepsPointer(p: Page, e: Entry, at: nat, b: seq<Byte>)
    requires p.grow == 1 && HEADER <= at && at + |b| <= p.firstFree
    requires at + |b| <= p.lastIndex || p.lastIndex + SLOT <= at
    requires Holds(p.file, at, b)
    ensures Holds(Placed(p, e).file, at, b)
  {
    hide Written, HeaderBytes, SlotBytes, Holds;
    OneSlotOnly(p.elements);
    var slot := SlotBytes(e, p.firstFree);
    var f1 := Written(p.file, p.lastIndex, slot);
    var f2 := Written(f1, p.firstFree, e.data);
    WrittenKeeps(p.file, p.lastIndex, slot, at, b);
    WrittenKeeps(f1, p.firstFree, e.data, at, b);
    HeaderForgetsFile(p, e, f2);
    WrittenKeeps(f2, 0, HeaderBytes(Placed(p, e), e.junk), at, b);
  }

  lemma PlacedKeepsHeader(p: Page, e: Entry)
    requires p.grow >= 1
    ensures HeaderOnDisk(Placed(p, e))
  {
    hide Written, HeaderBytes, SlotBytes, HeaderOnDisk;
    var slot := SlotBytes(e, p.firstFree);
    var f2 := Written(Written(p.file, p.lastIndex + SlotsSize(p.elements % p.grow), slot), p.firstFree, e.data);
    HeaderForgetsFile(p, e, f2);
    HeaderWritten(Placed(p, e), f2, e.junk);
  }

  lemma PlacedKeepsChain(p: Page, blocks: seq<nat>, e: Entry)
    requires Chained(p, blocks) && p.firstFree + |e.data| < WORD
    ensures Chained(Placed(p, e), blocks) && HeaderOnDisk(Placed(p, e))
  {
    hide Placed, Holds, Le32, HeaderOnDisk, NextBlock, InRow, Word;
    RowBelow(blocks, p.firstFree, p.firstFree + |e.data|);
    PlacedCounts(p, e);
    PlacedKeepsHeader(p, e);
    forall j | 0 <= j < |blocks|
      ensures Holds(Placed(p, e).file, blocks[j] + SLOT, Le32(NextBlock(blocks, j)))
    {
      InRowAt(blocks, p.firstFree, j);
      PlacedKeepsPointer(p, e, blocks[j] + SLOT, Le32(NextBlock(blocks, j)));
    }
  }

  /** Growth that lands its last byte behind the new block. */
  predicate Clear(p: Page)
    requires p.grow >= 1
  {
    Grows(p) ==> p.firstFree + BlockSize(p.grow) < WORD && p.firstFree + BlockSize(p.grow) <= ZeroAt(p)
  }

  /** The file that growth leaves, but for the header. */
  function GrownFile(p: Page): seq<Byte> {
    var f1 := Written(p.file, Word(p.firstFree + SlotsSize(p.grow)), Le32(INDEX_NEXT_EMPTY));
    Written(Written(f1, p.lastIndex + SlotsSize(p.grow), Le32(p.firstFree)), ZeroAt(p), [0])
  }

  lemma GrownPage(p: Page, pad: seq<Byte>)
    requires p.firstFree + BlockSize(p.grow) < WORD
    ensures var q := Grown(p, pad);
            && q.file == Written(GrownFile(p), 0, HeaderBytes(q, pad)) && q.firstFree == p.firstFree + BlockSize(p.grow)
            && q.lastIndex == p.firstFree && q.grow == p.grow && q.itemSize == p.itemSize && q.full == p.full
            && q.elements == p.elements
  {
    hide Written, Le32, ZeroAt, HeaderBytes;
    var before := p.(file := GrownFile(p), firstFree := p.firstFree + BlockSize(p.grow), lastIndex := p.firstFree);
    HeaderIgnoresFile(before, Grown(p, pad), pad);
  }

  lemma GrowthKeepsPointer(p: Page, pad: seq<Byte>, at: nat, b: seq<Byte>)
    requires p.grow == 1 && p.firstFree + BlockSize(1) < WORD && p.firstFree + BlockSize(1) <= ZeroAt(p)
    requires HEADER <= at && at + |b| <= p.lastIndex + SLOT && p.lastIndex + SLOT + NEXT <= p.firstFree
    requires Holds(p.file, at, b)
    ensures Holds(Grown(p, pad).file, at, b)
  {
    hide Written, HeaderBytes, Holds, Grown, ZeroAt;
    GrownPage(p, pad);
    var f1 := Written(p.file, p.firstFree + SLOT, Le32(INDEX_NEXT_EMPTY));
    var f2 := Written(f1, p.lastIndex + SLOT, Le32(p.firstFree));
    WrittenKeeps(p.file, p.firstFree + SLOT, Le32(INDEX_NEXT_EMPTY), at, b);
    WrittenKeeps(f1, p.lastIndex + SLOT, Le32(p.firstFree), at, b);
    WrittenKeeps(f2, ZeroAt(p), [0], at, b);
    WrittenKeeps(GrownFile(p), 0, HeaderBytes(Grown(p, pad), pad), at, b);
  }

  lemma GrowthPointers(p: Page, pad: seq<Byte>)
    requires p.grow == 1 && p.firstFree + BlockSize(1) < WORD && p.firstFree + BlockSize(1) <= ZeroAt(p)
    requires HEADER <= p.lastIndex && p.lastIndex + SLOT + NEXT <= p.firstFree
    ensures Holds(Grown(p, pad).file, p.lastIndex + SLOT, Le32(p.firstFree))
    ensures Holds(Grown(p, pad).file, p.firstFree + SLOT, Le32(INDEX_NEXT_EMPTY))
  {
    hide Written, HeaderBytes, Holds, Grown, ZeroAt, Le32;
    GrownPage(p, pad);
    var last, mark, next := Le32(p.firstFree), Le32(INDEX_NEXT_EMPTY), p.firstFree + SLOT;
    var f1 := Written(p.file, next, mark);
    var f2 := Written(f1, p.lastIndex + SLOT, last);
    var header := HeaderBytes(Grown(p, pad), pad);
    WrittenHolds(p.file, next, mark);
    WrittenKeeps(f1, p.lastIndex + SLOT, last, next, mark);
    WrittenHolds(f1, p.lastIndex + SLOT, last);
    WrittenKeeps(f2, ZeroAt(p), [0], next, mark);
    WrittenKeeps(f2, ZeroAt(p), [0], p.lastIndex + SLOT, last);
    WrittenKeeps(GrownFile(p), 0, header, next, mark);
    WrittenKeeps(GrownFile(p), 0, header, p.lastIndex + SLOT, last);
  }

  lemma GrowthLengthensChain(p: Page, blocks: seq<nat>, pad: seq<Byte>)
    requires Chained(p, blocks) && Grows(p) && Clear(p)
    ensures Chained(Grown(p, pad), blocks + [p.firstFree])
  {
    hide Holds, Grown, ZeroAt, Le32, InRow, NextBlock;
    var n, q := |blocks|, Grown(p, pad);
    InRowAt(blocks, p.firstFree, n - 1);
    GrownPage(p, pad);
    GrowthPointers(p, pad);
    RowGrows(blocks, p.firstFree);
    forall j | 0 <= j < n - 1 ensures Holds(q.file, blocks[j] + SLOT, Le32(NextBlock(blocks, j))) {
      InRowAt(blocks, p.firstFree, j);
      GrowthKeepsPointer(p, pad, blocks[j] + SLOT, Le32(NextBlock(blocks, j)));
    }
    hide Linked;
    LinkedGrows(q.file, blocks, p.firstFree);
  }

  lemma CreatedChain(size: nat, pad: seq<Byte>)
    requires size < WORD
    ensures Chained(Created(1, size, pad), [HEADER])
  {
    hide Written, HeaderBytes, Le32, Holds;
    var p0 := Page([], 0, HEADER + BlockSize(1), 1, HEADER, size, map[], false);
    var f1 := Written([], 0, HeaderBytes(p0, pad));
    var f2 := Written(f1, HEADER + SLOT, Le32(INDEX_NEXT_EMPTY));
    WrittenHolds(f1, HEADER + SLOT, Le32(INDEX_NEXT_EMPTY));
    WrittenKeeps(f2, |f2| + Word(size), [0], HEADER + SLOT, Le32(INDEX_NEXT_EMPTY));
  }

  /** Every store of the run has an acceptable name and clear room. */
  ghost predicate ClearRun(size: nat, pad: seq<Byte>, log: seq<Entry>) {
    log != [] ==>
      var before, e := log[..|log| - 1], log[|log| - 1];
      var p := Run(1, size, pad, before);
      && ClearRun(size, pad, before) && |log| < 65536 && |e.name| <= MAX_NAME && Clear(p)
      && p.firstFree + (if Grows(p) then BlockSize(1) else 0) + |e.data| < WORD
  }

  /** A store keeps the chain, with one block more if it grows the page. */
  lemma StoreKeepsChain(p: Page, blocks: seq<nat>, e: Entry) returns (more: seq<nat>)
    requires Chained(p, blocks) && p.elements + 1 < 65536 && |e.name| <= MAX_NAME && Clear(p)
    requires p.firstFree + (if Grows(p) then BlockSize(1) else 0) + |e.data| < WORD
    ensures Chained(Stored(p, e), more) && HeaderOnDisk(Stored(p, e)) && Stored(p, e).elements == p.elements + 1
    ensures |more| == |blocks| + if p.elements > 1 then 1 else 0
  {
    ChainGrow(p, blocks);
    hide Chained, Placed, Grown, HeaderOnDisk, Grows, Clear, Word;
    if Grows(p) {
      more := GrowKeepsChain(p, blocks, e.junk);
      PlaceKeepsChain(Grown(p, e.junk), more, e);
    } else {
      more := blocks;
      PlaceKeepsChain(p, blocks, e);
    }
  }

  lemma GrowKeepsChain(p: Page, blocks: seq<nat>, junk: seq<Byte>) returns (more: seq<nat>)
    requires Chained(p, blocks) && Grows(p) && Clear(p)
    ensures Chained(Grown(p, junk), more) && |more| == |blocks| + 1
    ensures Grown(p, junk).elements == p.elements && Grown(p, junk).firstFree == p.firstFree + BlockSize(1)
  {
    ChainGrow(p, blocks);
    hide Chained, Grown, ZeroAt, Word;
    GrowthLengthensChain(p, blocks, junk);
    GrownPage(p, junk);
    more := blocks + [p.firstFree];
  }

  lemma PlaceKeepsChain(p: Page, blocks: seq<nat>, e: Entry)
    requires Chained(p, blocks) && p.elements + 1 < 65536 && p.firstFree + |e.data| < WORD
    ensures p.grow == 1 && Chained(Placed(p, e), blocks) && HeaderOnDisk(Placed(p, e))
    ensures Placed(p, e).elements == p.elements + 1
  {
    hide Chained, Placed, HeaderOnDisk, Word, Grows;
    ChainGrow(p, blocks);
    PlacedCounts(p, e);
    PlacedKeepsChain(p, blocks, e);
  }

  lemma ChainGrow(p: Page, blocks: seq<nat>)
    requires Chained(p, blocks)
    ensures p.grow == 1 && (Grows(p) <==> p.elements > 1)
  {
    OneSlotOnly(p.elements);
  }

  lemma RunStep(size: nat, pad: seq<Byte>, log: seq<Entry>)
    requires log != []
    ensures Run(1, size, pad, log) == Stored(Run(1, size, pad, log[..|log| - 1]), log[|log| - 1])
  {
    hide Stored, Created;
  }

  /** A run of n stores, n at least two, fills n - 1 blocks: the second item goes into the
      first one's slot, because the growth test lets a count of one pass. */
  lemma {:induction false} OneSlotRun(size: nat, pad: seq<Byte>, log: seq<Entry>) returns (blocks: seq<nat>)
    requires size < WORD && ClearRun(size, pad, log)
    ensures Chained(Run(1, size, pad, log), blocks)
    ensures Run(1, size, pad, log).elements == |log| && (log != [] ==> HeaderOnDisk(Run(1, size, pad, log)))
    ensures |blocks| == if |log| < 2 then 1 else |log| - 1
    decreases |log|
  {
    if log == [] {
      hide Chained, Created;
      CreatedChain(size, pad);
      CreatedCounts(1, size, pad);
      blocks := [HEADER];
    } else {
      hide Chained, Stored, Run, HeaderOnDisk, Clear;
      var before, e := log[..|log| - 1], log[|log| - 1];
      blocks := OneSlotRun(size, pad, before);
      RunStep(size, pad, log);
      blocks := StoreKeepsChain(Run(1, size, pad, before), blocks, e);
    }
  }

  /** Opening goes from block to block with every slot. */
  lemma {:induction false} SlotsWalkChain(p: Page, blocks: seq<nat>, n: nat, junk: nat -> seq<Byte>)
    requires Chained(p, blocks) && 1 <= n <= |blocks| + 1
    ensures var c := Slots(p.file, 1, n, junk);
            && c.last == (if n <= |blocks| then blocks[n - 1] else INDEX_NEXT_EMPTY)
            && (n <= |blocks| ==> c.pos == c.last + SLOT)
    decreases n
  {
    hide Chained, SlotStep, Holds, Le32, Advanced;
    ChainStarts(p, blocks);
    if n <= |blocks| {
      ChainAt(p, blocks, n - 1);
    }
    if n == 1 {
      FirstStep(p.file, junk(0));
      assert Slots(p.file, 1, 0, junk) == Cursor(Advanced(p.file, 0, HEADER), HEADER, map[]);
    } else {
      SlotsWalkChain(p, blocks, n - 1, junk);
      ChainAt(p, blocks, n - 2);
      ChainStep(p.file, Slots(p.file, 1, n - 1, junk), NextBlock(blocks, n - 2), junk(n - 1));
    }
  }

  lemma ChainStarts(p: Page, blocks: seq<nat>)
    requires Chained(p, blocks)
    ensures blocks != []
  {}

  /** A block and the pointer behind it are in the file. */
  lemma ChainAt(p: Page, blocks: seq<nat>, j: nat)
    requires Chained(p, blocks) && j < |blocks|
    ensures blocks[0] == HEADER && blocks[j] + SLOT < WORD && blocks[j] + SLOT <= |p.file|
    ensures Holds(p.file, blocks[j] + SLOT, Le32(NextBlock(blocks, j))) && NextBlock(blocks, j) < WORD
  {
    hide Le32, InRow;
    InRowAt(blocks, p.firstFree, j);
    if j + 1 < |blocks| { InRowAt(blocks, p.firstFree, j + 1); }
    var pointer := Le32(NextBlock(blocks, j));
    assert Holds(p.file, blocks[j] + SLOT, pointer);
  }

  lemma FirstStep(f: seq<Byte>, junk: seq<Byte>)
    requires HEADER + SLOT <= |f|
    ensures var c := SlotStep(f, 1, Cursor(Advanced(f, 0, HEADER), HEADER, map[]), junk);
            c.last == HEADER && c.pos == HEADER + SLOT
  {
    hide Fetched, SlotRead, SlotMemory, Un32, Le32;
    var at := Cursor(HEADER, HEADER, map[]);
    SlotReadMoves(at.(pos := HEADER + SLOT), Fetched(f, HEADER, SlotMemory(junk)));
  }

  lemma ChainStep(f: seq<Byte>, c: Cursor, next: nat, junk: seq<Byte>)
    requires c.pos == c.last + SLOT < WORD && next < WORD && Holds(f, c.pos, Le32(next))
    ensures SlotStep(f, 1, c, junk).last == next
    ensures next + SLOT <= |f| ==> SlotStep(f, 1, c, junk).pos == next + SLOT
  {
    hide Fetched, SlotRead, SlotMemory, Un32, Le32, Holds;
    PointerRead(f, c.pos, next, Le32(c.last));
    var at := c.(pos := next, last := next);
    SlotReadMoves(at.(pos := Advanced(f, next, SLOT)), Fetched(f, next, SlotMemory(junk)));
  }

  lemma PointerRead(f: seq<Byte>, at: nat, next: nat, memory: seq<Byte>)
    requires Holds(f, at, Le32(next)) && next < WORD && |memory| == NEXT
    ensures Un32(Fetched(f, at, memory)) == next
  {
    hide Holds, Le32, Fetched, Un32;
    HoldsFetched(f, at, Le32(next), memory);
    Le32RoundTrip(next);
  }

  /** Opening a page whose header is in place gives it back but for what the slots say. */
  lemma OpenedBut(p: Page, pad: seq<Byte>, junk: nat -> seq<Byte>)
    requires HeaderOnDisk(p) && !p.full
    requires p.elements < 65536 && p.firstFree < WORD && p.grow < WORD && p.itemSize < WORD
    ensures var c := Slots(p.file, p.grow, p.elements, junk);
            Opened(p.file, pad, junk) == Some(p.(lastIndex := c.last, contents := c.contents))
  {
    hide HeaderBytes, HeaderMemory, Fetched, Un32, Un16, Slots;
    var header :| Holds(p.file, 0, HeaderBytes(p, header));
    HeaderReadsBack(p, header, pad);
  }

  /** With one slot to a block, after any run of at least two stores opening the file runs off
      the chain, to the place the mark for no further block names. A page is created with
      sixteen slots to a block, so such a file has to come from elsewhere. */
  lemma OneSlotBlocksAreLost(size: nat, pad: seq<Byte>, log: seq<Entry>, junk: nat -> seq<Byte>)
    requires size < WORD && ClearRun(size, pad, log) && |log| >= 2
    ensures var p := Run(1, size, pad, log);
            && Opened(p.file, pad, junk).Some? && Opened(p.file, pad, junk).value.lastIndex == INDEX_NEXT_EMPTY
            && Opened(p.file, pad, junk) != Some(p)
  {
    hide Opened, HeaderOnDisk, Run, Slots, Le32;
    var p := Run(1, size, pad, log);
    var blocks := OneSlotRun(size, pad, log);
    LastOfChain(p, blocks);
    ClearCount(size, pad, log);
    OpenedBut(p, pad, junk);
    SlotsWalkChain(p, blocks, |log|, junk);
  }

  lemma ClearCount(size: nat, pad: seq<Byte>, log: seq<Entry>)
    requires ClearRun(size, pad, log)
    ensures |log| < 65536
  {}

  lemma LastOfChain(p: Page, blocks: seq<nat>)
    requires Chained(p, blocks)
    ensures p.lastIndex >= HEADER && p.firstFree < WORD && p.grow == 1 && p.itemSize < WORD
  {}

  lemma CreatedHeader(size: nat, pad: seq<Byte>)
    ensures HeaderOnDisk(Created(1, size, pad))
  {
    hide Written, HeaderBytes, Le32, Holds, HeaderOnDisk;
    var p0 := Page([], 0, HEADER + BlockSize(1), 1, HEADER, size, map[], false);
    var header := HeaderBytes(p0, pad);
    var f1 := Written([], 0, header);
    var f2 := Written(f1, HEADER + SLOT, Le32(INDEX_NEXT_EMPTY));
    WrittenHolds([], 0, header);
    WrittenKeeps(f1, HEADER + SLOT, Le32(INDEX_NEXT_EMPTY), 0, header);
    WriteLengthens(f1, HEADER + SLOT, Le32(INDEX_NEXT_EMPTY));
    WrittenKeeps(f2, |f2| + Word(size), [0], 0, header);
    SameHeader(p0, Created(1, size, pad), pad);
    HeaderHeld(Created(1, size, pad), pad, header);
  }

  /** The only slot of the first block, after one store. */
  lemma FirstSlotOnDisk(p: Page, e: Entry)
    requires p.grow == 1 && p.lastIndex == HEADER && p.firstFree == HEADER + BlockSize(1)
    ensures Holds(Placed(p, e).file, HEADER, SlotBytes(e, p.firstFree))
  {
    hide Written, HeaderBytes, SlotBytes, Holds;
    OneSlotOnly(p.elements);
    var slot := SlotBytes(e, p.firstFree);
    var f1 := Written(p.file, HEADER, slot);
    var f2 := Written(f1, p.firstFree, e.data);
    WrittenHolds(p.file, HEADER, slot);
    WrittenKeeps(f1, p.firstFree, e.data, HEADER, slot);
    HeaderForgetsFile(p, e, f2);
    WrittenKeeps(f2, 0, HeaderBytes(Placed(p, e), e.junk), HEADER, slot);
  }

  /** Opening reads it, and no pointer. */
  lemma FirstSlotRead(f: seq<Byte>, e: Entry, at: nat, junk: nat -> seq<Byte>)
    requires Holds(f, HEADER, SlotBytes(e, at)) && at < WORD && |e.data| < WORD
    ensures var c := Slots(f, 1, 1, junk);
            c.last == HEADER && c.contents == map[NameField(e.name, e.junk) := Place(at, |e.data|)]
  {
    hide Fetched, SlotRead, SlotMemory, Un32, Le32, SlotBytes, NameField;
    HoldsFetched(f, HEADER, SlotBytes(e, at), SlotMemory(junk(0)));
    var start := Cursor(HEADER, HEADER, map[]);
    assert Slots(f, 1, 0, junk) == start;
    assert Slots(f, 1, 1, junk) == SlotStep(f, 1, start, junk(0));
    SlotReadsBack(start.(pos := HEADER + SLOT), e, at);
  }

  lemma SameKey(name: seq<Byte>, junk: seq<Byte>, place: Place)
    requires NulFree(name)
    ensures map[NameField(name, junk) := place] == map[name := place] <==> |name| == NAME
  {
    NameKept(name, junk);
    assert name in map[name := place];
  }

  /** One store into a created page with one slot to a block. */
  lemma OneStored(size: nat, pad: seq<Byte>, e: Entry)
    requires size < WORD && |e.name| <= MAX_NAME && HEADER + BlockSize(1) + |e.data| < WORD
    ensures var c := Created(1, size, pad); var p := Run(1, size, pad, [e]);
            && p == Placed(c, e) && c.firstFree == HEADER + BlockSize(1) && c.lastIndex == HEADER
            && p.contents == map[e.name := Place(c.firstFree, |e.data|)] && p.lastIndex == HEADER
            && p.elements == 1 && p.itemSize == size && !p.full && p.firstFree < WORD
  {
    hide Written, HeaderBytes, SlotBytes;
    assert [e][..0] == [];
    CreatedCounts(1, size, pad);
    PlacedCounts(Created(1, size, pad), e);
  }

  /** With one slot to a block, a page comes back from closing and opening if and only if it
      has at most one item, under a name of 36 bytes. */
  lemma OneSlotReopensIff(size: nat, pad: seq<Byte>, log: seq<Entry>, junk: nat -> seq<Byte>)
    requires size < WORD && ClearRun(size, pad, log)
    requires forall i :: 0 <= i < |log| ==> NulFree(log[i].name)
    ensures var p := Run(1, size, pad, log);
            Opened(p.file, pad, junk) == Some(p) <==> |log| < 2 && forall i :: 0 <= i < |log| ==> |log[i].name| == NAME
  {
    hide Opened, Created, Placed, HeaderOnDisk, SlotBytes, NameField;
    var p := Run(1, size, pad, log);
    if log == [] {
      CreatedCounts(1, size, pad);
      CreatedHeader(size, pad);
      CreatedMap(size, pad);
      OpenedBut(p, pad, junk);
    } else if |log| == 1 {
      var e := log[0];
      assert log == [e] && log[..0] == [];
      CreatedCounts(1, size, pad);
      OneStored(size, pad, e);
      PlacedKeepsHeader(Created(1, size, pad), e);
      OpenedBut(p, pad, junk);
      FirstSlotOnDisk(Created(1, size, pad), e);
      FirstSlotRead(p.file, e, HEADER + BlockSize(1), junk);
      SameKey(e.name, e.junk, Place(HEADER + BlockSize(1), |e.data|));
    } else {
      OneSlotBlocksAreLost(size, pad, log, junk);
    }
  }

  lemma CreatedMap(size: nat, pad: seq<Byte>)
    ensures Created(1, size, pad).contents == map[]
  {}
}
