/** The pages of large values of cynder/filebase.h. */
module Filebase {
  import opened Bytes
  import opened Options
  import opened Disk
  import opened PageLayout
  import opened Pages = Filepage

  /** A file that a page was closed into after storing some items. */
  ghost predicate ClosedFile(f: seq<Byte>, log: seq<Entry>) {
    && (exists p: Page :: p.file == f && p.itemSize < WORD && Laid(p, log))
    && (forall i :: 0 <= i < |log| ==> NulFree(log[i].name) && |log[i].name| == NAME)
  }

  lemma ClosedFileOpens(f: seq<Byte>, log: seq<Entry>, pad: seq<Byte>, junk: nat -> seq<Byte>)
    requires ClosedFile(f, log)
    ensures Opened(f, pad, junk).Some? && Laid(Opened(f, pad, junk).value, log)
  {
    hide Opened, Laid;
    var p: Page :| p.file == f && p.itemSize < WORD && Laid(p, log);
    OpenFinds(p, log, pad, junk);
    LaidContents(p, log);
    NamesKept(p.grow, log);
  }

  lemma LaidContents(p: Page, log: seq<Entry>)
    requires Laid(p, log)
    ensures p.grow >= 2 && p.contents == Contents(p.grow, log) && !p.full
  {}

  // ---------- page numbers ----------

  /** A page's number is read back from its file's name, of which it is the first four
      digits; the file's own number is printed with at least four. */
  function PageNumber(file: nat): (num: nat)
    ensures num < MAX_PAGES && num <= file
    ensures file < MAX_PAGES ==> num == file
    ensures file >= MAX_PAGES ==> num >= MAX_PAGES / 10
  {
    if file < MAX_PAGES then file else PageNumber(file / 10)
  }

  const MAX_PAGES: int := 10000

  /** The last of the first `cnt` files whose name reads back as the number. */
  function FileOf(num: nat, cnt: nat): (file: nat)
    requires num < cnt && num < MAX_PAGES
    ensures file < cnt && PageNumber(file) == num
    ensures forall later :: file < later < cnt ==> PageNumber(later) != num
  {
    if PageNumber(cnt - 1) == num then cnt - 1 else FileOf(num, cnt - 1)
  }

  /** Every page stands for the file of its own number if and only if there are at most
      10000: the next one takes page 1000 away from its file. */
  lemma PagesKeepFilesIff(cnt: nat)
    ensures (forall num: nat :: num < cnt && num < MAX_PAGES ==> FileOf(num, cnt) == num) <==> cnt <= MAX_PAGES
  {
    if cnt > MAX_PAGES {
      assert PageNumber(MAX_PAGES) == MAX_PAGES / 10;
      assert FileOf(MAX_PAGES / 10, cnt) >= MAX_PAGES;
    }
  }

  // ---------- one page in use ----------

  ghost predicate PageUsable(p: Filepage)
    reads p
  {
    p.isOpen && p.Valid() && p.grow >= 1 && !p.pageFull
  }

  ghost predicate PageHolds(p: Filepage, log: seq<Entry>)
    reads p
    ensures PageHolds(p, log) ==> PageUsable(p)
  {
    PageUsable(p) && Laid(p.State(), log)
  }

  /** Roomy for a page in use. */
  predicate RoomFor(p: Page, data: seq<Byte>) {
    p.grow >= 1 && Roomy(p, data)
  }

  /** The items once an entry was offered. */
  function Appended(log: seq<Entry>, e: Entry): seq<Entry> {
    if |e.name| > MAX_NAME then log else log + [e]
  }

  /** A store, whether or not there is room. */
  method StoreOn(page: Filepage, ghost log: seq<Entry>, e: Entry)
    requires PageUsable(page)
    modifies page
    ensures PageUsable(page) && page.State() == Stored(old(page.State()), e)
    ensures old(PageHolds(page, log) && RoomFor(page.State(), e.data)) ==> PageHolds(page, Appended(log, e))
  {
    hide Laid, Roomy, Stored;
    StoredUsable(page.State(), e);
    if PageHolds(page, log) && RoomFor(page.State(), e.data) {
      LaidStored(page.State(), log, e);
    }
    page.StoreItem(e.name, e.data, e.junk);
  }

  lemma StoredUsable(p: Page, e: Entry)
    requires p.grow >= 1 && !p.full
    ensures Stored(p, e).grow == p.grow && !Stored(p, e).full
    ensures |e.name| <= MAX_NAME ==> Stored(p, e).contents.Keys == p.contents.Keys + {e.name}
    ensures |e.name| > MAX_NAME ==> Stored(p, e) == p
  {
    hide Written, Le32, HeaderBytes, ZeroAt, SlotBytes;
  }

  lemma LaidStored(p: Page, log: seq<Entry>, e: Entry)
    requires Laid(p, log) && RoomFor(p, e.data)
    ensures p.grow >= 1 && Laid(Stored(p, e), Appended(log, e))
  {
    hide Laid, Roomy;
    if |e.name| <= MAX_NAME {
      StoreKeepsLayout(p, log, e);
    }
  }

  // ---------- the pages together ----------

  /** What memory holds before a file's header and slots are read into it. */
  datatype Memory = Memory(pad: seq<Byte>, junk: nat -> seq<Byte>)

  class Filebase {
    var counter: nat
    var filepages: map<nat, Filepage>
    /** What has been stored on each page. */
    ghost var logs: map<nat, seq<Entry>>

    /** Pages are numbered from zero up, and each has its own object and file. */
    ghost predicate Numbered()
      reads this, filepages.Values
      ensures Numbered() ==> forall n :: n in logs <==> 0 <= n < counter && n < MAX_PAGES
    {
      && (forall n: nat :: n in filepages <==> n < counter && n < MAX_PAGES)
      && logs.Keys == filepages.Keys
      && (forall m, n :: m in filepages && n in filepages && m != n ==> filepages[m] != filepages[n])
      && (forall n :: n in filepages ==> PageUsable(filepages[n]))
    }

    /** Each page holds what was stored on it. */
    ghost predicate Holding()
      requires Numbered()
      reads this, filepages.Values
    {
      forall n :: n in filepages ==> PageHolds(filepages[n], logs[n])
    }

    ghost predicate Usable()
      reads this, filepages.Values
      ensures Usable() ==> 0 in filepages && 0 in logs && filepages[0].grow >= 1
    {
      counter >= 1 && Numbered()
    }

    lemma FirstNotFull()
      requires Usable()
      ensures !filepages[0].pageFull
    {}

    ghost predicate Valid()
      reads this, filepages.Values
      ensures Valid() ==> Usable() && 0 in filepages && 0 in logs
    {
      Usable() && Holding()
    }

    /** At least one page. A page whose file exists is opened from it. */
    constructor (cnt: nat, disk: map<nat, seq<Byte>>, ghost stored: map<nat, seq<Entry>>, memory: nat -> Memory)
      requires forall n :: n in disk ==> n in stored && ClosedFile(disk[n], stored[n])
      ensures Valid() && forall n :: n in filepages ==> fresh(filepages[n])
      ensures counter == if cnt == 0 then 1 else cnt
      ensures FromFiles(logs, counter, disk, stored)
    {
      counter, filepages, logs := 0, map[], map[];
      new;
      AcquirePages(if cnt == 0 then 1 else cnt, disk, stored, memory);
    }

    method AcquirePages(cnt: nat, disk: map<nat, seq<Byte>>, ghost stored: map<nat, seq<Entry>>, memory: nat -> Memory)
      requires counter == 0 && filepages == map[] && logs == map[] && Numbered() && Holding()
      requires forall n :: n in disk ==> n in stored && ClosedFile(disk[n], stored[n])
      modifies `counter, `filepages, `logs
      ensures Numbered() && Holding() && counter == cnt
      ensures forall n :: n in filepages ==> fresh(filepages[n])
      ensures FromFiles(logs, cnt, disk, stored)
    {
      hide Numbered, Holding, ClosedFile, FromFiles, ItemsOf, PageNumber;
      NoneFromFiles(disk, stored);
      while counter < cnt
        invariant counter <= cnt && Numbered() && Holding()
        invariant forall n :: n in filepages ==> fresh(filepages[n])
        invariant FromFiles(logs, counter, disk, stored)
      {
        OneMoreFile(logs, counter, disk, stored);
        AcquirePage(disk, stored, memory);
      }
    }

    method NewPage(onDisk: Option<seq<Byte>>, ghost stored: seq<Entry>, pad: seq<Byte>, junk: nat -> seq<Byte>)
      returns (page: Filepage)
      requires onDisk.Some? ==> ClosedFile(onDisk.value, stored)
      ensures fresh(page) && PageHolds(page, if onDisk.Some? then stored else [])
    {
      hide Laid, Opened, ClosedFile;
      page := new Filepage(onDisk, pad, junk);
      if onDisk.Some? {
        ClosedFileOpens(onDisk.value, stored, pad, junk);
        LaidContents(page.State(), stored);
      } else {
        CreatedIsLaid(DEFAULT_PAGE_ALLOC, ITEM_SIZE, pad);
        LaidContents(page.State(), []);
      }
    }

    method PageOf(file: nat, disk: map<nat, seq<Byte>>, ghost stored: map<nat, seq<Entry>>, memory: nat -> Memory)
      returns (page: Filepage)
      requires forall n :: n in disk ==> n in stored && ClosedFile(disk[n], stored[n])
      ensures fresh(page) && PageHolds(page, ItemsOf(file, disk, stored))
    {
      hide PageHolds, ClosedFile;
      page := NewPage(if file in disk then Some(disk[file]) else None, ItemsOf(file, disk, stored),
                      memory(file).pad, memory(file).junk);
    }

    /** Takes the next file, and opens or creates it as the page of its number. */
    method AcquirePage(disk: map<nat, seq<Byte>>, ghost stored: map<nat, seq<Entry>>, memory: nat -> Memory)
      requires Numbered() && Holding()
      requires forall n :: n in disk ==> n in stored && ClosedFile(disk[n], stored[n])
      modifies `counter, `filepages, `logs
      ensures Numbered() && Holding() && counter == old(counter) + 1
      ensures forall n :: n in filepages ==>
                fresh(filepages[n]) || (n in old(filepages) && filepages[n] == old(filepages)[n])
      ensures logs == old(logs)[PageNumber(old(counter)) := ItemsOf(old(counter), disk, stored)]
    {
      hide PageUsable, PageHolds, ClosedFile, PageNumber, ItemsOf;
      ghost var known := ItemsOf(counter, disk, stored);
      var num := PageNumber(counter);
      var page := PageOf(counter, disk, stored, memory);
      filepages := filepages[num := page];
      logs := logs[num := known];
      counter := counter + 1;
    }

    /** The first page that is not full, in the order of their numbers. The test for a full
        page never fires, so that is always page 0, and no page is ever added. */
    method ApplicablePage() returns (num: nat)
      requires Usable()
      ensures num == 0
    {
      hide PageUsable;
      num := 0;
      while num < counter && num < MAX_PAGES
        invariant num <= counter && num <= MAX_PAGES
        invariant forall m :: 0 <= m < num ==> m in filepages && filepages[m].pageFull
      {
        if !filepages[num].pageFull {
          FirstNotFull();
          return;
        }
        num := num + 1;
      }
      FirstNotFull();
      assert false;
    }

    /** A store on page 0 and no other; while there is room, every page goes on holding
        what was stored on it. */
    method Put(name: seq<Byte>, data: seq<Byte>, junk: seq<Byte>) returns (num: nat)
      requires Usable()
      modifies filepages.Values, `logs
      ensures Usable() && num == 0 && filepages == old(filepages)
      ensures filepages[0].State() == Stored(old(filepages[0].State()), Entry(name, data, junk))
      ensures forall n :: n in filepages && n != 0 ==> filepages[n].State() == old(filepages[n].State())
      ensures logs == old(logs)[0 := Appended(old(logs)[0], Entry(name, data, junk))]
      ensures old(Valid() && RoomFor(filepages[0].State(), data)) ==> Valid()
    {
      hide PageUsable, PageHolds, RoomFor, Stored, Appended;
      num := ApplicablePage();
      var e := Entry(name, data, junk);
      StoreOn(filepages[num], logs[0], e);
      logs := logs[0 := Appended(logs[0], e)];
    }

    /** What the page's map and file say; while it holds what was stored on it, the data
        stored last under the name. */
    method Get(num: nat, name: seq<Byte>) returns (data: Option<seq<Byte>>)
      requires Usable() && num in filepages
      modifies filepages.Values
      ensures Usable() && filepages == old(filepages) && logs == old(logs)
      ensures forall n :: n in filepages ==> filepages[n].State() == old(filepages[n].State())
      ensures data == Retrieved(filepages[num].State(), name)
      ensures old(Valid()) ==> Valid() && data == LastData(logs[num], name)
    {
      hide Laid, Retrieved;
      data := filepages[num].RetrieveItem(name);
    }
  }

  /** The items in the file of a number: those stored when it was closed, or none. */
  ghost function ItemsOf(file: nat, disk: map<nat, seq<Byte>>, stored: map<nat, seq<Entry>>): seq<Entry>
    requires forall n :: n in disk ==> n in stored
  {
    if file in disk then stored[file] else []
  }

  /** Each page has the items of the file it stands for. */
  ghost predicate FromFiles(logs: map<nat, seq<Entry>>, cnt: nat, disk: map<nat, seq<Byte>>,
                            stored: map<nat, seq<Entry>>)
    requires forall n :: n in disk ==> n in stored
  {
    && (forall n :: n in logs <==> 0 <= n < cnt && n < MAX_PAGES)
    && (forall n :: n in logs ==> logs[n] == ItemsOf(FileOf(n, cnt), disk, stored))
  }

  lemma NoneFromFiles(disk: map<nat, seq<Byte>>, stored: map<nat, seq<Entry>>)
    requires forall n :: n in disk ==> n in stored
    ensures FromFiles(map[], 0, disk, stored)
  {}

  lemma OneMoreFile(logs: map<nat, seq<Entry>>, cnt: nat, disk: map<nat, seq<Byte>>, stored: map<nat, seq<Entry>>)
    requires (forall n :: n in disk ==> n in stored) && FromFiles(logs, cnt, disk, stored)
    ensures FromFiles(logs[PageNumber(cnt) := ItemsOf(cnt, disk, stored)], cnt + 1, disk, stored)
  {
    hide PageNumber, ItemsOf;
    var more := logs[PageNumber(cnt) := ItemsOf(cnt, disk, stored)];
    forall n | n in more ensures more[n] == ItemsOf(FileOf(n, cnt + 1), disk, stored) {
      if n != PageNumber(cnt) {
        assert FileOf(n, cnt + 1) == FileOf(n, cnt);
      }
    }
  }
}
