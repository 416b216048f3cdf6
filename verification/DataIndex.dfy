/** The data index of cynder/data_index.cpp: values kept inline behind a trailer, or in
    the large-file base with only the trailer left inline. The database underneath is a
    map. */
module DataIndex {
  import opened Bytes
  import opened Options
  import opened Disk
  import opened PageLayout
  import opened Pages = Filepage
  import opened Base = Filebase

  const UNPACKED_LENGTH: int := 36
  const LFB_MINIMUM_SIZE: int := 1024 * 1024 * 8
  const DATA_MAGIC: Byte := 72
  const DATA_FLAG_ADI: Byte := 1
  const DATA_FLAG_LFB: Byte := 2
  const TRAILER: int := 12

  /** A quid of 36 bytes, or one in braces, which are cropped; none for anything else. */
  function Key(quid: seq<Byte>): (key: Option<seq<Byte>>)
    ensures key.Some? ==> |key.value| == UNPACKED_LENGTH
    ensures key.Some? && |quid| != UNPACKED_LENGTH ==> quid == [123] + key.value + [125]
    ensures |quid| == UNPACKED_LENGTH ==> key == Some(quid)
    ensures key == None && |quid| == UNPACKED_LENGTH + 2 ==> quid[0] != 123 || quid[UNPACKED_LENGTH + 1] != 125
  {
    if |quid| == UNPACKED_LENGTH then Some(quid)
    else if |quid| == UNPACKED_LENGTH + 2 && quid[0] == 123 && quid[UNPACKED_LENGTH + 1] == 125
      then Some(quid[1..UNPACKED_LENGTH + 1])
    else None
  }

  // ---------- the trailer ----------

  /** A StorageType in memory: page, gap, pointer, magic, flags, gap. */
  function Trailer(page: nat, flags: Byte, junk: seq<Byte>): (b: seq<Byte>)
    ensures |b| == TRAILER
  {
    Le16(page) + Read(junk, 0, 2) + Le32(0) + [DATA_MAGIC, flags] + Read(junk, 2, 2)
  }

  /** What get makes of a record. */
  datatype Record = Short | BadMagic | Inline(value: seq<Byte>) | InBase(page: nat)

  function ReadRecord(data: seq<Byte>): Record {
    if |data| < TRAILER then Short
    else
      var end := |data| - TRAILER;
      var t := data[end..];
      if t[8] != DATA_MAGIC then BadMagic
      else if t[9] == DATA_FLAG_LFB then InBase(Un16(t[0..2]))
      else Inline(data[..end])
  }

  predicate Large(value: seq<Byte>) {
    |value| > LFB_MINIMUM_SIZE
  }

  /** The record put leaves in the database. */
  function PutRecord(value: seq<Byte>, page: nat, junk: seq<Byte>): seq<Byte> {
    if Large(value) then Trailer(page, DATA_FLAG_LFB, junk) else value + Trailer(0, DATA_FLAG_ADI, junk)
  }

  /** Reading a record undoes writing it, whatever the value's own bytes look like. */
  lemma RecordReadsBack(value: seq<Byte>, page: nat, junk: seq<Byte>)
    requires page < 65536
    ensures ReadRecord(PutRecord(value, page, junk)) == if Large(value) then InBase(page) else Inline(value)
  {
    hide Le16, Un16, Le32, Read;
    if Large(value) {
      var t := Trailer(page, DATA_FLAG_LFB, junk);
      assert t[0..] == t;
      TrailerParts(page, DATA_FLAG_LFB, junk);
      Le16RoundTrip(page);
    } else {
      var t := Trailer(0, DATA_FLAG_ADI, junk);
      TrailerParts(0, DATA_FLAG_ADI, junk);
      assert (value + t)[|value|..] == t && (value + t)[..|value|] == value;
    }
  }

  lemma TrailerParts(page: nat, flags: Byte, junk: seq<Byte>)
    ensures var t := Trailer(page, flags, junk);
            t[0..2] == Le16(page) && t[8] == DATA_MAGIC && t[9] == flags
  {}

  // ---------- records and what they show ----------

  /** The record stands for the value: it holds it, or page 0 of the base does. */
  ghost predicate StandsFor(record: seq<Byte>, value: seq<Byte>, log: seq<Entry>, key: seq<Byte>) {
    match ReadRecord(record)
    case Inline(v) => v == value && !Large(value)
    case InBase(page) => page == 0 && Large(value) && LastData(log, key) == Some(value)
    case _ => false
  }

  /** Every key's record stands for the value that get shows for it. */
  ghost predicate Shows(engine: map<seq<Byte>, seq<Byte>>, visible: map<seq<Byte>, seq<Byte>>, log: seq<Entry>) {
    && visible.Keys == engine.Keys
    && (forall key :: key in engine ==> StandsFor(engine[key], visible[key], log, key))
  }

  /** What is visible once a large value has gone into the base, before the database knows. */
  function AfterBase(visible: map<seq<Byte>, seq<Byte>>, key: seq<Byte>, value: seq<Byte>): map<seq<Byte>, seq<Byte>> {
    if Large(value) && key in visible && Large(visible[key]) then visible[key := value] else visible
  }

  lemma BaseShows(engine: map<seq<Byte>, seq<Byte>>, visible: map<seq<Byte>, seq<Byte>>, log: seq<Entry>, e: Entry)
    requires Shows(engine, visible, log) && Large(e.data)
    ensures Shows(engine, AfterBase(visible, e.name, e.data), log + [e])
  {
    hide ReadRecord, Large;
    var after, more := AfterBase(visible, e.name, e.data), log + [e];
    assert more[..|log|] == log;
    forall key | key in engine ensures StandsFor(engine[key], after[key], more, key) {
      assert StandsFor(engine[key], visible[key], log, key);
    }
  }

  lemma InsertShows(engine: map<seq<Byte>, seq<Byte>>, visible: map<seq<Byte>, seq<Byte>>, log: seq<Entry>,
                    key: seq<Byte>, record: seq<Byte>, value: seq<Byte>)
    requires Shows(engine, visible, log) && StandsFor(record, value, log, key)
    ensures Shows(engine[key := record], visible[key := value], log)
  {
    hide StandsFor;
  }

  lemma RecordStandsFor(value: seq<Byte>, log: seq<Entry>, key: seq<Byte>, junk: seq<Byte>)
    requires Large(value) ==> LastData(log, key) == Some(value)
    ensures StandsFor(PutRecord(value, 0, junk), value, log, key)
  {
    hide ReadRecord, PutRecord, Large;
    RecordReadsBack(value, 0, junk);
  }

  /** The record can be read: it holds its value, or page 0's map has the key. */
  predicate Readable(record: seq<Byte>, key: seq<Byte>, contents: map<seq<Byte>, Place>) {
    match ReadRecord(record)
    case Inline(_) => true
    case InBase(page) => page == 0 && key in contents
    case _ => false
  }

  lemma PutReadable(value: seq<Byte>, key: seq<Byte>, contents: map<seq<Byte>, Place>, junk: seq<Byte>)
    requires Large(value) ==> key in contents
    ensures Readable(PutRecord(value, 0, junk), key, contents)
  {
    hide ReadRecord, PutRecord, Large;
    RecordReadsBack(value, 0, junk);
  }

  // ---------- the object ----------

  datatype PutResult = Done | InvalidQuid | DuplicateKey

  datatype GetResult = Value(data: seq<Byte>) | Invalid | NotFound

  class DataIndex {
    var engine: map<seq<Byte>, seq<Byte>>
    const lfb: Filebase
    /** What get returns, key by key. */
    ghost var visible: map<seq<Byte>, seq<Byte>>

    ghost predicate Usable()
      reads this, lfb, lfb.filepages.Values
      ensures Usable() ==> lfb.Usable()
    {
      && lfb.Usable()
      && (forall key :: key in engine ==> Readable(engine[key], key, lfb.filepages[0].contents))
    }

    /** The base holds what was stored, and every record stands for what get shows. */
    ghost predicate Valid()
      reads this, lfb, lfb.filepages.Values
      ensures Valid() ==> Usable() && lfb.Valid()
    {
      Usable() && lfb.Valid() && Shows(engine, visible, lfb.logs[0])
    }

    constructor (base: Filebase)
      requires base.Valid()
      ensures Valid() && lfb == base && visible == map[]
    {
      hide Filebase.Valid, Filebase.Usable, PageHolds, Laid;
      engine, visible, lfb := map[], map[], base;
    }

    /** The large value's way into the base. */
    method PutLarge(key: seq<Byte>, value: seq<Byte>, junk: seq<Byte>) returns (page: nat)
      requires Usable() && Large(value) && |key| == UNPACKED_LENGTH
      modifies `visible, lfb`logs, lfb.filepages.Values
      ensures Usable() && page == 0 && lfb.filepages == old(lfb.filepages)
      ensures lfb.filepages[0].State() == Stored(old(lfb.filepages[0].State()), Entry(key, value, junk))
      ensures key in lfb.filepages[0].contents
      ensures old(Valid() && RoomFor(lfb.filepages[0].State(), value)) ==>
                && Valid() && LastData(lfb.logs[0], key) == Some(value)
                && visible == AfterBase(old(visible), key, value)
    {
      hide Filebase.Valid, Filebase.Usable, Shows, Large, RoomFor, AfterBase, Stored, Readable, LastData;
      ghost var e := Entry(key, value, junk);
      if Valid() {
        BaseShows(engine, visible, lfb.logs[0], e);
      }
      lfb.FirstNotFull();
      StoredUsable(lfb.filepages[0].State(), e);
      LastStored(lfb.logs[0], e);
      KeepReadable(engine, lfb.filepages[0].contents, Stored(lfb.filepages[0].State(), e).contents);
      page := lfb.Put(key, value, junk);
      visible := AfterBase(visible, key, value);
    }

    /** A put leaves a record, and a large value in the base whether or not the record goes
        in. While the base has room, one that succeeds decides what get returns, for its
        key and no other; one that fails on a duplicate key shows if and only if both the
        value and the key's value are large. */
    method Put(quid: seq<Byte>, value: seq<Byte>, overwrite: bool, junk: seq<Byte>) returns (result: PutResult)
      requires Usable()
      modifies `engine, `visible, lfb`logs, lfb.filepages.Values
      ensures Usable() && lfb.filepages == old(lfb.filepages)
      ensures result == InvalidQuid <==> Key(quid) == None
      ensures result == DuplicateKey <==> Key(quid).Some? && !overwrite && Key(quid).value in old(engine)
      ensures engine == if result == Done then old(engine)[Key(quid).value := PutRecord(value, 0, junk)]
                        else old(engine)
      ensures lfb.filepages[0].State() == if Key(quid).Some? && Large(value)
                then Stored(old(lfb.filepages[0].State()), Entry(Key(quid).value, value, junk))
                else old(lfb.filepages[0].State())
      ensures old(Valid() && (Key(quid).Some? && Large(value) ==> RoomFor(lfb.filepages[0].State(), value))) ==>
                Valid() && visible == Shown(old(visible), quid, value, result)
    {
      hide Filebase.Valid, Filebase.Usable, Shows, Large, RoomFor, StandsFor, Stored, PutRecord,
        Readable, LastData;
      if Key(quid) == None {
        return InvalidQuid;
      }
      var key := Key(quid).value;
      var page: nat := 0;
      if Valid() {
        SameKeys(engine, visible, lfb.logs[0]);
      }
      if Large(value) {
        page := PutLarge(key, value, junk);
      }
      var record := PutRecord(value, page, junk);
      if !overwrite && key in engine {
        return DuplicateKey;
      }
      Insert(key, record, value, junk);
      result := Done;
    }

    method Insert(key: seq<Byte>, record: seq<Byte>, ghost value: seq<Byte>, ghost junk: seq<Byte>)
      requires Usable() && record == PutRecord(value, 0, junk)
      requires Large(value) ==> key in lfb.filepages[0].contents
      modifies `engine, `visible
      ensures Usable() && engine == old(engine)[key := record]
      ensures old(Valid()) && (Large(value) ==> LastData(lfb.logs[0], key) == Some(value)) ==>
                Valid() && visible == old(visible)[key := value]
    {
      hide Filebase.Valid, Filebase.Usable, Shows, Large, StandsFor, Readable, LastData, PutRecord;
      PutReadable(value, key, lfb.filepages[0].contents, junk);
      if Valid() && (Large(value) ==> LastData(lfb.logs[0], key) == Some(value)) {
        RecordStandsFor(value, lfb.logs[0], key, junk);
        InsertShows(engine, visible, lfb.logs[0], key, record, value);
      }
      engine := engine[key := record];
      visible := visible[key := value];
    }

    /** What the key's record says, inline or through page 0's map; while the base holds
        what was stored, what the puts made visible. */
    method Get(quid: seq<Byte>) returns (result: GetResult)
      requires Usable()
      modifies lfb.filepages.Values
      ensures Usable() && lfb.filepages == old(lfb.filepages) && visible == old(visible) && engine == old(engine)
      ensures lfb.filepages[0].State() == old(lfb.filepages[0].State())
      ensures result == Invalid <==> Key(quid) == None
      ensures result == NotFound <==> Key(quid).Some? && Key(quid).value !in engine
      ensures result.Value? ==>
                match ReadRecord(engine[Key(quid).value])
                case Inline(v) => result.data == v
                case InBase(_) => Some(result.data) == Retrieved(lfb.filepages[0].State(), Key(quid).value)
                case _ => false
      ensures old(Valid()) ==>
                Valid() && result == if Key(quid) == None then Invalid
                                     else if Key(quid).value !in visible then NotFound
                                     else Value(visible[Key(quid).value])
    {
      hide Filebase.Valid, Filebase.Usable, Shows, ReadRecord, Large, LastData;
      if Key(quid) == None {
        return Invalid;
      }
      var key := Key(quid).value;
      if Valid() {
        SameKeys(engine, visible, lfb.logs[0]);
      }
      if key !in engine {
        return NotFound;
      }
      if Valid() {
        ShowsKey(engine, visible, lfb.logs[0], key);
      }
      match ReadRecord(engine[key])
      case InBase(page) =>
        var data := lfb.Get(page, key);
        result := Value(data.value);
      case Inline(v) =>
        result := Value(v);
    }
  }

  /** What is visible after a put with a result. */
  function Shown(visible: map<seq<Byte>, seq<Byte>>, quid: seq<Byte>, value: seq<Byte>, result: PutResult)
    : map<seq<Byte>, seq<Byte>>
    requires result != InvalidQuid ==> Key(quid).Some?
  {
    match result
    case InvalidQuid => visible
    case DuplicateKey => AfterBase(visible, Key(quid).value, value)
    case Done => visible[Key(quid).value := value]
  }

  lemma LastStored(log: seq<Entry>, e: Entry)
    requires |e.name| == UNPACKED_LENGTH
    ensures LastData(Appended(log, e), e.name) == Some(e.data)
  {}

  lemma KeepReadable(engine: map<seq<Byte>, seq<Byte>>, before: map<seq<Byte>, Place>, after: map<seq<Byte>, Place>)
    requires before.Keys <= after.Keys
    requires forall key :: key in engine ==> Readable(engine[key], key, before)
    ensures forall key :: key in engine ==> Readable(engine[key], key, after)
  {
    forall key | key in engine ensures Readable(engine[key], key, after) {
      assert Readable(engine[key], key, before);
    }
  }

  lemma SameKeys(engine: map<seq<Byte>, seq<Byte>>, visible: map<seq<Byte>, seq<Byte>>, log: seq<Entry>)
    requires Shows(engine, visible, log)
    ensures visible.Keys == engine.Keys
  {}

  lemma ShowsKey(engine: map<seq<Byte>, seq<Byte>>, visible: map<seq<Byte>, seq<Byte>>, log: seq<Entry>, key: seq<Byte>)
    requires Shows(engine, visible, log) && key in engine
    ensures key in visible && StandsFor(engine[key], visible[key], log, key)
  {}
}
