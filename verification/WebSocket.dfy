/** WebSocket framing in mumux: the frame header of mumux/util.c and
    mumux/request.c, fragmented messages, and the reader that hands out a frame's
    payload piece by piece while undoing the client's masking. */
module WebSocket {
  import opened Bytes
  import opened Numerals
  import opened Options
  import opened Sequences
  import opened Connection

  // ---------- the frame header of section 5.2 of RFC 6455 ----------

  /** `count` bytes of `n`, most significant first. */
  function BigEndian(n: nat, count: nat): (bytes: seq<Byte>)
    ensures |bytes| == count
  {
    if count == 0 then [] else BigEndian(n / 256, count - 1) + [n % 256]
  }

  function LengthCode(length: nat): nat {
    if length < 126 then length else if length < 65536 then 126 else 127
  }

  function LengthField(length: nat): seq<Byte> {
    if length < 126 then [] else if length < 65536 then BigEndian(length, 2) else BigEndian(length, 8)
  }

  /** A header with the shortest form of its length, and a masking key if any. */
  function Header(fin: bool, opcode: nat, mask: Option<seq<Byte>>, length: nat): (h: seq<Byte>)
    requires opcode < 16 && length < TWO64 && (mask.Some? ==> |mask.value| == 4)
    ensures 2 <= |h| <= 14
  {
    [(if fin then 128 else 0) + opcode, (if mask.Some? then 128 else 0) + LengthCode(length)]
    + LengthField(length)
    + (if mask.Some? then mask.value else [])
  }

  datatype Frame = Frame(fin: bool, opcode: nat, mask: Option<seq<Byte>>, headerSize: nat, payloadLength: int)

  /** The number whose big-endian digits the bytes are. */
  function Number(bytes: seq<Byte>): nat {
    if bytes == [] then 0 else Number(bytes[..|bytes| - 1]) * 256 + bytes[|bytes| - 1]
  }

  /** What stands at the front of `data`, none while the header is incomplete. */
  function Scanned(data: seq<Byte>): Option<Frame> {
    if !HeaderComplete(data) then None
    else
      var n, m := LengthBytes(data), MaskBytes(data);
      Some(Frame(
        data[0] >= 128, data[0] % 16,
        if m == 0 then None else Some(data[2 + n..6 + n]),
        2 + n + m,
        AsInt(if n == 0 then data[1] % 128 else Number(data[2..2 + n]))))
  }

  /** The length field's bytes, highest first, into 32 bits. */
  method ReadLength(data: seq<Byte>, lengthBytes: nat) returns (length: nat)
    requires 2 + lengthBytes <= |data|
    ensures length == Number(data[2..2 + lengthBytes]) % TWO32
  {
    length := 0;
    assert data[2..2] == [];
    for i := 0 to lengthBytes
      invariant length == Number(data[2..2 + i]) % TWO32
    {
      assert data[2..2 + (i + 1)][..i] == data[2..2 + i];
      ShiftIn(Number(data[2..2 + i]), data[2 + i]);
      length := length * 256 % TWO32 + data[2 + i];
    }
  }

  /** wby_scan_websocket_frame. */
  method ScanFrame(data: seq<Byte>) returns (frame: Option<Frame>)
    ensures frame == Scanned(data)
  {
    hide Number;
    if |data| < 2 {
      return None;
    }
    var position := 2;
    var header0, header1 := data[0], data[1];
    var fin := header0 >= 128;
    var masked := header1 >= 128;
    var maskBytes := if masked then 4 else 0;
    var opcode := header0 % 16;
    var length: nat := header1 % 128;
    var lengthBytes := if length == 126 then 2 else if length == 127 then 8 else 0;
    if position + lengthBytes + maskBytes > |data| {
      return None;
    }
    if lengthBytes > 0 {
      length := ReadLength(data, lengthBytes);
      AsIntWraps(Number(data[2..2 + lengthBytes]));
    }
    position := position + lengthBytes;
    var key := [];
    for i := 0 to maskBytes
      invariant position == 2 + lengthBytes + i
      invariant key == data[2 + lengthBytes..position]
    {
      key := key + [data[position]];
      position := position + 1;
    }
    return Some(Frame(fin, opcode, if masked then Some(key) else None, position, AsInt(length)));
  }

  lemma AsIntWraps(n: nat)
    ensures AsInt(n % TWO32) == AsInt(n)
  {}

  /** Shifting left by eight within 32 bits and or-ing a byte in. */
  lemma ShiftIn(n: nat, b: Byte)
    ensures (n % TWO32) * 256 % TWO32 + b == (n * 256 + b) % TWO32
  {}

  function LengthBytes(data: seq<Byte>): nat
    requires |data| >= 2
  {
    if data[1] % 128 == 126 then 2 else if data[1] % 128 == 127 then 8 else 0
  }

  function MaskBytes(data: seq<Byte>): nat
    requires |data| >= 2
  {
    if data[1] >= 128 then 4 else 0
  }

  predicate HeaderComplete(data: seq<Byte>) {
    |data| >= 2 && |data| >= 2 + LengthBytes(data) + MaskBytes(data)
  }

  function Power256(count: nat): nat {
    if count == 0 then 1 else 256 * Power256(count - 1)
  }

  lemma {:induction false} NumberOfBigEndian(n: nat, count: nat)
    requires n < Power256(count)
    ensures Number(BigEndian(n, count)) == n
  {
    if count > 0 {
      NumberOfBigEndian(n / 256, count - 1);
      assert BigEndian(n, count)[..count - 1] == BigEndian(n / 256, count - 1);
    }
  }

  lemma PowerValues()
    ensures Power256(2) == 65536 && Power256(8) == TWO64
  {
    assert Power256(4) == 4294967296;
  }

  /** What scanning finds at the front of a header of section 5.2. */
  lemma ScanOfHeader(fin: bool, opcode: nat, mask: Option<seq<Byte>>, length: nat, rest: seq<Byte>)
    requires opcode < 16 && length < TWO64 && (mask.Some? ==> |mask.value| == 4)
    ensures
      var data := Header(fin, opcode, mask, length) + rest;
      && HeaderComplete(data)
      && (data[0] >= 128) == fin && data[0] % 16 == opcode
      && 2 + LengthBytes(data) + MaskBytes(data) == |Header(fin, opcode, mask, length)|
      && (MaskBytes(data) == 0 <==> mask.None?)
      && (mask.Some? ==> data[2 + LengthBytes(data)..6 + LengthBytes(data)] == mask.value)
      && length == (if LengthBytes(data) == 0 then data[1] % 128 else Number(data[2..2 + LengthBytes(data)]))
  {
    hide Number, LengthField, LengthCode;
    var data := Header(fin, opcode, mask, length) + rest;
    HeaderFront(fin, opcode, mask, length, data);
    NumberOfField(length);
    HeaderSlices(fin, opcode, mask, length, rest);
  }

  /** What the first two bytes tell. */
  lemma HeaderFront(fin: bool, opcode: nat, mask: Option<seq<Byte>>, length: nat, data: seq<Byte>)
    requires opcode < 16 && length < TWO64 && |data| >= 2
    requires data[0] as int == (if fin then 128 else 0) + opcode
    requires data[1] as int == (if mask.Some? then 128 else 0) + LengthCode(length)
    ensures (data[0] >= 128) == fin && data[0] % 16 == opcode
    ensures LengthBytes(data) == |LengthField(length)| && MaskBytes(data) == if mask.Some? then 4 else 0
    ensures LengthBytes(data) == 0 ==> data[1] % 128 == length
  {
    hide BigEndian;
  }

  lemma NumberOfField(length: nat)
    requires length < TWO64
    ensures LengthField(length) != [] ==> Number(LengthField(length)) == length
  {
    hide BigEndian, Number;
    PowerValues();
    if length >= 126 {
      NumberOfBigEndian(length, if length < 65536 then 2 else 8);
    }
  }

  lemma HeaderSlices(fin: bool, opcode: nat, mask: Option<seq<Byte>>, length: nat, rest: seq<Byte>)
    requires opcode < 16 && length < TWO64 && (mask.Some? ==> |mask.value| == 4)
    ensures var data, n := Header(fin, opcode, mask, length) + rest, |LengthField(length)|;
            && |Header(fin, opcode, mask, length)| == 2 + n + (if mask.Some? then 4 else 0)
            && data[2..2 + n] == LengthField(length)
            && (mask.Some? ==> data[2 + n..6 + n] == mask.value)
  {
    hide LengthField, LengthCode;
  }

  /** Scanning a header gives its fields back, with the length reduced to 32 bits:
      the length is right exactly when it fits a C int. */
  lemma HeaderRoundTrip(fin: bool, opcode: nat, mask: Option<seq<Byte>>, length: nat, rest: seq<Byte>)
    requires opcode < 16 && length < TWO64 && (mask.Some? ==> |mask.value| == 4)
    ensures Scanned(Header(fin, opcode, mask, length) + rest)
         == Some(Frame(fin, opcode, mask, |Header(fin, opcode, mask, length)|, AsInt(length)))
    ensures AsInt(length) == length <==> length < TWO31
  {
    hide Header, Number, HeaderComplete, LengthBytes, MaskBytes;
    ScanOfHeader(fin, opcode, mask, length, rest);
  }

  /** An unmasked header for a length in a C int: a negative one passes for short, and the
      low seven bits go where the length code should be. */
  function IntHeader(fin: bool, opcode: nat, length: int): (h: seq<Byte>)
    requires opcode < 16 && length < TWO31
    ensures 2 <= |h| <= 10
  {
    if length >= 0 then Header(fin, opcode, None, length)
    else [(if fin then 128 else 0) + opcode, length % 128]
  }

  /** wby_make_websocket_header. */
  method MakeHeader(opcode: nat, payloadLength: int, fin: bool) returns (header: seq<Byte>)
    requires opcode < 16 && payloadLength < TWO31
    ensures header == IntHeader(fin, opcode, payloadLength)
  {
    var first: Byte := (if fin then 128 else 0) + opcode;
    if payloadLength < 126 {
      header := [first, payloadLength % 128];
    } else if payloadLength < 65536 {
      header := [first, 126, payloadLength / 256 % 256, payloadLength % 256];
      TwoBytes(payloadLength);
    } else {
      header := [first, 127, 0, 0, 0, 0,
                 payloadLength / 16777216 % 256, payloadLength / 65536 % 256,
                 payloadLength / 256 % 256, payloadLength % 256];
      EightBytes(payloadLength);
    }
  }

  /** With a negative length nothing is sent behind the header. It announces up to 125 bytes,
      or with 126 and 127 the length that the next two or eight bytes make; the receiver
      takes all of that from the frames that follow. */
  lemma NegativeAnnounces(fin: bool, opcode: nat, length: int, rest: seq<Byte>)
    requires opcode < 16 && length < 0
    ensures var low := length % 128;
            var n := if low < 126 then 0 else if low == 126 then 2 else 8;
            Scanned(IntHeader(fin, opcode, length) + rest)
            == if |rest| < n then None
               else Some(Frame(fin, opcode, None, 2 + n, if n == 0 then low else AsInt(Number(rest[..n]))))
  {
    hide Number, AsInt;
    var header, low := IntHeader(fin, opcode, length), length % 128;
    var data, n := header + rest, if low < 126 then 0 else if low == 126 then 2 else 8;
    assert data[0] == header[0] && data[1] == low;
    if |rest| >= n {
      assert data[2..2 + n] == rest[..n];
      SmallAsInt(low);
    }
  }

  lemma SmallAsInt(n: nat)
    requires n < 128
    ensures AsInt(n) == n
  {}

  lemma TwoBytes(n: nat)
    requires n < 65536
    ensures BigEndian(n, 2) == [n / 256 % 256, n % 256]
  {
    assert BigEndian(n / 256, 1) == [n / 256 % 256];
  }

  lemma FourBytes(n: nat)
    ensures BigEndian(n, 4) == [n / 16777216 % 256, n / 65536 % 256, n / 256 % 256, n % 256]
  {
    assert n / 256 / 256 == n / 65536 && n / 65536 / 256 == n / 16777216;
    assert BigEndian(n / 16777216, 1) == [n / 16777216 % 256];
    assert BigEndian(n / 65536, 2) == [n / 16777216 % 256, n / 65536 % 256];
    assert BigEndian(n / 256, 3) == [n / 16777216 % 256, n / 65536 % 256, n / 256 % 256];
  }

  lemma {:induction false} ZeroBytes(count: nat)
    ensures BigEndian(0, count) == seq(count, _ => 0)
  {
    if count > 0 {
      ZeroBytes(count - 1);
    }
  }

  lemma {:induction false} LeadingZeros(n: nat, count: nat, more: nat)
    requires n < Power256(count)
    ensures BigEndian(n, more + count) == seq(more, _ => 0) + BigEndian(n, count)
  {
    if count == 0 {
      ZeroBytes(more);
    } else {
      LeadingZeros(n / 256, count - 1, more);
    }
  }

  lemma EightBytes(n: nat)
    requires n < TWO32
    ensures BigEndian(n, 8)
         == [0, 0, 0, 0, n / 16777216 % 256, n / 65536 % 256, n / 256 % 256, n % 256]
  {
    hide BigEndian;
    assert Power256(4) == TWO32;
    LeadingZeros(n, 4, 4);
    FourBytes(n);
    assert seq(4, _ => 0) == [0, 0, 0, 0];
  }

  // ---------- fragmented messages ----------

  const CONTINUATION: nat := 0

  /** The receiver of section 5.4 of RFC 6455 for unmasked frames: a first frame that
      names the opcode, continuation frames, until one is final. Yields the payloads
      together and what follows. */
  function Reassemble(wire: seq<Byte>, first: bool, opcode: nat): Option<(seq<Byte>, seq<Byte>)>
    decreases |wire|
  {
    match Scanned(wire)
    case None => None
    case Some(f) =>
      if f.mask.Some? || f.opcode != (if first then opcode else CONTINUATION) then None
      else if f.payloadLength < 0 || |wire| < f.headerSize + f.payloadLength then None
      else
        var payload := wire[f.headerSize..f.headerSize + f.payloadLength];
        var after := wire[f.headerSize + f.payloadLength..];
        if f.fin then Some((payload, after))
        else
          match Reassemble(after, false, opcode)
          case None => None
          case Some((more, rest)) => Some((payload + more, rest))
  }

  /** The frames of one message: a fragment per write, then the empty final frame. */
  function Fragments(writes: seq<seq<Byte>>, opcode: nat): seq<Byte>
    requires opcode < 16 && forall w <- writes :: |w| < TWO31
  {
    if writes == [] then Header(true, opcode, None, 0)
    else Header(false, opcode, None, |writes[0]|) + writes[0] + Fragments(writes[1..], CONTINUATION)
  }

  /** What the writes of one message put on the wire, whatever their sizes. */
  function Sent(writes: seq<seq<Byte>>, opcode: nat): seq<Byte>
    requires opcode < 16
  {
    if writes == [] then Header(true, opcode, None, 0)
    else
      var len := AsInt(|writes[0]|);
      IntHeader(false, opcode, len) + Counted(writes[0], len) + Sent(writes[1..], CONTINUATION)
  }

  lemma {:induction false} SentFragments(writes: seq<seq<Byte>>, opcode: nat)
    requires opcode < 16 && forall w <- writes :: |w| < TWO31
    ensures Sent(writes, opcode) == Fragments(writes, opcode)
  {
    hide Header;
    if writes != [] {
      assert writes[0] in writes && forall w <- writes[1..] :: w in writes;
      SentFragments(writes[1..], CONTINUATION);
      CountedWhole(writes[0]);
    }
  }

  /** A receiver finds no more payload than there are bytes. */
  lemma {:induction false} PayloadFits(wire: seq<Byte>, first: bool, opcode: nat)
    ensures Reassemble(wire, first, opcode).Some? ==> |Reassemble(wire, first, opcode).value.0| <= |wire|
    decreases |wire|
  {
    hide Scanned;
    if Reassemble(wire, first, opcode).Some? && !Scanned(wire).value.fin {
      var f := Scanned(wire).value;
      HeaderTakesRoom(wire);
      PayloadFits(wire[f.headerSize + f.payloadLength..], false, opcode);
    }
  }

  lemma HeaderTakesRoom(wire: seq<Byte>)
    ensures Scanned(wire).Some? ==> Scanned(wire).value.headerSize >= 2
  {}

  /** A write from 2^31 on loses at least as many bytes, and a frame adds at most ten. */
  lemma {:induction false} SentLength(writes: seq<seq<Byte>>, opcode: nat)
    requires opcode < 16
    ensures |Sent(writes, opcode)| <= |Flatten(writes)| + 10 * |writes| + 2
    ensures (exists w <- writes :: |w| >= TWO31) ==>
              |Sent(writes, opcode)| + TWO31 <= |Flatten(writes)| + 10 * |writes| + 2
  {
    hide IntHeader, AsInt;
    if writes == [] {
      EmptyHeader(opcode);
    } else {
      SentLength(writes[1..], CONTINUATION);
      IntLoses(|writes[0]|);
      if exists w <- writes :: |w| >= TWO31 {
        var w :| w in writes && |w| >= TWO31;
        assert w == writes[0] || w in writes[1..];
      }
    }
  }

  lemma EmptyHeader(opcode: nat)
    requires opcode < 16
    ensures |Header(true, opcode, None, 0)| == 2
  {}

  lemma IntLoses(n: nat)
    ensures n >= TWO31 ==> AsInt(n) + TWO31 <= n
  {}

  /** The receiver on one unmasked frame. */
  lemma OneFrame(fin: bool, code: nat, payload: seq<Byte>, rest: seq<Byte>, first: bool, opcode: nat)
    requires code < 16 && |payload| < TWO31
    requires code == if first then opcode else CONTINUATION
    ensures
      Reassemble(Header(fin, code, None, |payload|) + payload + rest, first, opcode)
      == if fin then Some((payload, rest))
         else match Reassemble(rest, false, opcode)
              case None => None
              case Some((more, after)) => Some((payload + more, after))
  {
    hide Header, Scanned;
    var h := Header(fin, code, None, |payload|);
    var wire := h + payload + rest;
    assert wire == h + (payload + rest);
    HeaderRoundTrip(fin, code, None, |payload|, payload + rest);
    assert wire[|h|..|h| + |payload|] == payload;
    assert wire[|h| + |payload|..] == rest;
  }

  lemma {:induction false} FragmentsReassemble(writes: seq<seq<Byte>>, first: bool, opcode: nat, after: seq<Byte>)
    requires opcode < 16 && forall w <- writes :: |w| < TWO31
    ensures Reassemble(Fragments(writes, if first then opcode else CONTINUATION) + after, first, opcode)
         == Some((Flatten(writes), after))
    decreases |writes|
  {
    hide Header, Reassemble;
    var code := if first then opcode else CONTINUATION;
    if writes == [] {
      OneFrame(true, code, [], after, first, opcode);
      assert Header(true, code, None, 0) + [] + after == Header(true, code, None, 0) + after;
    } else {
      var rest := Fragments(writes[1..], CONTINUATION);
      FragmentsReassemble(writes[1..], false, opcode, after);
      OneFrame(false, code, writes[0], rest + after, first, opcode);
      assert Header(false, code, None, |writes[0]|) + writes[0] + rest + after
          == Header(false, code, None, |writes[0]|) + writes[0] + (rest + after);
    }
  }

  /** The sending side of a WebSocket connection: it bypasses the I/O buffer. */
  class FrameWriter {
    const socket: Socket
    var opcode: nat
    var alive: bool

    constructor (socket: Socket)
      ensures this.socket == socket && opcode == 0 && alive
    {
      this.socket := socket;
      opcode, alive := 0, true;
    }

    /** wby_frame_begin, the switch to blocking mode aside. */
    method FrameBegin(opcode: nat)
      requires opcode < 16
      modifies this`opcode
      ensures this.opcode == opcode
    {
      this.opcode := opcode;
    }

    /** wby_write on a WebSocket: a fragment of its own, and continuation frames from
        here on. */
    method Write(bytes: seq<Byte>) returns (code: int)
      requires opcode < 16
      modifies this, socket
      ensures opcode == CONTINUATION && old(socket.failures) <= socket.failures
      ensures code == if socket.failures == old(socket.failures) then OK else -1
      ensures code == OK ==>
                var len := AsInt(|bytes|);
                socket.sent == old(socket.sent) + IntHeader(false, old(opcode), len) + Counted(bytes, len)
      ensures alive == (old(alive) && code == OK)
    {
      hide AsInt, IntHeader;
      var len := AsInt(|bytes|);
      var header := MakeHeader(opcode, len, false);
      opcode := CONTINUATION;
      var sent := socket.SendAll(header);
      if sent != OK {
        alive := false;
        return -1;
      }
      sent := socket.SendAll(Counted(bytes, len));
      if sent != OK {
        alive := false;
        return -1;
      }
      return OK;
    }

    /** wby_frame_end: the final frame is empty. */
    method FrameEnd()
      requires opcode < 16
      modifies this`alive, socket
      ensures old(socket.failures) <= socket.failures
      ensures alive == (old(alive) && socket.failures == old(socket.failures))
      ensures socket.failures == old(socket.failures) ==>
                socket.sent == old(socket.sent) + Header(true, opcode, None, 0)
    {
      var header := MakeHeader(opcode, 0, true);
      var code := socket.SendAll(header);
      if code != OK {
        alive := false;
      }
    }
  }

  /** A whole message: however it is written, the receiver reassembles it under the opcode it
      began with, as long as every write is below 2^31 bytes. Larger ones lose so much that
      it never does, unless the headers of two hundred million writes could make up for it.
      Empty writes do no harm here. */
  method SendMessage(w: FrameWriter, opcode: nat, writes: seq<seq<Byte>>)
    requires opcode < 16
    modifies w, w.socket
    ensures old(w.socket.failures) == w.socket.failures ==>
              && old(w.socket.sent) <= w.socket.sent
              && var arrived :=
                   Reassemble(w.socket.sent[|old(w.socket.sent)|..], true, opcode) == Some((Flatten(writes), []));
                 && ((forall x <- writes :: |x| < TWO31) ==> arrived)
                 && (10 * |writes| + 2 < TWO31 ==> (arrived <==> forall x <- writes :: |x| < TWO31))
  {
    hide Reassemble, Sent, IntHeader, AsInt, Counted;
    w.FrameBegin(opcode);
    ghost var start := w.socket.sent;
    assert writes[0..] == writes;
    for i := 0 to |writes|
      invariant w.opcode == if i == 0 then opcode else CONTINUATION
      invariant old(w.socket.failures) <= w.socket.failures
      invariant w.socket.failures == old(w.socket.failures) ==>
                  w.socket.sent + Sent(writes[i..], w.opcode) == start + Sent(writes, opcode)
    {
      NextSent(w.socket.sent, writes, i, w.opcode);
      var result := w.Write(writes[i]);
    }
    LastSent(writes, w.opcode);
    w.FrameEnd();
    ArrivedIff(writes, opcode);
  }

  lemma ArrivedIff(writes: seq<seq<Byte>>, opcode: nat)
    requires opcode < 16
    ensures var arrived := Reassemble(Sent(writes, opcode), true, opcode) == Some((Flatten(writes), []));
            && ((forall x <- writes :: |x| < TWO31) ==> arrived)
            && (10 * |writes| + 2 < TWO31 ==> (arrived <==> forall x <- writes :: |x| < TWO31))
  {
    hide Reassemble, Sent, Fragments, Flatten;
    if forall x <- writes :: |x| < TWO31 {
      SentFragments(writes, opcode);
      FragmentsReassemble(writes, true, opcode, []);
      assert Fragments(writes, opcode) + [] == Fragments(writes, opcode);
    } else {
      SentLength(writes, opcode);
      PayloadFits(Sent(writes, opcode), true, opcode);
    }
  }

  lemma NextSent(sent: seq<Byte>, writes: seq<seq<Byte>>, i: nat, code: nat)
    requires i < |writes| && code < 16
    ensures var len := AsInt(|writes[i]|);
            sent + Sent(writes[i..], code)
            == sent + IntHeader(false, code, len) + Counted(writes[i], len) + Sent(writes[i + 1..], CONTINUATION)
  {
    hide IntHeader, AsInt, Counted;
    assert writes[i..][1..] == writes[i + 1..] && writes[i..][0] == writes[i];
  }

  lemma LastSent(writes: seq<seq<Byte>>, code: nat)
    requires code < 16
    ensures Sent(writes[|writes|..], code) == Header(true, code, None, 0)
  {}

  // ---------- reading and unmasking ----------

  /** The exclusive or of two numbers, bit by bit from the lowest. */
  function XorBits(a: nat, b: nat, bits: nat): (r: nat)
    requires a < PowerOf2(bits) && b < PowerOf2(bits)
    ensures r < PowerOf2(bits)
  {
    if bits == 0 then 0 else 2 * XorBits(a / 2, b / 2, bits - 1) + XorBit(a % 2, b % 2)
  }

  function XorBit(x: nat, y: nat): (r: nat)
    ensures r < 2
  {
    if x == y then 0 else 1
  }

  function PowerOf2(n: nat): nat {
    if n == 0 then 1 else 2 * PowerOf2(n - 1)
  }

  lemma EightBits()
    ensures PowerOf2(8) == 256
  {
    assert PowerOf2(4) == 2 * PowerOf2(3) == 4 * PowerOf2(2) == 8 * PowerOf2(1) == 16;
    assert PowerOf2(8) == 2 * PowerOf2(7) == 4 * PowerOf2(6) == 8 * PowerOf2(5);
  }

  function XorByte(a: Byte, b: Byte): Byte {
    EightBits();
    XorBits(a, b, 8)
  }

  /** Masking and unmasking of section 5.3 of RFC 6455: byte `i` of the payload meets
      byte `i` modulo 4 of the key. `offset` is where `data` lies in the payload. */
  function Unmasked(data: seq<Byte>, mask: seq<Byte>, offset: nat): (r: seq<Byte>)
    requires |mask| == 4
    ensures |r| == |data|
  {
    seq(|data|, i requires 0 <= i < |data| => XorByte(data[i], mask[(offset + i) % 4]))
  }

  lemma UnmaskedSplits(a: seq<Byte>, b: seq<Byte>, mask: seq<Byte>, offset: nat)
    requires |mask| == 4
    ensures Unmasked(a + b, mask, offset) == Unmasked(a, mask, offset) + Unmasked(b, mask, offset + |a|)
  {}

  /** One bit more at the bottom of both numbers. */
  lemma XorStep(a: nat, x: nat, b: nat, y: nat, bits: nat)
    requires x < 2 && y < 2 && a < PowerOf2(bits) && b < PowerOf2(bits)
    ensures 2 * a + x < PowerOf2(bits + 1) && 2 * b + y < PowerOf2(bits + 1)
    ensures XorBits(2 * a + x, 2 * b + y, bits + 1) == 2 * XorBits(a, b, bits) + XorBit(x, y)
  {
    assert (2 * a + x) / 2 == a && (2 * a + x) % 2 == x;
    assert (2 * b + y) / 2 == b && (2 * b + y) % 2 == y;
  }

  lemma TwiceStep(a: nat, x: nat, b: nat, y: nat, bits: nat)
    requires x < 2 && y < 2 && a < PowerOf2(bits) && b < PowerOf2(bits)
    requires XorBits(XorBits(a, b, bits), b, bits) == a
    ensures 2 * a + x < PowerOf2(bits + 1) && 2 * b + y < PowerOf2(bits + 1)
    ensures XorBits(XorBits(2 * a + x, 2 * b + y, bits + 1), 2 * b + y, bits + 1) == 2 * a + x
  {
    hide XorBits, PowerOf2;
    XorStep(a, x, b, y, bits);
    XorStep(XorBits(a, b, bits), XorBit(x, y), b, y, bits);
  }

  lemma Halved(a: nat, bits: nat) returns (half: nat, x: nat)
    requires bits > 0 && a < PowerOf2(bits)
    ensures half < PowerOf2(bits - 1) && x < 2 && a == 2 * half + x
  {
    half, x := a / 2, a % 2;
  }

  lemma {:induction false} XorBitsTwice(a: nat, b: nat, bits: nat)
    requires a < PowerOf2(bits) && b < PowerOf2(bits)
    ensures XorBits(XorBits(a, b, bits), b, bits) == a
    decreases bits
  {
    if bits > 0 {
      hide XorBits, PowerOf2;
      var a', x := Halved(a, bits);
      var b', y := Halved(b, bits);
      XorBitsTwice(a', b', bits - 1);
      TwiceStep(a', x, b', y, bits - 1);
    }
  }

  lemma XorTwice(a: Byte, b: Byte)
    ensures XorByte(XorByte(a, b), b) == a
  {
    EightBits();
    XorBitsTwice(a, b, 8);
  }

  /** What the client masked comes back. */
  lemma UnmaskUndoesMask(data: seq<Byte>, mask: seq<Byte>, offset: nat)
    requires |mask| == 4
    ensures Unmasked(Unmasked(data, mask, offset), mask, offset) == data
  {
    hide XorByte;
    forall i | 0 <= i < |data|
      ensures Unmasked(Unmasked(data, mask, offset), mask, offset)[i] == data[i]
    {
      XorTwice(data[i], mask[(offset + i) % 4]);
    }
  }

  /** A connected socket, seen from its receiving side: the bytes still to arrive. */
  class Inlet {
    var input: seq<Byte>

    /** recv(2) into `dest` from index `at`: at least one byte, or an error. */
    method Receive(dest: array<Byte>, at: nat, len: nat) returns (n: int)
      requires 0 < len && at + len <= dest.Length
      modifies this, dest
      ensures n < 0 ==> input == old(input) && dest[..] == old(dest[..])
      ensures n >= 0 ==> 0 < n <= len && n <= |old(input)| && input == old(input)[n..]
      ensures n >= 0 ==> dest[..] == Spliced(old(dest[..]), at, old(input)[..n])
    {
      n := *;
      if n <= 0 || n > len || n > |input| {
        return -1;
      }
      Store(dest, at, input[..n]);
      input := input[n..];
    }
  }

  /** `dest` with `piece` written over it from index `at`. */
  function Spliced(dest: seq<Byte>, at: nat, piece: seq<Byte>): (r: seq<Byte>)
    requires at + |piece| <= |dest|
    ensures |r| == |dest|
  {
    dest[..at] + piece + dest[at + |piece|..]
  }

  lemma SplicedTwice(dest: seq<Byte>, at: nat, a: seq<Byte>, b: seq<Byte>)
    requires at + |a| + |b| <= |dest|
    ensures Spliced(Spliced(dest, at, a), at + |a|, b) == Spliced(dest, at, a + b)
  {}

  /** memcpy. */
  method Store(dest: array<Byte>, at: nat, piece: seq<Byte>)
    requires at + |piece| <= dest.Length
    modifies dest
    ensures dest[..] == Spliced(old(dest[..]), at, piece)
  {
    forall k | 0 <= k < |piece| {
      dest[at + k] := piece[k];
    }
  }

  /** The bytes `ahead` have been moved to `dest`, indices [at, at'). */
  ghost predicate Moved(dest: seq<Byte>, ahead: seq<Byte>, dest': seq<Byte>, ahead': seq<Byte>, at: nat, at': nat) {
    && at <= at' <= |dest| && at' - at <= |ahead|
    && ahead' == ahead[at' - at..]
    && dest' == Spliced(dest, at, ahead[..at' - at])
  }

  lemma MovedOn(d0: seq<Byte>, a0: seq<Byte>, d1: seq<Byte>, a1: seq<Byte>, d2: seq<Byte>, a2: seq<Byte>,
                at: nat, at': nat, at'': nat)
    requires Moved(d0, a0, d1, a1, at, at') && Moved(d1, a1, d2, a2, at', at'')
    ensures Moved(d0, a0, d2, a2, at, at'')
  {
    SplicedTwice(d0, at, a0[..at' - at], a1[..at'' - at']);
    assert a0[..at'' - at] == a0[..at' - at] + a1[..at'' - at'];
  }

  lemma MovedNothing(dest: seq<Byte>, ahead: seq<Byte>, at: nat)
    requires at <= |dest|
    ensures Moved(dest, ahead, dest, ahead, at, at)
  {}

  lemma FrontMoved(dest: seq<Byte>, front: seq<Byte>, back: seq<Byte>, at: nat, count: nat)
    requires count <= |front| && at + count <= |dest|
    ensures Moved(dest, front + back, Spliced(dest, at, front[..count]), front[count..] + back, at, at + count)
  {
    assert (front + back)[..count] == front[..count];
    assert (front + back)[count..] == front[count..] + back;
  }

  lemma AllMoved(dest: seq<Byte>, ahead: seq<Byte>, at: nat, count: nat)
    requires count <= |ahead| && at + count <= |dest|
    ensures Moved(dest, ahead, Spliced(dest, at, ahead[..count]), ahead[count..], at, at + count)
  {}

  class FrameReader {
    const inlet: Inlet
    const headerData: array<Byte>
    const ioData: array<Byte>
    var headerUsed: nat
    var headerBodyLeft: nat
    var ioUsed: nat
    var ioDataLeft: nat
    var bodyBytesRead: nat
    var websocket: bool
    var mask: Option<seq<Byte>>
    var alive: bool

    constructor (inlet: Inlet, headerData: array<Byte>, headerUsed: nat, headerBodyLeft: nat,
                 ioData: array<Byte>, ioUsed: nat, ioDataLeft: nat, mask: Option<seq<Byte>>)
      requires headerBodyLeft <= headerUsed <= headerData.Length && ioDataLeft <= ioUsed <= ioData.Length
      requires mask.Some? ==> |mask.value| == 4
      ensures Valid() && websocket && this.mask == mask && bodyBytesRead == 0
      ensures Ahead() == headerData[headerUsed - headerBodyLeft..headerUsed]
                         + (ioData[ioUsed - ioDataLeft..ioUsed] + inlet.input)
      ensures this.inlet == inlet && this.headerData == headerData && this.ioData == ioData
    {
      this.inlet, this.headerData, this.ioData := inlet, headerData, ioData;
      this.headerUsed, this.headerBodyLeft := headerUsed, headerBodyLeft;
      this.ioUsed, this.ioDataLeft := ioUsed, ioDataLeft;
      this.mask, bodyBytesRead, websocket, alive := mask, 0, true, true;
    }

    ghost predicate Valid()
      reads this
    {
      && headerBodyLeft <= headerUsed <= headerData.Length
      && ioDataLeft <= ioUsed <= ioData.Length
      && (mask.Some? ==> |mask.value| == 4)
    }

    /** The bytes still to be read: left in the request buffer, left in the I/O
        buffer, and yet to arrive. */
    ghost function Ahead(): seq<Byte>
      requires Valid()
      reads this, headerData, ioData, inlet
    {
      HeaderPart() + (IoPart() + inlet.input)
    }

    function HeaderPart(): seq<Byte>
      requires headerBodyLeft <= headerUsed <= headerData.Length
      reads this, headerData
    {
      headerData[headerUsed - headerBodyLeft..headerUsed]
    }

    function IoPart(): seq<Byte>
      requires ioDataLeft <= ioUsed <= ioData.Length
      reads this, ioData
    {
      ioData[ioUsed - ioDataLeft..ioUsed]
    }

    /** What a read delivers for raw payload bytes starting at `offset`. */
    function Delivered(raw: seq<Byte>, offset: nat): (r: seq<Byte>)
      requires mask.Some? ==> |mask.value| == 4
      reads this
      ensures |r| == |raw|
    {
      if websocket && mask.Some? then Unmasked(raw, mask.value, offset) else raw
    }

    /** The rest of the request buffer. */
    method FromHeader(dest: array<Byte>, len: nat) returns (at: nat)
      requires Valid() && len <= dest.Length && dest != headerData && dest != ioData
      modifies this`headerBodyLeft, this`bodyBytesRead, dest
      ensures Valid() && at <= len && bodyBytesRead == old(bodyBytesRead) + at
      ensures Moved(old(dest[..]), old(Ahead()), dest[..], Ahead(), 0, at)
      ensures headerBodyLeft == 0 || at == len
    {
      hide Moved, Spliced;
      at := 0;
      MovedNothing(dest[..], Ahead(), 0);
      if headerBodyLeft > 0 {
        at := if len > headerBodyLeft then headerBodyLeft else len;
        ghost var front := HeaderPart();
        FrontMoved(dest[..], front, IoPart() + inlet.input, 0, at);
        Store(dest, 0, HeaderPart()[..at]);
        headerBodyLeft := headerBodyLeft - at;
        bodyBytesRead := bodyBytesRead + at;
        assert HeaderPart() == front[at..];
      }
    }

    method MoveIo(dest: array<Byte>, at: nat, count: nat)
      requires Valid() && headerBodyLeft == 0 && count <= ioDataLeft
      requires at + count <= dest.Length && dest != headerData && dest != ioData
      modifies this`ioDataLeft, this`bodyBytesRead, dest
      ensures Valid() && ioDataLeft == old(ioDataLeft) - count && bodyBytesRead == old(bodyBytesRead) + count
      ensures Moved(old(dest[..]), old(Ahead()), dest[..], Ahead(), at, at + count)
    {
      hide Moved, Spliced;
      ghost var front := IoPart();
      FrontMoved(dest[..], front, inlet.input, at, count);
      assert Ahead() == front + inlet.input;
      Store(dest, at, IoPart()[..count]);
      ioDataLeft := ioDataLeft - count;
      bodyBytesRead := bodyBytesRead + count;
      assert IoPart() == front[count..];
      assert Ahead() == IoPart() + inlet.input;
    }

    /** The rest of the I/O buffer; when nothing more is wanted the copy is empty. */
    method FromIo(dest: array<Byte>, at: nat, len: nat) returns (at': nat)
      requires Valid() && at <= len <= dest.Length && dest != headerData && dest != ioData
      requires headerBodyLeft == 0 || at == len
      modifies this`ioDataLeft, this`bodyBytesRead, dest
      ensures Valid() && at <= at' <= len && bodyBytesRead == old(bodyBytesRead) + (at' - at)
      ensures Moved(old(dest[..]), old(Ahead()), dest[..], Ahead(), at, at')
      ensures (headerBodyLeft == 0 && ioDataLeft == 0) || at' == len
    {
      hide Moved, Spliced, Ahead;
      at' := at;
      MovedNothing(dest[..], Ahead(), at);
      if ioDataLeft > 0 && at < len {
        var count := if len - at > ioDataLeft then ioDataLeft else len - at;
        MoveIo(dest, at, count);
        at' := at + count;
      }
    }

    /** With both buffers used up, what comes is what is still to arrive. */
    lemma OnlyInlet()
      requires Valid() && headerBodyLeft == 0 && ioDataLeft == 0
      ensures Ahead() == inlet.input
    {}

    /** One turn of the receive loop. */
    method ReceiveOnce(dest: array<Byte>, at: nat, len: nat) returns (n: int)
      requires Valid() && at < len <= dest.Length && dest != headerData && dest != ioData
      requires headerBodyLeft == 0 && ioDataLeft == 0
      modifies this`bodyBytesRead, this`alive, dest, inlet
      ensures Valid() && n <= len - at && n != 0
      ensures n < 0 ==> !alive && bodyBytesRead == old(bodyBytesRead)
      ensures n > 0 ==> alive == old(alive) && bodyBytesRead == old(bodyBytesRead) + n
      ensures Moved(old(dest[..]), old(Ahead()), dest[..], Ahead(), at, if n < 0 then at else at + n)
    {
      hide Moved, Spliced, Ahead, HeaderPart, IoPart;
      ghost var ahead := inlet.input;
      OnlyInlet();
      MovedNothing(dest[..], ahead, at);
      ghost var was := dest[..];
      n := inlet.Receive(dest, at, len - at);
      if n < 0 {
        alive := false;
      } else {
        AllMoved(was, ahead, at, n);
        bodyBytesRead := bodyBytesRead + n;
      }
      OnlyInlet();
    }

    /** The receive loop. It ends with an error, or with all that was asked for. */
    method FromSocket(dest: array<Byte>, at: nat, len: nat) returns (code: int, at': nat)
      requires Valid() && at <= len <= dest.Length && dest != headerData && dest != ioData
      requires (headerBodyLeft == 0 && ioDataLeft == 0) || at == len
      modifies this`bodyBytesRead, this`alive, dest, inlet
      ensures Valid() && at <= at' <= len && bodyBytesRead == old(bodyBytesRead) + (at' - at)
      ensures Moved(old(dest[..]), old(Ahead()), dest[..], Ahead(), at, at')
      ensures code == 0 ==> at' == len && alive == old(alive)
      ensures code != 0 ==> code < 0 && !alive
    {
      hide Moved, Ahead;
      at' := at;
      MovedNothing(dest[..], Ahead(), at);
      while at' < len
        invariant Valid() && at <= at' <= len && alive == old(alive)
        invariant bodyBytesRead == old(bodyBytesRead) + (at' - at)
        invariant Moved(old(dest[..]), old(Ahead()), dest[..], Ahead(), at, at')
        decreases len - at'
      {
        ghost var d, a := dest[..], Ahead();
        var n := ReceiveOnce(dest, at', len);
        MovedOn(old(dest[..]), old(Ahead()), d, a, dest[..], Ahead(), at, at', if n < 0 then at' else at' + n);
        if n < 0 {
          return n, at';
        }
        at' := at' + n;
      }
      return 0, at';
    }

    /** wby_read up to the unmasking: buffered bytes first, then the socket. */
    method ReadRaw(dest: array<Byte>, len: nat) returns (code: int, ghost got: nat)
      requires Valid() && len <= dest.Length && dest != headerData && dest != ioData
      modifies this`headerBodyLeft, this`ioDataLeft, this`bodyBytesRead, this`alive, dest, inlet
      ensures Valid() && got <= len && bodyBytesRead == old(bodyBytesRead) + got
      ensures Moved(old(dest[..]), old(Ahead()), dest[..], Ahead(), 0, got)
      ensures code == 0 ==> got == len && alive == old(alive)
      ensures code != 0 ==> code < 0 && !alive
    {
      hide Moved, Ahead;
      ghost var d0, a0 := dest[..], Ahead();
      var at := FromHeader(dest, len);
      ghost var d1, a1 := dest[..], Ahead();
      var at' := FromIo(dest, at, len);
      MovedOn(d0, a0, d1, a1, dest[..], Ahead(), 0, at, at');
      ghost var d2, a2 := dest[..], Ahead();
      var at'';
      code, at'' := FromSocket(dest, at', len);
      MovedOn(d0, a0, d2, a2, dest[..], Ahead(), 0, at', at'');
      got := at'';
    }

    /** The unmasking loop at the end of wby_read. */
    method Unmask(dest: array<Byte>, startPos: nat, endPos: nat)
      requires Valid() && mask.Some? && startPos <= endPos && endPos - startPos <= dest.Length
      modifies dest
      ensures dest[..] == Spliced(old(dest[..]), 0, Unmasked(old(dest[..endPos - startPos]), mask.value, startPos))
    {
      hide XorByte;
      ghost var raw := dest[..endPos - startPos];
      for i := startPos to endPos
        invariant forall k :: 0 <= k < i - startPos ==> dest[k] == Unmasked(raw, mask.value, startPos)[k]
        invariant forall k :: i - startPos <= k < dest.Length ==> dest[k] == old(dest[k])
      {
        dest[i - startPos] := XorByte(dest[i - startPos], mask.value[i % 4]);
      }
    }

    /** wby_read. A successful read fills the caller's buffer with the next bytes of
        the stream, unmasked at their own place in the payload; a failed one has
        consumed `got` of them and leaves those masked. */
    method Read(dest: array<Byte>, len: nat) returns (code: int, ghost got: nat)
      requires Valid() && len <= dest.Length && dest != headerData && dest != ioData
      modifies this`headerBodyLeft, this`ioDataLeft, this`bodyBytesRead, this`alive, dest, inlet
      ensures Valid() && got <= len && got <= |old(Ahead())| && Ahead() == old(Ahead())[got..]
      ensures bodyBytesRead == old(bodyBytesRead) + got
      ensures code == 0 ==> got == len && alive == old(alive)
      ensures code == 0 ==>
                dest[..] == Spliced(old(dest[..]), 0, Delivered(old(Ahead())[..len], old(bodyBytesRead)))
      ensures code != 0 ==> code < 0 && !alive
      ensures code != 0 ==> dest[..] == Spliced(old(dest[..]), 0, old(Ahead())[..got])
    {
      hide Ahead, Unmasked;
      var startPos := bodyBytesRead;
      code, got := ReadRaw(dest, len);
      if code < 0 {
        return;
      }
      assert dest[..len] == old(Ahead())[..len];
      if websocket && mask.Some? {
        Unmask(dest, startPos, bodyBytesRead);
      }
    }
  }

  function Sum(lengths: seq<nat>): nat {
    if lengths == [] then 0 else Sum(lengths[..|lengths| - 1]) + lengths[|lengths| - 1]
  }

  /** One read into a buffer of its own. */
  method ReadPiece(r: FrameReader, len: nat) returns (ok: bool, piece: seq<Byte>)
    requires r.Valid()
    modifies r`headerBodyLeft, r`ioDataLeft, r`bodyBytesRead, r`alive, r.inlet
    ensures r.Valid()
    ensures ok ==> len <= |old(r.Ahead())| && r.Ahead() == old(r.Ahead())[len..]
    ensures ok ==> piece == r.Delivered(old(r.Ahead())[..len], old(r.bodyBytesRead))
    ensures ok ==> r.bodyBytesRead == old(r.bodyBytesRead) + len
  {
    hide Unmasked, Moved;
    var dest := new Byte[len];
    var code;
    ghost var got;
    code, got := r.Read(dest, len);
    ok := code == 0;
    piece := dest[..];
  }

  lemma UnmaskedOn(ahead: seq<Byte>, n: nat, len: nat, mask: seq<Byte>)
    requires n + len <= |ahead| && |mask| == 4
    ensures Unmasked(ahead[..n + len], mask, 0) == Unmasked(ahead[..n], mask, 0) + Unmasked(ahead[n..][..len], mask, n)
    ensures ahead[n..][len..] == ahead[n + len..]
  {
    UnmaskedSplits(ahead[..n], ahead[n..][..len], mask, 0);
    assert ahead[..n + len] == ahead[..n] + ahead[n..][..len];
  }

  lemma SumStep(lengths: seq<nat>, i: nat)
    requires i < |lengths|
    ensures Sum(lengths[..i + 1]) == Sum(lengths[..i]) + lengths[i]
  {
    assert lengths[..i + 1][..i] == lengths[..i];
  }

  /** Where a reader of a masked frame stands after `n` bytes of its payload. */
  ghost predicate ReadSoFar(r: FrameReader, ahead: seq<Byte>, mask: seq<Byte>, n: nat)
    reads r, r.headerData, r.ioData, r.inlet
  {
    && r.Valid() && r.websocket && r.mask == Some(mask) && |mask| == 4
    && r.bodyBytesRead == n <= |ahead| && r.Ahead() == ahead[n..]
  }

  method ReadOn(r: FrameReader, len: nat, ghost ahead: seq<Byte>, ghost mask: seq<Byte>, ghost n: nat)
    returns (ok: bool, piece: seq<Byte>)
    requires ReadSoFar(r, ahead, mask, n)
    modifies r`headerBodyLeft, r`ioDataLeft, r`bodyBytesRead, r`alive, r.inlet
    ensures r.Valid()
    ensures ok ==> ReadSoFar(r, ahead, mask, n + len) && |piece| == len
    ensures ok ==> Unmasked(ahead[..n + len], mask, 0) == Unmasked(ahead[..n], mask, 0) + piece
  {
    hide Unmasked;
    ok, piece := ReadPiece(r, len);
    if ok {
      UnmaskedOn(ahead, n, len, mask);
    }
  }

  lemma NothingRead(ahead: seq<Byte>, mask: seq<Byte>)
    requires |mask| == 4
    ensures ahead[0..] == ahead && Unmasked(ahead[..0], mask, 0) == []
  {}

  /** Reading a masked frame in pieces of any lengths: as long as no read fails, the
      pieces together are the payload unmasked once from its start. */
  method ReadPieces(r: FrameReader, lengths: seq<nat>) returns (ok: bool, all: seq<Byte>)
    requires r.Valid() && r.websocket && r.mask.Some? && r.bodyBytesRead == 0
    modifies r`headerBodyLeft, r`ioDataLeft, r`bodyBytesRead, r`alive, r.inlet
    ensures r.Valid()
    ensures ok ==> Sum(lengths) <= |old(r.Ahead())|
    ensures ok ==> all == Unmasked(old(r.Ahead())[..Sum(lengths)], old(r.mask).value, 0)
    ensures ok ==> r.bodyBytesRead == |all| == Sum(lengths)
  {
    all := [];
    ok := true;
    ghost var ahead := r.Ahead();
    ghost var mask := r.mask.value;
    SumStart(lengths);
    NothingRead(ahead, mask);
    assert ReadSoFar(r, ahead, mask, 0);
    hide Unmasked, Sum, FrameReader.Ahead;
    for i := 0 to |lengths|
      invariant ok && ReadSoFar(r, ahead, mask, Sum(lengths[..i]))
      invariant all == Unmasked(ahead[..Sum(lengths[..i])], mask, 0)
    {
      SumStep(lengths, i);
      var piece;
      ok, piece := ReadOn(r, lengths[i], ahead, mask, Sum(lengths[..i]));
      if !ok {
        return;
      }
      all := all + piece;
    }
    assert lengths[..|lengths|] == lengths;
  }

  lemma SumStart(lengths: seq<nat>)
    ensures Sum(lengths[..0]) == 0
  {}
}
