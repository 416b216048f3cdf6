/** The output half of a mumux connection: the I/O buffer of mumux/connection.c,
    the writes of mumux/request.c and the response life cycle of mumux/response.c,
    down to the socket. */
module Connection {
  import opened Bytes
  import opened Numerals
  import opened Options
  import opened Sequences

  const OK: int := 0
  const FAILED: int := 1

  /** A 32-bit pattern read as a C int. */
  function AsInt(n: nat): (i: int)
    ensures i <= n && i < TWO31 && (n < TWO31 ==> i == n)
  {
    if n % TWO32 < TWO31 then n % TWO32 else n % TWO32 - TWO32
  }

  /** The bytes that a length in an int gets out of `data`. */
  function Counted(data: seq<Byte>, len: int): seq<Byte>
    requires len <= |data|
  {
    if len > 0 then data[..len] else []
  }

  /** A connected socket, seen from its sending side. The kernel takes what it
      likes of each `send`, or refuses. */
  class Socket {
    var sent: seq<Byte>

    /** How many calls the kernel refused. */
    ghost var failures: nat

    /** send(2): the number of bytes taken, or an error when not positive. */
    method Send(data: seq<Byte>) returns (n: int)
      requires data != []
      modifies this
      ensures n <= |data|
      ensures sent == if n > 0 then old(sent) + data[..n] else old(sent)
      ensures failures == if n > 0 then old(failures) else old(failures) + 1
    {
      n := *;
      if n > |data| {
        n := |data|;
      }
      if n > 0 {
        sent := sent + data[..n];
      } else {
        failures := failures + 1;
      }
    }

    /** wby_socket_send: keep sending until everything is out. */
    method SendAll(data: seq<Byte>) returns (code: int)
      modifies this
      ensures code == if failures == old(failures) then OK else FAILED
      ensures old(failures) <= failures
      ensures code == OK ==> sent == old(sent) + data
      ensures old(sent) <= sent <= old(sent) + data
    {
      var position := 0;
      while position < |data|
        invariant 0 <= position <= |data|
        invariant sent == old(sent) + data[..position] && failures == old(failures)
      {
        var n := Send(data[position..]);
        if n <= 0 {
          return FAILED;
        }
        assert data[..position] + data[position..][..n] == data[..position + n];
        position := position + n;
      }
      return OK;
    }
  }

  // ---------- chunked transfer coding ----------

  const CR: Byte := 13
  const LF: Byte := 10

  /** The final chunk with the empty trailer. */
  const LAST_CHUNK: seq<Byte> := [48, CR, LF, CR, LF]

  /** The bytes wby_write puts out for one write of a chunked response. */
  function Chunk(data: seq<Byte>): seq<Byte> {
    Hex(|data|) + [CR, LF] + data + [CR, LF]
  }

  /** The same when the length does not fit an int: the size is printed as unsigned, and
      the data counted as signed. */
  function WrappedChunk(data: seq<Byte>): seq<Byte> {
    Hex(|data| % TWO32) + [CR, LF] + Counted(data, AsInt(|data|)) + [CR, LF]
  }

  function Chunks(writes: seq<seq<Byte>>): seq<Byte> {
    if writes == [] then [] else Chunk(writes[0]) + Chunks(writes[1..])
  }

  /** The chunk size at the start of `wire`: hexadecimal digits ended by CR LF.
      Yields the size and what follows. */
  function ReadSize(wire: seq<Byte>, size: nat): Option<(nat, seq<Byte>)> {
    if wire == [] then None
    else if HexValue(wire[0]) >= 0 then ReadSize(wire[1..], size * 16 + HexValue(wire[0]))
    else if [CR, LF] <= wire then Some((size, wire[2..]))
    else None
  }

  /** The receiver of section 4.1 of RFC 7230: the body, and what follows it. */
  function DecodeChunks(wire: seq<Byte>): Option<(seq<Byte>, seq<Byte>)>
    decreases |wire|
  {
    if wire == [] || HexValue(wire[0]) < 0 then None
    else
      ReadSizeShrinks(wire, 0);
      match ReadSize(wire, 0)
      case None => None
      case Some((size, rest)) =>
        if size == 0 then
          if [CR, LF] <= rest then Some(([], rest[2..])) else None
        else if |rest| < size + 2 || rest[size..size + 2] != [CR, LF] then None
        else
          match DecodeChunks(rest[size + 2..])
          case None => None
          case Some((body, after)) => Some((rest[..size] + body, after))
  }

  lemma {:induction false} ReadSizeShrinks(wire: seq<Byte>, size: nat)
    ensures var r := ReadSize(wire, size); r.Some? ==> |r.value.1| < |wire|
  {
    if wire != [] && HexValue(wire[0]) >= 0 {
      ReadSizeShrinks(wire[1..], size * 16 + HexValue(wire[0]));
    }
  }

  lemma {:induction false} PowerGrows(size: nat, digits: nat)
    ensures size * Power16(digits) * 16 == size * Power16(digits + 1)
  {}

  /** Printed digits read back as the number they print. */
  lemma {:induction false} ReadHex(n: nat, size: nat, after: seq<Byte>)
    ensures ReadSize(Hex(n) + after, size) == ReadSize(after, size * Power16(|Hex(n)|) + n)
  {
    if n < 16 {
      HexDigitValue(n);
      assert (Hex(n) + after)[1..] == after;
      assert Power16(1) == 16;
    } else {
      var d := [HexDigit(n % 16)];
      HexDigitValue(n % 16);
      assert Hex(n) + after == Hex(n / 16) + (d + after);
      ReadHex(n / 16, size, d + after);
      var size' := size * Power16(|Hex(n / 16)|) + n / 16;
      assert (d + after)[1..] == after;
      PowerGrows(size, |Hex(n / 16)|);
      assert size' * 16 + n % 16 == size * Power16(|Hex(n)|) + n;
    }
  }

  lemma {:induction false} HexStartsWithDigit(n: nat)
    ensures HexValue(Hex(n)[0]) >= 0
  {
    if n < 16 {
      HexDigitValue(n);
    } else {
      HexStartsWithDigit(n / 16);
    }
  }

  lemma ReadSizeLine(n: nat, after: seq<Byte>)
    ensures ReadSize(Hex(n) + ([CR, LF] + after), 0) == Some((n, after))
  {
    hide Hex, HexValue;
    ReadHex(n, 0, [CR, LF] + after);
    CrIsNoDigit();
    assert ([CR, LF] + after)[2..] == after;
  }

  lemma ReadChunkSize(data: seq<Byte>, after: seq<Byte>)
    ensures Chunk(data) + after != [] && HexValue((Chunk(data) + after)[0]) >= 0
    ensures ReadSize(Chunk(data) + after, 0) == Some((|data|, data + [CR, LF] + after))
  {
    hide Hex, HexValue;
    var tail := data + [CR, LF] + after;
    assert Chunk(data) + after == Hex(|data|) + ([CR, LF] + tail);
    HexStartsWithDigit(|data|);
    ReadSizeLine(|data|, tail);
  }

  /** The data and the chunk arrive as they are if and only if an int holds the length. */
  lemma WriteFitsIff(data: seq<Byte>)
    ensures Counted(data, AsInt(|data|)) == data <==> |data| < TWO31
    ensures WrappedChunk(data) == Chunk(data) <==> |data| < TWO31
  {
    hide Hex, ReadSize, AsInt;
    var n, m, front := |data|, |data| % TWO32, Counted(data, AsInt(|data|));
    ShorterFrom31(n);
    ReadSizeLine(n, data + [CR, LF]);
    ReadSizeLine(m, front + [CR, LF]);
    assert Chunk(data) == Hex(n) + ([CR, LF] + (data + [CR, LF]));
    assert WrappedChunk(data) == Hex(m) + ([CR, LF] + (front + [CR, LF]));
    if n < TWO31 {
      assert front == data;
    } else {
      assert |front| < n;
    }
  }

  lemma CountedWhole(data: seq<Byte>)
    ensures Counted(data, |data|) == data
  {}

  lemma ShorterFrom31(n: nat)
    ensures n >= TWO31 ==> AsInt(n) < n
    ensures n < TWO31 ==> n % TWO32 == n
  {}

  lemma CrIsNoDigit()
    ensures HexValue(CR) < 0
  {}

  /** One chunk at a time: a non-empty chunk adds its data to the body, an empty one
      is the last. */
  lemma DecodeOneChunk(data: seq<Byte>, after: seq<Byte>)
    ensures data == [] ==> DecodeChunks(Chunk(data) + after) == Some(([], after))
    ensures data != [] && DecodeChunks(after).Some? ==>
              var rest := DecodeChunks(after).value;
              DecodeChunks(Chunk(data) + after) == Some((data + rest.0, rest.1))
  {
    hide Chunk, ReadSize, HexValue;
    ReadChunkSize(data, after);
    var rest := data + [CR, LF] + after;
    assert rest[|data|..|data| + 2] == [CR, LF];
    assert rest[|data| + 2..] == after;
    assert rest[..|data|] == data;
  }

  lemma LastChunkIsEmptyChunk()
    ensures LAST_CHUNK == Chunk([])
  {
    assert Hex(0) == [48];
  }

  /** Non-empty writes followed by the last chunk decode to what was written. */
  lemma {:induction false} ChunksDecode(writes: seq<seq<Byte>>, after: seq<Byte>)
    requires forall w <- writes :: w != []
    ensures DecodeChunks(Chunks(writes) + LAST_CHUNK + after) == Some((Flatten(writes), after))
  {
    hide DecodeChunks, Chunk;
    if writes == [] {
      LastChunkIsEmptyChunk();
      DecodeOneChunk([], after);
      assert Chunks(writes) + LAST_CHUNK + after == Chunk([]) + after;
    } else {
      assert writes[0] in writes && forall w <- writes[1..] :: w in writes;
      var rest := Chunks(writes[1..]) + LAST_CHUNK + after;
      ChunksDecode(writes[1..], after);
      DecodeOneChunk(writes[0], rest);
      assert Chunks(writes) + LAST_CHUNK + after == Chunk(writes[0]) + rest;
    }
  }

  /** An empty write ends the body there: the receiver takes it for the last chunk
      and finds the remaining chunks behind the message. */
  lemma EmptyWriteEndsBody(before: seq<seq<Byte>>, after: seq<Byte>)
    requires forall w <- before :: w != []
    ensures DecodeChunks(Chunks(before) + Chunk([]) + after) == Some((Flatten(before), after))
  {
    LastChunkIsEmptyChunk();
    ChunksDecode(before, after);
  }

  lemma {:induction false} ChunksSplit(a: seq<seq<Byte>>, b: seq<seq<Byte>>)
    ensures Chunks(a + b) == Chunks(a) + Chunks(b)
  {
    hide Chunk;
    if a == [] {
      assert a + b == b;
    } else {
      ChunksSplit(a[1..], b);
      assert (a + b)[1..] == a[1..] + b;
      assert Chunks(a + b) == Chunk(a[0]) + Chunks(a[1..] + b);
    }
  }

  /** The body is delivered, with nothing left over, exactly when no write was
      empty. */
  lemma DeliveredIffNoEmptyWrite(writes: seq<seq<Byte>>)
    ensures DecodeChunks(Chunks(writes) + LAST_CHUNK) == Some((Flatten(writes), []))
       <==> forall w <- writes :: w != []
  {
    hide DecodeChunks, Chunk;
    if forall w <- writes :: w != [] {
      ChunksDecode(writes, []);
      assert Chunks(writes) + LAST_CHUNK + [] == Chunks(writes) + LAST_CHUNK;
    } else {
      var i := FirstEmpty(writes);
      var after := Chunks(writes[i + 1..]) + LAST_CHUNK;
      EmptyWriteEndsBody(writes[..i], after);
      assert writes == writes[..i] + ([[]] + writes[i + 1..]);
      ChunksSplit(writes[..i], [[]] + writes[i + 1..]);
      assert ([[]] + writes[i + 1..])[1..] == writes[i + 1..];
      assert Chunks(writes) + LAST_CHUNK == Chunks(writes[..i]) + Chunk([]) + after;
    }
  }

  lemma FirstEmpty(writes: seq<seq<Byte>>) returns (i: nat)
    requires !forall w <- writes :: w != []
    ensures i < |writes| && writes[i] == [] && forall w <- writes[..i] :: w != []
  {
    i := 0;
    while writes[i] != []
      invariant i < |writes| && forall w <- writes[..i] :: w != []
      invariant exists j :: i <= j < |writes| && writes[j] == []
      decreases |writes| - i
    {
      assert writes[..i + 1] == writes[..i] + [writes[i]];
      i := i + 1;
    }
  }

  // ---------- the connection ----------

  datatype State = Request | SendContinue | Serve | WebSocket

  class OutputConnection {
    const socket: Socket
    const data: array<Byte>
    const max: nat
    var used: nat
    var state: State
    var alive: bool
    var chunked: bool
    var closed: bool

    /** Everything pushed so far, and whether nothing went wrong on the way: every
        push in the serving state, no send refused. */
    ghost var pushed: seq<Byte>
    ghost var intact: bool

    /** What has left and what waits is what was pushed, in order. */
    ghost predicate Valid()
      reads this, data, socket
    {
      && used <= max <= data.Length
      && (intact ==> socket.sent + data[..used] == pushed)
    }

    constructor (socket: Socket, max: nat)
      ensures Valid() && this.socket == socket && fresh(data) && this.max == max
      ensures used == 0 && state == Serve && intact && !chunked && !closed && pushed == socket.sent
    {
      this.socket := socket;
      this.max := max;
      data := new Byte[max];
      used, state, alive, chunked, closed := 0, Serve, true, false, false;
      pushed, intact := socket.sent, true;
    }

    /** wby_connection_reset, as far as output goes. What still waits in the buffer is lost. */
    method Reset()
      requires Valid()
      modifies this`used, this`state, this`intact
      ensures Valid() && used == 0 && state == Request
      ensures intact == (old(intact) && old(used) == 0)
      ensures old(intact) ==> (socket.sent + data[..used] == pushed <==> old(used) == 0)
    {
      intact := intact && used == 0;
      used := 0;
      state := Request;
    }

    /** wby_socket_flush: the buffer is emptied only when all of it went out. */
    method Flush() returns (code: int)
      requires Valid()
      modifies this`used, this`intact, socket
      ensures Valid() && code == (if socket.failures == old(socket.failures) then OK else FAILED)
      ensures intact == (old(intact) && code == OK) && old(socket.failures) <= socket.failures
      ensures used == if code == OK then 0 else old(used)
      ensures old(socket.sent) <= socket.sent <= old(socket.sent + data[..used])
    {
      if used > 0 {
        code := socket.SendAll(data[..used]);
        if code != OK {
          intact := false;
          return FAILED;
        }
      }
      used := 0;
      return OK;
    }

    /** memcpy onto the end of the buffer. */
    method Fill(piece: seq<Byte>)
      requires Valid() && used + |piece| <= max
      modifies this`used, this`pushed, data
      ensures Valid() && used == old(used) + |piece| && pushed == old(pushed) + piece
      ensures data[..used] == old(data[..used]) + piece
    {
      forall k | 0 <= k < |piece| {
        data[used + k] := piece[k];
      }
      used := used + |piece|;
      pushed := pushed + piece;
      assert data[..used] == old(data[..used]) + piece;
    }

    /** wby_connection_push of the first `len` bytes: append to the buffer, flushing
        whenever it is full, and send directly what would fill it again. A push of none
        flushes, one of a negative length does nothing. */
    method Push(bytes: seq<Byte>, len: int) returns (code: int)
      requires Valid() && len <= |bytes|
      modifies this`used, this`pushed, this`intact, socket, data
      ensures Valid() && old(socket.failures) <= socket.failures
      ensures code == if state == Serve && socket.failures == old(socket.failures) then OK else FAILED
      ensures intact == (old(intact) && code == OK)
      ensures code == OK ==> pushed == old(pushed) + Counted(bytes, len)
      ensures code == OK && len == 0 ==> used == 0
    {
      if state != Serve {
        intact := false;
        return FAILED;
      }
      if len == 0 {
        code := Flush();
        return;
      }
      var done: nat := 0;
      while done < len
        invariant Valid() && (done <= len || done == 0)
        invariant intact == old(intact) && pushed == old(pushed) + bytes[..done]
        invariant socket.failures == old(socket.failures)
        decreases len - done, used
      {
        ghost var from := done;
        var count;
        count, code := Turn(bytes[done..len]);
        done := done + count;
        assert bytes[..from] + bytes[from..len][..count] == bytes[..done];
        if code != OK {
          return;
        }
      }
      return OK;
    }

    /** One turn of the push loop on the bytes still to go: how many were disposed
        of. */
    method Turn(rest: seq<Byte>) returns (count: nat, code: int)
      requires Valid() && rest != []
      modifies this`used, this`pushed, this`intact, socket, data
      ensures Valid() && count <= |rest| && old(socket.failures) <= socket.failures
      ensures code == if socket.failures == old(socket.failures) then OK else FAILED
      ensures intact == (old(intact) && code == OK)
      ensures code == OK ==> pushed == old(pushed) + rest[..count]
      ensures code == OK && count == 0 ==> used < old(used)
    {
      var space := max - used;
      count := if |rest| < space then |rest| else space;
      Fill(rest[..count]);
      code := OK;
      if used == max {
        code := Flush();
        if code != OK {
          return;
        }
        if |rest| - count >= max {
          assert rest[..count] + rest[count..] == rest[..|rest|];
          code := SendRest(rest[count..]);
          count := |rest|;
        }
      }
    }

    /** The direct send behind an emptied buffer. */
    method SendRest(bytes: seq<Byte>) returns (code: int)
      requires Valid() && used == 0
      modifies this`pushed, this`intact, socket
      ensures Valid() && used == 0 && old(socket.failures) <= socket.failures
      ensures code == if socket.failures == old(socket.failures) then OK else FAILED
      ensures intact == (old(intact) && code == OK)
      ensures pushed == old(pushed) + bytes
    {
      code := socket.SendAll(bytes);
      pushed := pushed + bytes;
      if code != OK {
        intact := false;
      }
    }

    /** wby_write on an HTTP connection: one chunk, or the bytes themselves, as far as an
        int holds their number. Only the last push's code is returned. */
    method Write(bytes: seq<Byte>) returns (code: int)
      requires Valid()
      modifies this`used, this`pushed, this`intact, socket, data
      ensures Valid() && old(socket.failures) <= socket.failures
      ensures intact == (old(intact) && state == Serve && socket.failures == old(socket.failures))
      ensures intact ==>
                pushed == old(pushed) + if chunked then WrappedChunk(bytes) else Counted(bytes, AsInt(|bytes|))
      ensures intact && |bytes| < TWO31 ==> pushed == old(pushed) + if chunked then Chunk(bytes) else bytes
    {
      hide AsInt, Counted, Chunk, WrappedChunk;
      WriteFitsIff(bytes);
      if chunked {
        code := WriteChunk(bytes);
      } else {
        code := Push(bytes, AsInt(|bytes|));
      }
    }

    method WriteChunk(bytes: seq<Byte>) returns (code: int)
      requires Valid()
      modifies this`used, this`pushed, this`intact, socket, data
      ensures Valid() && old(socket.failures) <= socket.failures
      ensures intact == (old(intact) && state == Serve && socket.failures == old(socket.failures))
      ensures intact ==> pushed == old(pushed) + WrappedChunk(bytes)
    {
      hide Hex, AsInt, Counted;
      var header := Hex(|bytes| % TWO32) + [CR, LF];
      CountedWhole(header);
      CountedWhole([CR, LF]);
      code := Push(header, |header|);
      code := Push(bytes, AsInt(|bytes|));
      code := Push([CR, LF], 2);
    }

    /** wby_response_begin, the formatted status line and headers given: they go out
        unchunked, then a negative content length turns chunking on. */
    method ResponseBegin(head: seq<Byte>, contentLength: int)
      requires Valid() && !chunked && |head| < TWO31
      modifies this`used, this`pushed, this`intact, this`chunked, socket, data
      ensures Valid() && chunked == (contentLength < 0) && old(socket.failures) <= socket.failures
      ensures intact == (old(intact) && state == Serve && socket.failures == old(socket.failures))
      ensures intact ==> pushed == old(pushed) + head
    {
      var code := Write(head);
      if contentLength < 0 {
        chunked := true;
      }
    }

    /** wby_response_end: the last chunk, the flush, and the close of a connection
        whose request had no body. */
    method ResponseEnd(requestLength: int)
      requires Valid()
      modifies this`used, this`pushed, this`intact, this`chunked, this`closed, this`alive, socket, data
      ensures Valid() && !chunked && old(socket.failures) <= socket.failures
      ensures intact == (old(intact) && state == Serve && socket.failures == old(socket.failures))
      ensures intact ==> pushed == old(pushed) + if old(chunked) then LAST_CHUNK else []
      ensures intact ==> used == 0 && socket.sent == pushed
      ensures closed == (old(closed) || requestLength == 0)
    {
      if chunked {
        var code := Push(LAST_CHUNK, |LAST_CHUNK|);
        chunked := false;
      }
      assert pushed + [] == pushed;
      var code := Push([], 0);
      if requestLength == 0 {
        closed := true;
        alive := false;
      }
    }
  }

  /** A whole response with chunked body: when no send failed, the receiver finds the
      head, then a body that is the writes in order, exactly when none was empty. */
  method Respond(c: OutputConnection, head: seq<Byte>, writes: seq<seq<Byte>>, requestLength: int)
    requires c.Valid() && c.intact && c.state == Serve && !c.chunked && |head| < TWO31
    requires forall w <- writes :: |w| < TWO31
    modifies c, c.socket, c.data
    ensures c.Valid()
    ensures c.socket.failures == old(c.socket.failures) ==>
              && old(c.pushed) + head <= c.socket.sent
              && (DecodeChunks(c.socket.sent[|old(c.pushed) + head|..]) == Some((Flatten(writes), []))
                  <==> forall w <- writes :: w != [])
  {
    hide Chunk, DecodeChunks, Flatten;
    c.ResponseBegin(head, -1);
    ghost var start := old(c.pushed) + head;
    assert Chunks(writes[..0]) == [];
    for i := 0 to |writes|
      invariant c.Valid() && c.chunked && c.state == Serve && old(c.socket.failures) <= c.socket.failures
      invariant c.intact == (c.socket.failures == old(c.socket.failures))
      invariant c.intact ==> c.pushed == start + Chunks(writes[..i])
    {
      assert writes[..i + 1] == writes[..i] + [writes[i]];
      ChunksSplit(writes[..i], [writes[i]]);
      OneChunk(writes[i]);
      assert start + Chunks(writes[..i]) + Chunk(writes[i]) == start + (Chunks(writes[..i]) + Chunk(writes[i]));
      var code := c.Write(writes[i]);
    }
    assert writes[..|writes|] == writes;
    c.ResponseEnd(requestLength);
    DeliveredIffNoEmptyWrite(writes);
    assert c.intact ==> c.socket.sent == start + (Chunks(writes) + LAST_CHUNK);
  }

  lemma OneChunk(data: seq<Byte>)
    ensures Chunks([data]) == Chunk(data)
  {
    hide Chunk;
    assert Chunks([data][1..]) == [];
  }
}
