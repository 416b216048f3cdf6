/** A file as its bytes, with the stdio calls cynder/filepage.cpp makes on it, and the
    little-endian words it writes. */
module Disk {
  import opened Bytes
  import opened Sequences

  const WORD: int := 0x1_0000_0000

  /** A value cut to an unsigned int. */
  function Word(n: int): (r: nat)
    ensures r < WORD
    ensures 0 <= n < WORD ==> r == n
  {
    n % WORD
  }

  /** An unsigned int in memory. */
  function Le32(n: int): (b: seq<Byte>)
    ensures |b| == 4
  {
    [n % 256, n / 256 % 256, n / 65536 % 256, n / 16777216 % 256]
  }

  function Un32(b: seq<Byte>): (n: nat)
    requires |b| == 4
    ensures n < WORD
  {
    b[0] as int + 256 * b[1] as int + 65536 * b[2] as int + 16777216 * b[3] as int
  }

  lemma Le32RoundTrip(n: int)
    requires 0 <= n < WORD
    ensures Un32(Le32(n)) == n
  {
    var a, b, c := n / 256, n / 65536, n / 16777216;
    assert n == 256 * a + n % 256 && a == 256 * b + a % 256 && b == 256 * c + b % 256;
  }

  /** An unsigned short in memory. */
  function Le16(n: int): (b: seq<Byte>)
    ensures |b| == 2
  {
    [n % 256, n / 256 % 256]
  }

  function Un16(b: seq<Byte>): (n: nat)
    requires |b| == 2
    ensures n < 65536
  {
    b[0] as int + 256 * b[1] as int
  }

  lemma Le16RoundTrip(n: int)
    requires 0 <= n < 65536
    ensures Un16(Le16(n)) == n
  {}

  // ---------- fread and fwrite ----------

  /** The bytes at a position, zeros from the end of the file on. */
  function Read(f: seq<Byte>, pos: nat, n: nat): (b: seq<Byte>)
    ensures |b| == n
  {
    seq(n, i requires 0 <= i < n => if pos + i < |f| then f[pos + i] else 0)
  }

  /** Memory after a read into it: as much of it as the file has bytes for is replaced. */
  function Fetched(f: seq<Byte>, pos: nat, memory: seq<Byte>): (b: seq<Byte>)
    ensures |b| == |memory|
  {
    if pos >= |f| then memory
    else if pos + |memory| <= |f| then f[pos..pos + |memory|]
    else f[pos..] + memory[|f| - pos..]
  }

  /** The position after reading n bytes, or those that are left. */
  function Advanced(f: seq<Byte>, pos: nat, n: nat): nat {
    if pos + n <= |f| then pos + n else if pos <= |f| then |f| else pos
  }

  /** The file once some bytes are written at a position; a gap is filled with zeros.
      Writing nothing leaves the file alone, wherever the position is. */
  function Written(f: seq<Byte>, pos: nat, b: seq<Byte>): (g: seq<Byte>)
  {
    if b == [] then f else
    var padded := if |f| < pos then f + Repeated<Byte>(0, pos - |f|) else f;
    padded[..pos] + b + if pos + |b| < |padded| then padded[pos + |b|..] else []
  }

  /** A region of the file holds some bytes. */
  predicate Holds(f: seq<Byte>, pos: int, b: seq<Byte>) {
    0 <= pos && pos + |b| <= |f| && f[pos..pos + |b|] == b
  }

  lemma WrittenHolds(f: seq<Byte>, pos: nat, b: seq<Byte>)
    requires b != []
    ensures Holds(Written(f, pos, b), pos, b)
    ensures |Written(f, pos, b)| == if |f| < pos + |b| then pos + |b| else |f|
  {}

  /** A write changes nothing outside its region. */
  lemma WrittenElsewhere(f: seq<Byte>, pos: nat, b: seq<Byte>, i: nat)
    requires i < |f| && !(pos <= i < pos + |b|)
    ensures i < |Written(f, pos, b)| && Written(f, pos, b)[i] == f[i]
  {}

  lemma WrittenKeeps(f: seq<Byte>, pos: nat, b: seq<Byte>, at: int, kept: seq<Byte>)
    requires Holds(f, at, kept)
    requires at + |kept| <= pos || pos + |b| <= at
    ensures Holds(Written(f, pos, b), at, kept)
  {
    var g := Written(f, pos, b);
    if b == [] { return; }
    WrittenHolds(f, pos, b);
    forall i | at <= i < at + |kept| ensures g[i] == f[i] {
      WrittenElsewhere(f, pos, b, i);
    }
    assert g[at..at + |kept|] == f[at..at + |kept|];
  }

  lemma HoldsRead(f: seq<Byte>, pos: nat, b: seq<Byte>)
    requires Holds(f, pos, b)
    ensures Read(f, pos, |b|) == b
  {
    assert Read(f, pos, |b|) == f[pos..pos + |b|];
  }

  lemma HoldsFetched(f: seq<Byte>, pos: nat, b: seq<Byte>, memory: seq<Byte>)
    requires Holds(f, pos, b) && |memory| == |b|
    ensures Fetched(f, pos, memory) == b && Advanced(f, pos, |b|) == pos + |b|
  {}
}
