/** The reader that joins the IDAT payloads of a PNG into one stream. */
module IdatReader {
  import opened ByteOrder

  const IDAT: Bytes := [0x49, 0x44, 0x41, 0x54]
  const IEND: Bytes := [0x49, 0x45, 0x4e, 0x44]

  datatype IoError = Nil | EOF | UnexpectedEOF

  /** What is left of `s` after `n` bytes of chunk data and the four CRC bytes. */
  function After(s: Bytes, n: nat): (r: Bytes)
    ensures |r| <= |s|
  {
    if n + 4 <= |s| then s[n + 4..] else []
  }

  function Take(s: Bytes, n: nat): Bytes {
    if n <= |s| then s[..n] else s
  }

  /** The IDAT bytes of any byte string read as a list of chunks: everything before IEND, or as
      far as the bytes go. */
  function Payload(s: Bytes): Bytes
    decreases |s|
  {
    if |s| < 8 || s[4..8] == IEND then [] else
      var n := Be(s[..4]);
      var rest := Payload(After(s[8..], n));
      if s[4..8] == IDAT then Take(s[8..], n) + rest else rest
  }

  /** The IDAT bytes still to come when `s` is unread, `remain` bytes of the current chunk's data
      among them. */
  function PendingOf(s: Bytes, remain: nat, done: bool): Bytes {
    if remain > 0 then Take(s, remain) + Payload(After(s, remain))
    else if done then []
    else Payload(s)
  }

  /** The error that ends a run of reads of such a byte string: unexpected only inside the length or
      the type of a chunk. */
  function Ending(s: Bytes): IoError
    decreases |s|
  {
    if |s| < 8 then Short(|s|)
    else if s[4..8] == IEND then EOF
    else Ending(After(s[8..], Be(s[..4])))
  }

  function Short(n: nat): IoError {
    if n == 0 || n == 4 then EOF else UnexpectedEOF
  }

  function EndingOf(s: Bytes, remain: nat, done: bool): IoError {
    if remain > 0 then Ending(After(s, remain)) else if done then EOF else Ending(s)
  }

  /** Reading a chunk header changes nothing that is pending. */
  lemma PendingHeader(s: Bytes)
    requires |s| >= 8
    ensures var n, typ, body := Be(s[..4]), s[4..8], s[8..];
            Payload(s) == if typ == IEND then []
                          else if typ != IDAT then Payload(After(body, n))
                          else if n > 0 then PendingOf(body, n, false)
                          else Payload(After(body, 0))
  {
    assert Take(s[8..], 0) == [];
    assert forall r: Bytes :: [] + r == r;
  }

  lemma EndingHeader(s: Bytes)
    requires |s| >= 8
    ensures var n, typ, body := Be(s[..4]), s[4..8], s[8..];
            Ending(s) == if typ == IEND then EOF
                         else if typ != IDAT then Ending(After(body, n))
                         else if n > 0 then EndingOf(body, n, false)
                         else Ending(After(body, 0))
  {}

  lemma EndingTake(s: Bytes, remain: nat, m: nat)
    requires 0 < remain && m <= remain && m <= |s|
    ensures EndingOf(s, remain, false)
         == if m < remain then EndingOf(s[m..], remain - m, false) else Ending(After(s[m..], 0))
  {
    TakeSplit(s, remain, m);
  }

  lemma TakeSplit(s: Bytes, n: nat, m: nat)
    requires m <= n && m <= |s|
    ensures Take(s, n) == s[..m] + Take(s[m..], n - m)
    ensures After(s, n) == After(s[m..], n - m)
  {}

  /** Delivering `m` of the remaining bytes, and skipping the CRC after the last one. */
  lemma PendingTake(s: Bytes, remain: nat, m: nat)
    requires 0 < remain && m <= remain && m <= |s|
    ensures PendingOf(s, remain, false)
         == s[..m] + if m < remain then PendingOf(s[m..], remain - m, false) else Payload(After(s[m..], 0))
  {
    TakeSplit(s, remain, m);
    var front, middle, rest := s[..m], Take(s[m..], remain - m), Payload(After(s, remain));
    assert (front + middle) + rest == front + (middle + rest);
    if m == remain {
      assert middle == [] && middle + rest == rest;
    }
  }

  /** With data of a chunk outstanding there is something to deliver, unless the file is at its end. */
  lemma PendingNonEmpty(s: Bytes, remain: nat)
    requires remain > 0 && s != []
    ensures PendingOf(s, remain, false) != []
  {}

  lemma NoHeader(s: Bytes)
    requires |s| < 8
    ensures Payload(s) == [] && Ending(s) == Short(|s|)
  {}

  lemma AtEnd(remain: nat)
    requires remain > 0
    ensures PendingOf([], remain, false) == [] && EndingOf([], remain, false) == EOF
  {}

  /** A buffered reader over a file's bytes. */
  class BufReader {
    const data: Bytes
    var pos: nat

    ghost predicate Valid()
      reads this
    {
      pos <= |data|
    }

    function Rest(): Bytes
      requires Valid()
      reads this
    {
      data[pos..]
    }

    constructor (data: Bytes)
      ensures Valid() && this.data == data && pos == 0
    {
      this.data := data;
      pos := 0;
    }

    /** One Read call into p[..n]: any positive number of bytes, while there are any. */
    method Read(p: array<byte>, n: nat) returns (m: nat, err: IoError)
      requires Valid() && n <= p.Length
      modifies this`pos, p
      ensures Valid() && m <= n && m <= |old(Rest())|
      ensures p[..m] == old(Rest())[..m] && Rest() == old(Rest())[m..]
      ensures p[m..] == old(p[..])[m..]
      ensures err == Nil || (err == EOF && m == 0 && old(Rest()) == [])
      ensures n > 0 ==> (err == Nil <==> m > 0) && (m > 0 <==> old(Rest()) != [])
    {
      m, err := 0, Nil;
      if pos == |data| {
        if n > 0 { err := EOF; } else { err :| err == EOF || err == Nil; }
      } else if n > 0 {
        m :| 1 <= m <= n && pos + m <= |data|;
        forall i | 0 <= i < m {
          p[i] := data[pos + i];
        }
        pos := pos + m;
      }
    }

    /** io.ReadFull of `n` bytes. */
    method ReadFull(n: nat) returns (s: Bytes, err: IoError)
      requires Valid()
      modifies this`pos
      ensures Valid()
      ensures err == Nil <==> |old(Rest())| >= n
      ensures err == Nil ==> s == old(Rest())[..n] && Rest() == old(Rest())[n..] && pos == old(pos) + n
      ensures err != Nil ==> Rest() == [] && err == if old(Rest()) == [] then EOF else UnexpectedEOF
    {
      if pos + n <= |data| {
        s, err := data[pos..pos + n], Nil;
        pos := pos + n;
      } else {
        s, err := [], if pos == |data| then EOF else UnexpectedEOF;
        pos := |data|;
      }
    }

    /** A chunk's length and type. */
    method ReadHeader() returns (length: nat, typ: Bytes, err: IoError)
      requires Valid()
      modifies this`pos
      ensures Valid()
      ensures err == Nil <==> |old(Rest())| >= 8
      ensures err == Nil ==> length == Be(old(Rest())[..4]) && typ == old(Rest())[4..8]
      ensures err == Nil ==> Rest() == old(Rest())[8..] && pos > old(pos)
      ensures err != Nil ==> Rest() == [] && err == Short(|old(Rest())|)
    {
      var head;
      head, err := ReadFull(4);
      if err == Nil {
        length := Be(head);
        typ, err := ReadFull(4);
      } else {
        length, typ := 0, [];
      }
    }

    /** io.CopyN(io.Discard, r, n) */
    method Skip(n: nat) returns (err: IoError)
      requires Valid()
      modifies this`pos
      ensures Valid() && pos >= old(pos)
      ensures Rest() == if n <= |old(Rest())| then old(Rest())[n..] else []
      ensures err == if n <= |old(Rest())| then Nil else EOF
    {
      if pos + n <= |data| {
        pos, err := pos + n, Nil;
      } else {
        pos, err := |data|, EOF;
      }
    }
  }

  class IdatReader {
    const r: BufReader
    var remain: nat
    var done: bool

    ghost predicate Valid()
      reads this, r
    {
      r.Valid() && (done ==> remain == 0)
    }

    /** The IDAT bytes this reader has still to deliver. */
    ghost function Pending(): Bytes
      requires Valid()
      reads this, r
    {
      PendingOf(r.Rest(), remain, done)
    }

    /** The error after which there is nothing more. */
    ghost function Final(): IoError
      requires Valid()
      reads this, r
    {
      EndingOf(r.Rest(), remain, done)
    }

    constructor (r: BufReader)
      requires r.Valid()
      ensures Valid() && this.r == r
      ensures Pending() == Payload(r.Rest()) && Final() == Ending(r.Rest())
    {
      this.r := r;
      remain, done := 0, false;
    }

    /** The loop at the head of Read: moves on to a chunk with IDAT bytes to deliver. */
    method NextChunk() returns (err: IoError)
      requires Valid()
      modifies this, r
      ensures Valid() && Pending() == old(Pending())
      ensures err == Nil ==> remain > 0 && Final() == old(Final())
      ensures err != Nil ==> remain == 0 && Pending() == [] && err == old(Final())
    {
      hide Payload, Ending;
      while remain == 0
        invariant Valid() && Pending() == old(Pending()) && Final() == old(Final())
        decreases |r.data| - r.pos, remain == 0
      {
        if done {
          return EOF;
        }
        ghost var before := r.Rest();
        var length, typ;
        length, typ, err := r.ReadHeader();
        if err != Nil {
          NoHeader(before);
          NoHeader([]);
          return;
        }
        PendingHeader(before);
        EndingHeader(before);
        if typ == IDAT {
          remain := length;
          if remain == 0 {
            err := SkipCrc();
            if err != Nil {
              return;
            }
          }
        } else if typ == IEND {
          done := true;
          return EOF;
        } else {
          err := r.Skip(length + 4);
          assert r.Rest() == After(before[8..], length);
          NoHeader([]);
          if err != Nil {
            return;
          }
        }
      }
      err := Nil;
    }

    /** Skips the CRC behind a chunk's data. */
    method SkipCrc() returns (err: IoError)
      requires Valid() && remain == 0 && !done
      modifies r
      ensures Valid() && r.pos >= old(r.pos)
      ensures Pending() == Payload(After(old(r.Rest()), 0))
      ensures err == Nil || (err == EOF && Pending() == [])
      ensures Ending(After(old(r.Rest()), 0)) == if err == Nil then Final() else EOF
    {
      ghost var s := r.Rest();
      err := r.Skip(4);
      assert r.Rest() == After(s, 0);
    }

    /** The rest of Read: delivers bytes of the current chunk. */
    method Deliver(p: array<byte>) returns (m: nat, err: IoError)
      requires Valid() && remain > 0
      modifies this, r, p
      ensures Valid() && m <= p.Length
      ensures old(Pending()) == p[..m] + Pending()
      ensures p[m..] == old(p[..])[m..]
      ensures if err == Nil then Final() == old(Final()) else Pending() == [] && err == old(Final())
      ensures p.Length > 0 ==> (m > 0 <==> old(Pending()) != []) && (err == Nil ==> m > 0)
    {
      hide Payload, Ending, PendingOf, EndingOf, After;
      var n := if p.Length > remain then remain else p.Length;
      ghost var s := r.Rest();
      if s != [] {
        PendingNonEmpty(s, remain);
      } else {
        AtEnd(remain);
      }
      m, err := r.Read(p, n);
      PendingTake(s, remain, m);
      EndingTake(s, remain, m);
      ghost var delivered := p[..m];
      remain := remain - m;
      if remain == 0 && err == Nil {
        err := SkipCrc();
      } else {
        assert remain > 0;
        assert Pending() == PendingOf(s[m..], remain, false) && Final() == EndingOf(s[m..], remain, false);
        AtEnd(remain);
      }
      assert p[..m] == delivered;
    }

    /** Delivers the next pending bytes, however small the buffer and however short the reads of
        the file below; an error is reported only when nothing is left. */
    method Read(p: array<byte>) returns (m: nat, err: IoError)
      requires Valid()
      modifies this, r, p
      ensures Valid() && m <= p.Length
      ensures old(Pending()) == p[..m] + Pending()
      ensures p[m..] == old(p[..])[m..]
      ensures if err == Nil then Final() == old(Final()) else Pending() == [] && err == old(Final())
      ensures p.Length > 0 ==> (m > 0 <==> old(Pending()) != []) && (err == Nil ==> m > 0)
    {
      err := NextChunk();
      if err != Nil {
        return 0, err;
      }
      m, err := Deliver(p);
    }
  }

  /** A run of Read calls with the given buffer sizes: what has been delivered is always a prefix of
      what was pending. */
  method ReadRun(d: IdatReader, sizes: seq<nat>) returns (got: Bytes)
    requires d.Valid()
    modifies d, d.r
    ensures d.Valid() && old(d.Pending()) == got + d.Pending()
  {
    hide PendingOf, EndingOf;
    got := [];
    for i := 0 to |sizes|
      invariant d.Valid() && old(d.Pending()) == got + d.Pending()
    {
      var p := new byte[sizes[i]];
      var m, err := d.Read(p);
      got := got + p[..m];
    }
  }

  /** A run to the first error, with buffers of any sizes: exactly what was pending is delivered. */
  method Drain(d: IdatReader) returns (got: Bytes, err: IoError)
    requires d.Valid()
    modifies d, d.r
    ensures d.Valid() && d.Pending() == [] && got == old(d.Pending()) && err == old(d.Final()) != Nil
  {
    hide PendingOf, EndingOf;
    got := [];
    err := Nil;
    while err == Nil
      invariant d.Valid() && old(d.Pending()) == got + d.Pending()
      invariant if err == Nil then d.Final() == old(d.Final()) else d.Pending() == [] && err == old(d.Final())
      decreases |d.Pending()|, err == Nil
    {
      var size: nat :| size > 0;
      var p := new byte[size];
      var m;
      m, err := d.Read(p);
      got := got + p[..m];
    }
  }
}

/** The chunk layout of a PNG (RFC 2083, section 3.2) as a list. */
module PngChunks {
  import opened ByteOrder
  import opened IdatReader

  datatype Chunk = Chunk(typ: Bytes, body: Bytes, crc: Bytes) {
    ghost predicate Valid() {
      |typ| == 4 && |crc| == 4 && |body| < Pow256(4)
    }

    function Serialize(): Bytes {
      BeBytes(|body|, 4) + typ + body + crc
    }
  }

  function Serialize(cs: seq<Chunk>): Bytes {
    if cs == [] then [] else cs[0].Serialize() + Serialize(cs[1..])
  }

  /** The bodies of the IDAT chunks before IEND, joined. */
  function IdatOf(cs: seq<Chunk>): Bytes {
    if cs == [] || cs[0].typ == IEND then []
    else (if cs[0].typ == IDAT then cs[0].body else []) + IdatOf(cs[1..])
  }

  ghost predicate Valid(cs: seq<Chunk>) {
    forall c <- cs :: c.Valid()
  }

  ghost predicate Ended(cs: seq<Chunk>) {
    exists c <- cs :: c.typ == IEND
  }

  lemma SerializedHead(c: Chunk, rest: Bytes)
    requires c.Valid()
    ensures var s := c.Serialize() + rest;
            |s| >= 8 && Be(s[..4]) == |c.body| && s[4..8] == c.typ
            && Take(s[8..], |c.body|) == c.body && After(s[8..], |c.body|) == rest
  {
    var s := c.Serialize() + rest;
    BeRoundTrip(|c.body|, 4);
    assert s[..4] == BeBytes(|c.body|, 4);
    assert s[4..8] == c.typ;
    assert s[8..] == c.body + c.crc + rest;
  }

  /** The reader sees the joined IDAT bodies and nothing else. */
  lemma {:induction false} PayloadOfChunks(cs: seq<Chunk>, tail: Bytes)
    requires Valid(cs) && (Ended(cs) || tail == [])
    ensures Payload(Serialize(cs) + tail) == IdatOf(cs)
  {
    if cs == [] {
      assert Serialize(cs) + tail == [];
    } else {
      var rest := Serialize(cs[1..]) + tail;
      assert Serialize(cs) + tail == cs[0].Serialize() + rest;
      assert cs[0] in cs;
      SerializedHead(cs[0], rest);
      if cs[0].typ != IEND {
        assert Ended(cs) ==> Ended(cs[1..]);
        PayloadOfChunks(cs[1..], tail);
      }
    }
  }

  /** A list that ends in IEND, or right behind a chunk, is read to a plain end of file. */
  lemma {:induction false} EndingOfChunks(cs: seq<Chunk>, tail: Bytes)
    requires Valid(cs) && (Ended(cs) || tail == [])
    ensures Ending(Serialize(cs) + tail) == EOF
  {
    if cs == [] {
      assert Serialize(cs) + tail == [];
    } else {
      var rest := Serialize(cs[1..]) + tail;
      assert Serialize(cs) + tail == cs[0].Serialize() + rest;
      assert cs[0] in cs;
      SerializedHead(cs[0], rest);
      if cs[0].typ != IEND {
        assert Ended(cs) ==> Ended(cs[1..]);
        EndingOfChunks(cs[1..], tail);
      }
    }
  }

  /** A file that breaks off inside the length or the type of a chunk ends unexpectedly; one that breaks off
      between chunks, or between length and type, does not. */
  lemma {:induction false} EndingOfCut(cs: seq<Chunk>, part: Bytes)
    requires Valid(cs) && !Ended(cs) && |part| < 8
    ensures Ending(Serialize(cs) + part) == if |part| == 0 || |part| == 4 then EOF else UnexpectedEOF
    ensures Payload(Serialize(cs) + part) == IdatOf(cs)
  {
    if cs == [] {
      assert Serialize(cs) + part == part;
    } else {
      var rest := Serialize(cs[1..]) + part;
      assert Serialize(cs) + part == cs[0].Serialize() + rest;
      assert cs[0] in cs;
      SerializedHead(cs[0], rest);
      EndingOfCut(cs[1..], part);
    }
  }

  /** The chunk types by name, and the layout of a chunk in bytes: the length of its data, most significant byte
      first, the type, the data and four more bytes. */
  lemma ChunkLayout(c: Chunk)
    requires c.Valid()
    ensures IDAT == Ascii("IDAT") && IEND == Ascii("IEND")
    ensures var s, n := c.Serialize(), |c.body|;
            && |s| == n + 12 && s[4..8] == c.typ && s[8..8 + n] == c.body && s[8 + n..] == c.crc
            && (var a: int, b: int, x: int, y: int := s[0], s[1], s[2], s[3];
                n == a * 0x100_0000 + b * 0x1_0000 + x * 0x100 + y)
  {
    var s, n := c.Serialize(), |c.body|;
    BeRoundTrip(n, 4);
    assert s[..4] == BeBytes(n, 4) && s[4..8] == c.typ && s[8..8 + n] == c.body && s[8 + n..] == c.crc;
    FourBytes(s[..4]);
  }

  /** So a reader over a chunk list delivers the joined IDAT bodies, then reports end of file. */
  method DrainChunks(cs: seq<Chunk>, tail: Bytes) returns (got: Bytes, err: IoError)
    requires Valid(cs) && (Ended(cs) || tail == [])
    ensures got == IdatOf(cs) && err == EOF
  {
    PayloadOfChunks(cs, tail);
    EndingOfChunks(cs, tail);
    var br := new BufReader(Serialize(cs) + tail);
    var d := new IdatReader(br);
    got, err := Drain(d);
  }

  lemma {:induction false} IdatOfAppend(a: seq<Chunk>, b: seq<Chunk>)
    requires !Ended(a)
    ensures IdatOf(a + b) == IdatOf(a) + IdatOf(b)
  {
    if a == [] {
      assert a + b == b;
    } else {
      assert a[0] in a;
      assert !Ended(a[1..]);
      IdatOfAppend(a[1..], b);
      assert (a + b)[1..] == a[1..] + b && (a + b)[0] == a[0];
      var head, x, y := if a[0].typ == IDAT then a[0].body else [], IdatOf(a[1..]), IdatOf(b);
      assert IdatOf(a + b) == head + (x + y) && IdatOf(a) == head + x;
      hide *;
      Associate(head, x, y);
    }
  }

  lemma IdatOfOne(c: Chunk)
    ensures c.typ == IDAT ==> IdatOf([c]) == c.body
  {}

  /** Cutting the compressed stream differently, with empty IDATs and ancillary chunks anywhere,
      leaves what the reader delivers unchanged. */
  lemma Rechunked(before: seq<Chunk>, whole: Chunk, cut: nat, between: seq<Chunk>, after: seq<Chunk>)
    requires !Ended(before) && whole.typ == IDAT && cut <= |whole.body|
    requires forall c <- between :: c.typ != IEND && (c.typ == IDAT ==> c.body == [])
    ensures var left := whole.(body := whole.body[..cut]);
            var right := whole.(body := whole.body[cut..]);
            IdatOf(before + [left] + between + [right] + after) == IdatOf(before + [whole] + after)
  {
    hide IdatOf;
    var left := whole.(body := whole.body[..cut]);
    var right := whole.(body := whole.body[cut..]);
    assert before + [left] + between + [right] + after == before + ([left] + (between + ([right] + after)));
    IdatOfAppend(before, [left] + (between + ([right] + after)));
    IdatOfAppend([left], between + ([right] + after));
    IdatOfOne(left);
    IdatOfOne(right);
    IdatOfOne(whole);
    IdatOfAppend(between, [right] + after);
    IdatOfAppend([right], after);
    assert before + [whole] + after == before + ([whole] + after);
    IdatOfAppend(before, [whole] + after);
    IdatOfAppend([whole], after);
    IdatOfNothing(between);
    assert whole.body == left.body + right.body;
  }

  lemma {:induction false} IdatOfNothing(cs: seq<Chunk>)
    requires forall c <- cs :: c.typ != IEND && (c.typ == IDAT ==> c.body == [])
    ensures IdatOf(cs) == []
  {
    if cs != [] {
      assert cs[0] in cs;
      IdatOfNothing(cs[1..]);
    }
  }
}
