/** Streams of length-delimited packets: the C codec (hw-map-reduce/codec/codec.c) with an 8-byte little-endian length
    before each packet, and the Rust codec (hw-map-reduce-rs/src/codec/mod.rs) with a 4-byte big-endian one. */
module Codec {
  import opened Basics

  type Bytes = seq<Byte>

  datatype Taken = Ended | Item(packet: Bytes) | Panic

  datatype Format = Native | Network

  /* ---- Fixed-width numbers ---- */

  function Pow256(k: nat): nat { if k == 0 then 1 else 256 * Pow256(k - 1) }

  /** The low `k` bytes of `n`, least significant first. */
  function Le(n: nat, k: nat): (s: Bytes)
    ensures |s| == k
  {
    if k == 0 then [] else [n % 256] + Le(n / 256, k - 1)
  }

  function UnLe(s: Bytes): nat { if s == [] then 0 else s[0] + 256 * UnLe(s[1..]) }

  /** The low `k` bytes of `n`, most significant first. */
  function Be(n: nat, k: nat): (s: Bytes)
    ensures |s| == k
  {
    if k == 0 then [] else Be(n / 256, k - 1) + [n % 256]
  }

  function UnBe(s: Bytes): nat { if s == [] then 0 else 256 * UnBe(s[..|s| - 1]) + s[|s| - 1] }

  lemma {:induction false} LeInverse(n: nat, k: nat)
    requires n < Pow256(k)
    ensures UnLe(Le(n, k)) == n
  {
    if k > 0 {
      LeInverse(n / 256, k - 1);
      assert Le(n, k)[1..] == Le(n / 256, k - 1);
    }
  }

  lemma {:induction false} BeInverse(n: nat, k: nat)
    requires n < Pow256(k)
    ensures UnBe(Be(n, k)) == n
  {
    if k > 0 {
      BeInverse(n / 256, k - 1);
      assert Be(n, k)[..k - 1] == Be(n / 256, k - 1);
    }
  }

  /* ---- Packets ---- */

  function Width(f: Format): nat { if f == Native then 8 else 4 }

  function Header(f: Format, n: nat): (s: Bytes)
    ensures |s| == Width(f)
  {
    if f == Native then Le(n, 8) else Be(n, 4)
  }

  function Length(f: Format, header: Bytes): nat {
    if f == Native then UnLe(header) else UnBe(header)
  }

  /** The length before a packet: in C eight bytes, the lowest first; in Rust four, the lowest last. */
  lemma HeaderOrder(n: nat)
    ensures |Header(Native, n)| == 8 && Header(Native, n)[0] == n % 256
    ensures |Header(Network, n)| == 4 && Header(Network, n)[3] == n % 256
  {
  }

  /** The longest packet: `ssize_t` in C, where the length must not be negative; `u32` in Rust. */
  function Limit(f: Format): nat { if f == Native then 0x8000_0000_0000_0000 else 0x1_0000_0000 }

  predicate Fits(f: Format, p: Bytes) { |p| < Limit(f) }

  function Packet(f: Format, p: Bytes): Bytes { Header(f, |p|) + p }

  function Encode(f: Format, ps: seq<Bytes>): Bytes {
    if ps == [] then [] else Packet(f, ps[0]) + Encode(f, ps[1..])
  }

  /** The length of the first packet of a stream, if the stream holds all of it. */
  function FirstLength(f: Format, s: Bytes): (r: Option<nat>)
    ensures r.Some? ==> Width(f) + r.value <= |s|
  {
    if |s| < Width(f) || |s| - Width(f) < Length(f, s[..Width(f)]) then None else Some(Length(f, s[..Width(f)]))
  }

  /** The packets that can be read off a stream, up to the first incomplete one. */
  function Decode(f: Format, s: Bytes): (ps: seq<Bytes>)
    decreases |s|
  {
    match FirstLength(f, s)
    case None => []
    case Some(n) => [s[Width(f)..Width(f) + n]] + Decode(f, s[Width(f) + n..])
  }

  lemma Regroup(a: Bytes, b: Bytes, c: Bytes)
    ensures (a + b) + c == a + (b + c)
  {
  }

  lemma EncodeFirst(f: Format, p: Bytes, ps: seq<Bytes>)
    ensures Encode(f, [p] + ps) == Packet(f, p) + Encode(f, ps)
  {
    assert ([p] + ps)[1..] == ps;
  }

  lemma HeaderInverse(f: Format, n: nat)
    requires n < Limit(f)
    ensures Length(f, Header(f, n)) == n
  {
    assert Pow256(4) == 0x1_0000_0000 && Pow256(8) == Pow256(4) * 0x1_0000_0000 by {
      assert Pow256(1) == 256 && Pow256(2) == 65536 && Pow256(3) == 0x100_0000 && Pow256(4) == 0x1_0000_0000;
      assert Pow256(5) == 0x100_0000_0000 && Pow256(6) == 0x1_0000_0000_0000 && Pow256(7) == 0x100_0000_0000_0000;
    }
    if f == Native { LeInverse(n, 8); } else { BeInverse(n, 4); }
  }

  /** The first packet of a stream is read back whole, and leaves the rest. */
  lemma FirstPacket(f: Format, p: Bytes, rest: Bytes)
    requires Fits(f, p)
    ensures var s := Packet(f, p) + rest;
            && FirstLength(f, s) == Some(|p|) && s[Width(f)..Width(f) + |p|] == p && s[Width(f) + |p|..] == rest
  {
    var s := Packet(f, p) + rest;
    HeaderInverse(f, |p|);
    assert s[..Width(f)] == Header(f, |p|);
  }

  lemma DecodeFirst(f: Format, p: Bytes, rest: Bytes)
    requires Fits(f, p)
    ensures Decode(f, Packet(f, p) + rest) == [p] + Decode(f, rest)
  {
    FirstPacket(f, p, rest);
  }

  lemma DecodeNext(f: Format, p: Bytes, mid: Bytes, rest: Bytes)
    requires Fits(f, p)
    ensures Decode(f, (Packet(f, p) + mid) + rest) == [p] + Decode(f, mid + rest)
  {
    Regroup(Packet(f, p), mid, rest);
    DecodeFirst(f, p, mid + rest);
  }

  /** Reading undoes writing, packet by packet; what follows is read after it. */
  lemma {:induction false} DecodeEncode(f: Format, ps: seq<Bytes>, rest: Bytes)
    requires forall p :: p in ps ==> Fits(f, p)
    ensures Decode(f, Encode(f, ps) + rest) == ps + Decode(f, rest)
  {
    if ps == [] {
      assert Encode(f, ps) + rest == rest;
    } else {
      var tail, d := ps[1..], Decode(f, rest);
      calc {
        Decode(f, Encode(f, ps) + rest);
        { DecodeNext(f, ps[0], Encode(f, tail), rest); }
        [ps[0]] + Decode(f, Encode(f, tail) + rest);
        { DecodeEncode(f, tail, rest); }
        [ps[0]] + (tail + d);
        { Prepend(ps[0], tail, d); assert ps == [ps[0]] + tail; }
        ps + d;
      }
    }
  }

  lemma Prepend(p: Bytes, ps: seq<Bytes>, qs: seq<Bytes>)
    ensures [p] + (ps + qs) == ([p] + ps) + qs
  {
  }

  /** A stream holds exactly what was written, no more. */
  lemma RoundTrip(f: Format, ps: seq<Bytes>)
    requires forall p :: p in ps ==> Fits(f, p)
    ensures Decode(f, Encode(f, ps)) == ps
  {
    DecodeEncode(f, ps, []);
    assert Encode(f, ps) + [] == Encode(f, ps) && Decode(f, []) == [];
  }

  lemma CutFirst(f: Format, p: Bytes, rest: Bytes, k: nat)
    requires Fits(f, p) && k < Width(f) + |p|
    ensures k <= |Packet(f, p) + rest| && Decode(f, (Packet(f, p) + rest)[..k]) == []
  {
    var s := Packet(f, p) + rest;
    FirstPacket(f, p, rest);
    if k >= Width(f) {
      assert s[..k][..Width(f)] == s[..Width(f)];
    }
  }

  lemma CutLater(f: Format, p: Bytes, rest: Bytes, m: nat)
    requires Fits(f, p) && m <= |rest|
    ensures var s, k := Packet(f, p) + rest, Width(f) + |p| + m;
            k <= |s| && Decode(f, s[..k]) == [p] + Decode(f, rest[..m])
  {
    assert (Packet(f, p) + rest)[..Width(f) + |p| + m] == Packet(f, p) + rest[..m];
    FirstPacket(f, p, rest[..m]);
  }

  lemma CutStep(f: Format, p: Bytes, rest: Bytes, tail: seq<Bytes>, k: nat)
    requires Fits(f, p) && k <= |Packet(f, p) + rest|
    requires var n := Width(f) + |p|; k >= n ==> Decode(f, rest[..k - n]) <= tail
    ensures Decode(f, (Packet(f, p) + rest)[..k]) <= [p] + tail
  {
    var n := Width(f) + |p|;
    if k >= n {
      CutLater(f, p, rest, k - n);
    } else {
      CutFirst(f, p, rest, k);
    }
  }

  /** A stream cut off anywhere loses packets at its end and garbles none. */
  lemma {:induction false} CutStream(f: Format, ps: seq<Bytes>, k: nat)
    requires (forall p :: p in ps ==> Fits(f, p)) && k <= |Encode(f, ps)|
    ensures Decode(f, Encode(f, ps)[..k]) <= ps
  {
    if ps != [] {
      var n, rest := Width(f) + |ps[0]|, Encode(f, ps[1..]);
      assert Encode(f, ps) == Packet(f, ps[0]) + rest && ps == [ps[0]] + ps[1..];
      if k >= n {
        CutStream(f, ps[1..], k - n);
      }
      CutStep(f, ps[0], rest, ps[1..], k);
    }
  }

  lemma {:induction false} EncodeAppend(f: Format, ps: seq<Bytes>, qs: seq<Bytes>)
    ensures Encode(f, ps + qs) == Encode(f, ps) + Encode(f, qs)
  {
    if ps == [] {
      assert ps + qs == qs;
    } else {
      var tail := ps[1..];
      assert ps == [ps[0]] + tail;
      calc {
        Encode(f, ps + qs);
        { Prepend(ps[0], tail, qs); EncodeFirst(f, ps[0], tail + qs); }
        Packet(f, ps[0]) + Encode(f, tail + qs);
        { EncodeAppend(f, tail, qs); Regroup(Packet(f, ps[0]), Encode(f, tail), Encode(f, qs)); }
        Packet(f, ps[0]) + Encode(f, tail) + Encode(f, qs);
        { EncodeFirst(f, ps[0], tail); }
        Encode(f, ps) + Encode(f, qs);
      }
    }
  }

  /* ---- Writers and readers ---- */

  /** `length_delimited_writer` and `LengthDelimitedWriter`. */
  class Writer {
    const format: Format
    var out: Bytes

    constructor (format: Format)
      ensures this.format == format && out == []
    {
      this.format := format;
      out := [];
    }

    /** `ldw_write`. The file grows by one packet. */
    method Write(p: Bytes)
      modifies this
      ensures out == old(out) + Encode(format, [p])
    {
      out := out + Header(format, |p|);
      out := out + p;
      assert Encode(format, [p]) == Packet(format, p);
    }

    /** `LengthDelimitedWriter::send`, which panics on a packet that is too long. */
    method Send(p: Bytes) returns (ok: bool)
      modifies this
      ensures ok <==> |p| < if format == Native then 0x8000_0000_0000_0000 else 0x1_0000_0000
      ensures out == if ok then old(out) + Encode(format, [p]) else old(out)
    {
      ok := |p| < Limit(format);
      if ok {
        Write(p);
      }
    }
  }

  /** `length_delimited_reader`: a file and a position in it. */
  class Reader {
    const format: Format
    const data: Bytes
    var pos: nat

    ghost predicate Valid()
      reads this
    {
      pos <= |data|
    }

    ghost function Rest(): Bytes
      requires Valid()
      reads this
    {
      data[pos..]
    }

    constructor (format: Format, data: Bytes)
      ensures Valid() && this.format == format && this.data == data && Rest() == data
    {
      this.format := format;
      this.data := data;
      pos := 0;
    }

    /** `ldr_next`: the next packet, or nothing at the end of the file and at a packet that is cut off. When `malloc`
        fails, a packet that is not empty is not read, and the file is left at its first byte. */
    method Next(mallocOk: bool := true) returns (r: Option<Bytes>)
      requires Valid()
      modifies this
      ensures Valid()
      ensures mallocOk && r.None? ==> Decode(format, old(Rest())) == [] && Rest() == []
      ensures !mallocOk ==>
                var rest, w := old(Rest()), Width(format);
                if |rest| < w then r == None && Rest() == []
                else if Length(format, rest[..w]) == 0 then r == Some([])
                else r == None && Rest() == rest[w..]
      ensures r.Some? ==> Decode(format, old(Rest())) == [r.value] + Decode(format, Rest()) && |Rest()| < old(|Rest()|)
    {
      ghost var rest := data[pos..];
      if |data| - pos < Width(format) {
        pos := |data|;
        return None;
      }
      var length := Length(format, data[pos..pos + Width(format)]);
      assert rest[..Width(format)] == data[pos..pos + Width(format)];
      pos := pos + Width(format);
      if length > 0 && !mallocOk {
        return None;
      }
      if |data| - pos < length {
        pos := |data|;
        return None;
      }
      r := Some(data[pos..pos + length]);
      pos := pos + length;
      assert rest[Width(format)..Width(format) + length] == r.value && rest[Width(format) + length..] == data[pos..];
    }

    /** `LengthDelimitedReader::next`: ends only at the end of the buffer, and panics at a packet that is cut off. */
    method Take() returns (r: Taken)
      requires Valid()
      modifies this
      ensures Valid()
      ensures r.Ended? <==> old(Rest()) == []
      ensures r.Panic? <==> old(Rest()) != [] && Decode(format, old(Rest())) == []
      ensures r.Item? ==> Decode(format, old(Rest())) == [r.packet] + Decode(format, Rest()) && |Rest()| < old(|Rest()|)
    {
      if pos == |data| {
        return Ended;
      }
      var next := Next();
      r := if next.Some? then Item(next.value) else Panic;
    }

    /** `ldr_count`: reads to the end and counts the packets. */
    method Count() returns (count: nat)
      requires Valid()
      modifies this
      ensures Valid() && count == |Decode(format, old(Rest()))|
    {
      ghost var rest := Rest();
      var next := Next();
      count := 0;
      while next.Some?
        invariant Valid()
        invariant |Decode(format, rest)| == count + if next.Some? then 1 + |Decode(format, Rest())| else 0
        decreases next.Some?, |data| - pos
      {
        next := Next();
        count := count + 1;
      }
    }

    /** `ldr_rewind`. */
    method Rewind()
      modifies this
      ensures Valid() && Rest() == data
    {
      pos := 0;
    }
  }
}
