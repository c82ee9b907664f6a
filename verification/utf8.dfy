/**
  UTF-8, as used when the upload code turns each header string into bytes
  with `.data(using: .utf8)`. `Encode` is the conversion itself; `Decode`
  is its strict inverse, used by the multipart reader to recover header
  fields as text.
 */
module Utf8 {
  import opened Wrappers

  newtype byte = b: int | 0 <= b < 0x100

  predicate IsContinuation(b: byte) {
    0x80 <= b < 0xC0
  }

  /** The one to four bytes of a single scalar value, most significant first. */
  function EncodeChar(c: char): (r: seq<byte>)
    ensures 1 <= |r| <= 4
    ensures c as int < 0x80 <==> |r| == 1
    ensures |r| == 1 ==> r[0] as int == c as int
    ensures forall i :: 1 <= i < |r| ==> IsContinuation(r[i])
    ensures |r| > 1 ==> r[0] >= 0xC0
  {
    var cp := c as int;
    if cp < 0x80 then
      [cp as byte]
    else if cp < 0x800 then
      [(0xC0 + cp / 0x40) as byte, (0x80 + cp % 0x40) as byte]
    else if cp < 0x10000 then
      [(0xE0 + cp / 0x1000) as byte, (0x80 + cp / 0x40 % 0x40) as byte, (0x80 + cp % 0x40) as byte]
    else
      [(0xF0 + cp / 0x40000) as byte, (0x80 + cp / 0x1000 % 0x40) as byte,
       (0x80 + cp / 0x40 % 0x40) as byte, (0x80 + cp % 0x40) as byte]
  }

  function Encode(s: string): (r: seq<byte>)
    ensures |r| >= |s|
  {
    if s == [] then [] else EncodeChar(s[0]) + Encode(s[1..])
  }

  /** The number of bytes a sequence starting with lead byte `b` occupies, or 0 for a byte no sequence starts with. */
  function SequenceLength(b: byte): nat {
    if b < 0x80 then 1
    else if 0xC2 <= b < 0xE0 then 2
    else if 0xE0 <= b < 0xF0 then 3
    else if 0xF0 <= b < 0xF5 then 4
    else 0
  }

  predicate IsScalarValue(v: int) {
    (0 <= v < 0xD800) || (0xE000 <= v < 0x11_0000)
  }

  /** Decodes exactly one well-formed, shortest-form sequence. */
  function DecodeChar(bs: seq<byte>): Option<char>
    requires 1 <= |bs| <= 4 && |bs| == SequenceLength(bs[0])
  {
    if |bs| == 1 then
      Some(bs[0] as int as char)
    else if exists i :: 1 <= i < |bs| && !IsContinuation(bs[i]) then
      None
    else
      var v :=
        if |bs| == 2 then (bs[0] as int - 0xC0) * 0x40 + (bs[1] as int - 0x80)
        else if |bs| == 3 then (bs[0] as int - 0xE0) * 0x1000 + (bs[1] as int - 0x80) * 0x40 + (bs[2] as int - 0x80)
        else (bs[0] as int - 0xF0) * 0x40000 + (bs[1] as int - 0x80) * 0x1000 + (bs[2] as int - 0x80) * 0x40 + (bs[3] as int - 0x80);
      var least := if |bs| == 2 then 0x80 else if |bs| == 3 then 0x800 else 0x10000;
      if least <= v && IsScalarValue(v) then Some(v as char) else None
  }

  function Decode(bs: seq<byte>): Option<string>
    decreases |bs|
  {
    if bs == [] then Some([])
    else
      var n := SequenceLength(bs[0]);
      if n == 0 || |bs| < n then None
      else
        var c :- DecodeChar(bs[..n]);
        var rest :- Decode(bs[n..]);
        Some([c] + rest)
  }

  lemma EncodeCharRoundTrip(c: char)
    ensures var r := EncodeChar(c); |r| == SequenceLength(r[0]) && DecodeChar(r) == Some(c)
  {
    var cp := c as int;
    var r := EncodeChar(c);
    if cp < 0x80 {
    } else if cp < 0x800 {
      TwoByteValue(cp);
    } else if cp < 0x10000 {
      ThreeByteValue(cp);
      assert !(0xD800 <= cp < 0xE000);
    } else {
      FourByteValue(cp);
    }
  }

  lemma TwoByteValue(cp: int)
    requires 0x80 <= cp < 0x800
    ensures 0xC2 <= 0xC0 + cp / 0x40 < 0xE0
    ensures (cp / 0x40) * 0x40 + cp % 0x40 == cp
  {
  }

  lemma ThreeByteValue(cp: int)
    requires 0x800 <= cp < 0x10000
    ensures 0xE0 <= 0xE0 + cp / 0x1000 < 0xF0
    ensures (cp / 0x1000) * 0x1000 + (cp / 0x40 % 0x40) * 0x40 + cp % 0x40 == cp
  {
    var q := cp / 0x40;
    assert q / 0x40 == cp / 0x1000;
    assert q == (q / 0x40) * 0x40 + q % 0x40;
  }

  lemma FourByteValue(cp: int)
    requires 0x10000 <= cp < 0x11_0000
    ensures 0xF0 <= 0xF0 + cp / 0x40000 < 0xF5
    ensures (cp / 0x40000) * 0x40000 + (cp / 0x1000 % 0x40) * 0x1000 + (cp / 0x40 % 0x40) * 0x40 + cp % 0x40 == cp
  {
    var q := cp / 0x40;
    var p := q / 0x40;
    assert p == cp / 0x1000;
    assert p / 0x40 == cp / 0x40000;
    assert q == p * 0x40 + q % 0x40;
    assert p == (p / 0x40) * 0x40 + p % 0x40;
  }

  lemma {:induction false} EncodeConcat(a: string, b: string)
    ensures Encode(a + b) == Encode(a) + Encode(b)
  {
    if a == [] {
      assert a + b == b;
    } else {
      assert (a + b)[1..] == a[1..] + b;
      EncodeConcat(a[1..], b);
    }
  }

  /** Every string survives encoding and decoding unchanged. */
  lemma {:induction false} DecodeEncode(s: string)
    ensures Decode(Encode(s)) == Some(s)
  {
    if s != [] {
      var head := EncodeChar(s[0]);
      var bs := Encode(s);
      assert bs == head + Encode(s[1..]);
      EncodeCharRoundTrip(s[0]);
      assert bs[0] == head[0];
      assert bs[..|head|] == head;
      assert bs[|head|..] == Encode(s[1..]);
      DecodeEncode(s[1..]);
      assert [s[0]] + s[1..] == s;
    }
  }

  /** An ASCII character absent from a string contributes no byte to its encoding. */
  lemma {:induction false} AsciiAbsent(s: string, c: char)
    requires c as int < 0x80 && c !in s
    ensures (c as int) as byte !in Encode(s)
  {
    if s != [] {
      assert s[0] != c;
      assert c !in s[1..];
      AsciiAbsent(s[1..], c);
    }
  }
}
