/**
 * Strict UTF-8 as Python's `bytes.decode("utf-8")` applies it: shortest
 * forms only, no surrogates, nothing above U+10FFFF.
 */
module Utf8 {
  import opened Wrappers

  newtype byte = x: int | 0 <= x < 256

  predicate IsContinuation(b: byte)
  {
    0x80 <= b <= 0xBF
  }

  /** The encoding of one scalar value: one to four bytes by magnitude. */
  function EncodeChar(c: char): (r: seq<byte>)
    ensures 1 <= |r| <= 4
  {
    var v := c as int;
    if v < 0x80 then [v as byte]
    else if v < 0x800 then [(0xC0 + v / 64) as byte, (0x80 + v % 64) as byte]
    else if v < 0x10000 then [(0xE0 + v / 4096) as byte, (0x80 + (v / 64) % 64) as byte, (0x80 + v % 64) as byte]
    else [(0xF0 + v / 262144) as byte, (0x80 + (v / 4096) % 64) as byte, (0x80 + (v / 64) % 64) as byte, (0x80 + v % 64) as byte]
  }

  function Encode(s: string): (r: seq<byte>)
    ensures |s| <= |r| <= 4 * |s|
  {
    if |s| == 0 then [] else EncodeChar(s[0]) + Encode(s[1..])
  }

  /** Whether `v` is a Unicode scalar value, i.e. a Dafny `char`. */
  predicate IsScalar(v: int)
  {
    (0 <= v < 0xD800) || (0xE000 <= v < 0x110000)
  }

  /** The length of the well-formed sequence `bs` starts with, or 0 when it starts with none. */
  function LeadLength(bs: seq<byte>): (n: nat)
    ensures n <= 4 && n <= |bs|
  {
    if |bs| == 0 then 0
    else
      var b0 := bs[0];
      if b0 < 0x80 then 1
      else if 0xC2 <= b0 <= 0xDF then
        if |bs| >= 2 && IsContinuation(bs[1]) then 2 else 0
      else if 0xE0 <= b0 <= 0xEF then
        var lo: byte := if b0 == 0xE0 then 0xA0 else 0x80;
        var hi: byte := if b0 == 0xED then 0x9F else 0xBF;
        if |bs| >= 3 && lo <= bs[1] <= hi && IsContinuation(bs[2]) then 3 else 0
      else if 0xF0 <= b0 <= 0xF4 then
        var lo: byte := if b0 == 0xF0 then 0x90 else 0x80;
        var hi: byte := if b0 == 0xF4 then 0x8F else 0xBF;
        if |bs| >= 4 && lo <= bs[1] <= hi && IsContinuation(bs[2]) && IsContinuation(bs[3]) then 4 else 0
      else 0
  }

  /** The scalar value of a well-formed sequence of `n` bytes. */
  function ValueOf(bs: seq<byte>, n: nat): (v: int)
    requires 1 <= n == LeadLength(bs)
    ensures IsScalar(v)
  {
    if n == 1 then bs[0] as int
    else if n == 2 then (bs[0] as int - 0xC0) * 64 + (bs[1] as int - 0x80)
    else if n == 3 then (bs[0] as int - 0xE0) * 4096 + (bs[1] as int - 0x80) * 64 + (bs[2] as int - 0x80)
    else (bs[0] as int - 0xF0) * 262144 + (bs[1] as int - 0x80) * 4096 + (bs[2] as int - 0x80) * 64 + (bs[3] as int - 0x80)
  }

  /** `bytes.decode("utf-8")`: None when any part of `bs` is not well formed. */
  function Decode(bs: seq<byte>): (r: Option<string>)
    ensures r.Some? ==> |r.value| <= |bs|
    decreases |bs|
  {
    if |bs| == 0 then Some([])
    else
      var n := LeadLength(bs);
      if n == 0 then None
      else match Decode(bs[n..])
        case None => None
        case Some(rest) => Some([ValueOf(bs, n) as char] + rest)
  }

  /** The bytes of one character decode back to it. */
  lemma EncodeCharLeads(c: char, rest: seq<byte>)
    ensures var e := EncodeChar(c) + rest;
      LeadLength(e) == |EncodeChar(c)| && ValueOf(e, |EncodeChar(c)|) == c as int
  {
    var v := c as int;
    if v < 0x80 {
    } else if v < 0x800 {
      TwoByteForm(v, rest);
    } else if v < 0x10000 {
      ThreeByteForm(v, rest);
    } else {
      FourByteForm(v, rest);
    }
  }

  lemma TwoByteForm(v: int, rest: seq<byte>)
    requires 0x80 <= v < 0x800
    ensures var e := [(0xC0 + v / 64) as byte, (0x80 + v % 64) as byte] + rest;
      LeadLength(e) == 2 && ValueOf(e, 2) == v
  {
    var q, r := v / 64, v % 64;
    assert v == q * 64 + r;
    assert 2 <= q < 32;
  }

  lemma ThreeByteForm(v: int, rest: seq<byte>)
    requires 0x800 <= v < 0x10000 && IsScalar(v)
    ensures var e := [(0xE0 + v / 4096) as byte, (0x80 + (v / 64) % 64) as byte, (0x80 + v % 64) as byte] + rest;
      LeadLength(e) == 3 && ValueOf(e, 3) == v
  {
    var hi, q, mid, lo := v / 4096, v / 64, (v / 64) % 64, v % 64;
    assert v == q * 64 + lo;
    assert q == hi * 64 + mid;
    assert hi == 0 ==> mid >= 32;
    assert hi == 13 ==> mid < 32;
  }

  lemma FourByteForm(v: int, rest: seq<byte>)
    requires 0x10000 <= v < 0x110000
    ensures var e := [(0xF0 + v / 262144) as byte, (0x80 + (v / 4096) % 64) as byte, (0x80 + (v / 64) % 64) as byte, (0x80 + v % 64) as byte] + rest;
      LeadLength(e) == 4 && ValueOf(e, 4) == v
  {
    var top, q2, q1, a, b, lo := v / 262144, v / 4096, v / 64, (v / 4096) % 64, (v / 64) % 64, v % 64;
    assert v == q1 * 64 + lo;
    assert q1 == q2 * 64 + b;
    assert q2 == top * 64 + a;
    assert top == 0 ==> a >= 16;
    assert top == 4 ==> a < 16;
  }

  /** Decoding undoes encoding: every string survives the round trip. */
  lemma {:induction false} DecodeEncode(s: string)
    ensures Decode(Encode(s)) == Some(s)
  {
    if |s| > 0 {
      var e := Encode(s);
      EncodeCharLeads(s[0], Encode(s[1..]));
      assert e[|EncodeChar(s[0])|..] == Encode(s[1..]);
      DecodeEncode(s[1..]);
      assert (ValueOf(e, |EncodeChar(s[0])|) as char) == s[0];
      assert s == [s[0]] + s[1..];
    }
  }

  /** The well-formed sequence a byte string starts with is the encoding of the character it decodes to. */
  lemma LeadEncodes(bs: seq<byte>)
    requires LeadLength(bs) >= 1
    ensures EncodeChar(ValueOf(bs, LeadLength(bs)) as char) == bs[..LeadLength(bs)]
  {
    var n := LeadLength(bs);
    if n == 2 {
      TwoBytesEncode(bs[0], bs[1]);
      assert bs[..2] == [bs[0], bs[1]];
    } else if n == 3 {
      ThreeBytesEncode(bs[0], bs[1], bs[2]);
      assert bs[..3] == [bs[0], bs[1], bs[2]];
    } else if n == 4 {
      FourBytesEncode(bs[0], bs[1], bs[2], bs[3]);
      assert bs[..4] == [bs[0], bs[1], bs[2], bs[3]];
    }
  }

  lemma SplitSixBits(hi: int, lo: int)
    requires 0 <= lo < 64
    ensures (hi * 64 + lo) / 64 == hi && (hi * 64 + lo) % 64 == lo
  {
  }

  lemma TwoBytesEncode(x0: byte, x1: byte)
    requires 0xC2 <= x0 <= 0xDF && IsContinuation(x1)
    ensures var v := (x0 as int - 0xC0) * 64 + (x1 as int - 0x80);
      0x80 <= v < 0x800 && EncodeChar(v as char) == [x0, x1]
  {
    SplitSixBits(x0 as int - 0xC0, x1 as int - 0x80);
  }

  lemma ThreeBytesEncode(x0: byte, x1: byte, x2: byte)
    requires 0xE0 <= x0 <= 0xEF && IsContinuation(x1) && IsContinuation(x2)
    requires x0 == 0xE0 ==> x1 >= 0xA0
    requires x0 == 0xED ==> x1 <= 0x9F
    ensures var v := (x0 as int - 0xE0) * 4096 + (x1 as int - 0x80) * 64 + (x2 as int - 0x80);
      0x800 <= v < 0x10000 && IsScalar(v) && EncodeChar(v as char) == [x0, x1, x2]
  {
    var a, b, c := x0 as int - 0xE0, x1 as int - 0x80, x2 as int - 0x80;
    var v := a * 4096 + b * 64 + c;
    assert v == (a * 64 + b) * 64 + c;
    SplitSixBits(a * 64 + b, c);
    SplitSixBits(a, b);
    assert v / 4096 == (v / 64) / 64;
  }

  lemma FourBytesEncode(x0: byte, x1: byte, x2: byte, x3: byte)
    requires 0xF0 <= x0 <= 0xF4 && IsContinuation(x1) && IsContinuation(x2) && IsContinuation(x3)
    requires x0 == 0xF0 ==> x1 >= 0x90
    requires x0 == 0xF4 ==> x1 <= 0x8F
    ensures var v := (x0 as int - 0xF0) * 262144 + (x1 as int - 0x80) * 4096 + (x2 as int - 0x80) * 64 + (x3 as int - 0x80);
      0x10000 <= v < 0x110000 && EncodeChar(v as char) == [x0, x1, x2, x3]
  {
    var a, b, c, d := x0 as int - 0xF0, x1 as int - 0x80, x2 as int - 0x80, x3 as int - 0x80;
    var v := a * 262144 + b * 4096 + c * 64 + d;
    assert v == ((a * 64 + b) * 64 + c) * 64 + d;
    SplitSixBits((a * 64 + b) * 64 + c, d);
    SplitSixBits(a * 64 + b, c);
    SplitSixBits(a, b);
    assert v / 4096 == (v / 64) / 64;
    assert v / 262144 == ((v / 64) / 64) / 64;
  }

  /** Encoding undoes decoding: bytes that decode are exactly the encoding of what they decode to. */
  lemma {:induction false} EncodeDecode(bs: seq<byte>)
    requires Decode(bs).Some?
    ensures Encode(Decode(bs).value) == bs
    decreases |bs|
  {
    if |bs| > 0 {
      var n := DecodeStep(bs);
      var s := Decode(bs).value;
      EncodeDecode(bs[n..]);
      LeadEncodes(bs);
      var head, tail := EncodeChar(s[0]), Encode(s[1..]);
      assert head == bs[..n];
      assert tail == bs[n..];
      assert Encode(s) == head + tail;
      Rejoin(bs, n, Encode(s));
    }
  }

  lemma Rejoin(bs: seq<byte>, n: nat, x: seq<byte>)
    requires n <= |bs| && x == bs[..n] + bs[n..]
    ensures x == bs
  {
  }

  /** Decoding and encoding are exact inverses: `bs` decodes to `s` exactly when `s` encodes to `bs`. */
  lemma DecodeIffEncode(bs: seq<byte>, s: string)
    ensures Decode(bs) == Some(s) <==> Encode(s) == bs
  {
    if Decode(bs) == Some(s) {
      EncodeDecode(bs);
    }
    if Encode(s) == bs {
      DecodeEncode(s);
    }
  }

  /** One step of decoding: the first character comes from the leading sequence, the rest from what follows. */
  lemma DecodeStep(bs: seq<byte>) returns (n: nat)
    requires |bs| > 0 && Decode(bs).Some?
    ensures n == LeadLength(bs) && 1 <= n <= |bs| && Decode(bs[n..]).Some?
    ensures var s := Decode(bs).value; |s| > 0 && s[0] == ValueOf(bs, n) as char && s[1..] == Decode(bs[n..]).value
  {
    n := LeadLength(bs);
  }
}
