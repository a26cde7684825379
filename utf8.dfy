/**
  * UTF-8 as defined in section 3 of RFC 3629: the encoding of one Unicode
  * scalar value into one to four octets, its extension to sequences, and a
  * strict decoder that is its inverse. This is the reference the byte encoder
  * of src/index.js is proved against.
  */
module Utf8 {
  import opened Wrappers

  /** An octet: the element of a UTF-8 sequence and of a Uint8Array. */
  type Byte = b: int | 0 <= b < 0x100

  /** A Unicode scalar value: a code point that is not a surrogate. */
  predicate IsScalarValue(cp: int) {
    0 <= cp <= 0x10FFFF && !(0xD800 <= cp <= 0xDFFF)
  }

  predicate AllScalarValues(cps: seq<int>) {
    forall i :: 0 <= i < |cps| ==> IsScalarValue(cps[i])
  }

  /** The row of the RFC 3629 table a code point falls in: its number of octets. */
  function EncodedLength(cp: int): nat {
    if cp < 0x80 then 1
    else if cp < 0x800 then 2
    else if cp < 0x10000 then 3
    else 4
  }

  /** 10xxxxxx */
  predicate IsContinuation(b: Byte) {
    0x80 <= b < 0xC0
  }

  /** The length a first octet announces (0xxxxxxx, 110xxxxx, 1110xxxx, 11110xxx); 0 for any other octet. */
  function LeadLength(b: Byte): nat {
    if b < 0x80 then 1
    else if 0xC0 <= b < 0xE0 then 2
    else if 0xE0 <= b < 0xF0 then 3
    else if 0xF0 <= b < 0xF8 then 4
    else 0
  }

  /**
    * The octets of one scalar value: the high-order bits go into the first
    * octet after its length marker, the rest six at a time into continuation
    * octets.
    */
  function EncodeScalar(cp: int): (bs: seq<Byte>)
    requires IsScalarValue(cp)
    ensures |bs| == EncodedLength(cp)
    ensures LeadLength(bs[0]) == |bs|
    ensures forall i :: 1 <= i < |bs| ==> IsContinuation(bs[i])
  {
    if cp < 0x80 then
      [cp]
    else if cp < 0x800 then
      [0xC0 + cp / 0x40, 0x80 + cp % 0x40]
    else if cp < 0x10000 then
      [0xE0 + cp / 0x40 / 0x40, 0x80 + cp / 0x40 % 0x40, 0x80 + cp % 0x40]
    else
      [0xF0 + cp / 0x40 / 0x40 / 0x40, 0x80 + cp / 0x40 / 0x40 % 0x40, 0x80 + cp / 0x40 % 0x40, 0x80 + cp % 0x40]
  }

  /** The UTF-8 encoding of a sequence of scalar values: the encodings of its elements, in order. */
  function Encode(cps: seq<int>): (bs: seq<Byte>)
    requires AllScalarValues(cps)
    ensures |cps| <= |bs| <= 4 * |cps|
  {
    if cps == [] then [] else EncodeScalar(cps[0]) + Encode(cps[1..])
  }

  /**
    * Decodes exactly one character. Rejects a malformed sequence, an overlong
    * form, a surrogate and anything above U+10FFFF, as RFC 3629 requires.
    */
  function DecodeScalar(bs: seq<Byte>): (r: Option<int>)
    ensures r.Some? ==> IsScalarValue(r.value) && EncodedLength(r.value) == |bs|
  {
    if |bs| == 1 && bs[0] < 0x80 then
      Some(bs[0])
    else if |bs| == 2 && LeadLength(bs[0]) == 2 && IsContinuation(bs[1]) then
      var cp := (bs[0] as int - 0xC0) * 0x40 + (bs[1] as int - 0x80);
      if 0x80 <= cp then Some(cp) else None
    else if |bs| == 3 && LeadLength(bs[0]) == 3 && IsContinuation(bs[1]) && IsContinuation(bs[2]) then
      var cp := ((bs[0] as int - 0xE0) * 0x40 + (bs[1] as int - 0x80)) * 0x40 + (bs[2] as int - 0x80);
      if 0x800 <= cp && !(0xD800 <= cp <= 0xDFFF) then Some(cp) else None
    else if |bs| == 4 && LeadLength(bs[0]) == 4 && IsContinuation(bs[1]) && IsContinuation(bs[2]) && IsContinuation(bs[3]) then
      var cp := (((bs[0] as int - 0xF0) * 0x40 + (bs[1] as int - 0x80)) * 0x40
        + (bs[2] as int - 0x80)) * 0x40 + (bs[3] as int - 0x80);
      if 0x10000 <= cp <= 0x10FFFF then Some(cp) else None
    else
      None
  }

  /** Decodes a whole octet sequence; None unless it is well-formed UTF-8. */
  function Decode(bs: seq<Byte>): (r: Option<seq<int>>)
    ensures r.Some? ==> AllScalarValues(r.value) && |r.value| <= |bs|
    decreases |bs|
  {
    if bs == [] then Some([])
    else
      var n := LeadLength(bs[0]);
      if n == 0 || |bs| < n then None
      else match DecodeScalar(bs[..n])
        case None => None
        case Some(cp) =>
          match Decode(bs[n..])
          case None => None
          case Some(rest) => Some([cp] + rest)
  }

  /** Decoding one character undoes encoding it. */
  lemma DecodeScalarOfEncodeScalar(cp: int)
    requires IsScalarValue(cp)
    ensures DecodeScalar(EncodeScalar(cp)) == Some(cp)
  {
    var bs := EncodeScalar(cp);
    if cp < 0x80 {
    } else if cp < 0x800 {
      var c0, c1 := bs[0] as int - 0xC0, bs[1] as int - 0x80;
      assert c0 == cp / 0x40 && c1 == cp % 0x40;
      assert c0 * 0x40 + c1 == cp;
    } else if cp < 0x1_0000 {
      var c0, c1, c2 := bs[0] as int - 0xE0, bs[1] as int - 0x80, bs[2] as int - 0x80;
      assert c0 == cp / 0x40 / 0x40 && c1 == cp / 0x40 % 0x40 && c2 == cp % 0x40;
      assert (c0 * 0x40 + c1) * 0x40 + c2 == cp;
    } else {
      var c0, c1, c2, c3 := bs[0] as int - 0xF0, bs[1] as int - 0x80, bs[2] as int - 0x80, bs[3] as int - 0x80;
      assert c0 == cp / 0x40 / 0x40 / 0x40 && c1 == cp / 0x40 / 0x40 % 0x40;
      assert c2 == cp / 0x40 % 0x40 && c3 == cp % 0x40;
      assert ((c0 * 0x40 + c1) * 0x40 + c2) * 0x40 + c3 == cp;
    }
  }

  /** Quotient and remainder by 64 of x = q * 64 + r: how one continuation octet's bits come back out. */
  lemma DivMod64(x: int, q: int, r: int)
    requires x == q * 0x40 + r && 0 <= r < 0x40
    ensures x / 0x40 == q && x % 0x40 == r
  {
  }

  /** Encoding a decoded character gives back its octets. */
  lemma EncodeScalarOfDecodeScalar(bs: seq<Byte>)
    requires DecodeScalar(bs).Some?
    ensures EncodeScalar(DecodeScalar(bs).value) == bs
  {
    var cp := DecodeScalar(bs).value;
    if |bs| == 2 {
      DivMod64(cp, bs[0] as int - 0xC0, bs[1] as int - 0x80);
    } else if |bs| == 3 {
      ThreeOctetsOfDecode(bs, cp);
    } else if |bs| == 4 {
      FourOctetsOfDecode(bs, cp);
    }
  }

  lemma ThreeOctetsOfDecode(bs: seq<Byte>, cp: int)
    requires |bs| == 3 && DecodeScalar(bs) == Some(cp)
    ensures EncodeScalar(cp) == bs
  {
    var c0, c1, c2 := bs[0] as int - 0xE0, bs[1] as int - 0x80, bs[2] as int - 0x80;
    assert cp == (c0 * 0x40 + c1) * 0x40 + c2;
    DivMod64(cp, c0 * 0x40 + c1, c2);
    DivMod64(cp / 0x40, c0, c1);
  }

  lemma FourOctetsOfDecode(bs: seq<Byte>, cp: int)
    requires |bs| == 4 && DecodeScalar(bs) == Some(cp)
    ensures EncodeScalar(cp) == bs
  {
    var c0, c1, c2, c3 := bs[0] as int - 0xF0, bs[1] as int - 0x80, bs[2] as int - 0x80, bs[3] as int - 0x80;
    assert cp == ((c0 * 0x40 + c1) * 0x40 + c2) * 0x40 + c3;
    DivMod64(cp, (c0 * 0x40 + c1) * 0x40 + c2, c3);
    DivMod64(cp / 0x40, c0 * 0x40 + c1, c2);
    DivMod64(cp / 0x40 / 0x40, c0, c1);
  }

  /** Encoding distributes over concatenation. */
  lemma {:induction false} EncodeAppend(a: seq<int>, b: seq<int>)
    requires AllScalarValues(a) && AllScalarValues(b)
    ensures AllScalarValues(a + b)
    ensures Encode(a + b) == Encode(a) + Encode(b)
  {
    if a == [] {
      assert a + b == b;
    } else {
      assert (a + b)[0] == a[0] && (a + b)[1..] == a[1..] + b;
      EncodeAppend(a[1..], b);
      calc {
        Encode(a + b);
        EncodeScalar(a[0]) + Encode(a[1..] + b);
        EncodeScalar(a[0]) + (Encode(a[1..]) + Encode(b));
        (EncodeScalar(a[0]) + Encode(a[1..])) + Encode(b);
      }
    }
  }

  /** A sequence of ASCII code points encodes to those same values, one octet each. */
  lemma {:induction false} EncodeAscii(cps: seq<int>)
    requires forall i :: 0 <= i < |cps| ==> 0 <= cps[i] < 0x80
    ensures AllScalarValues(cps)
    ensures Encode(cps) == cps
  {
    if cps != [] {
      EncodeAscii(cps[1..]);
    }
  }

  /** Decoding undoes encoding. */
  lemma {:induction false} DecodeOfEncode(cps: seq<int>)
    requires AllScalarValues(cps)
    ensures Decode(Encode(cps)) == Some(cps)
  {
    if cps != [] {
      var head := EncodeScalar(cps[0]);
      var bs := Encode(cps);
      assert bs == head + Encode(cps[1..]);
      assert bs[..|head|] == head;
      assert bs[|head|..] == Encode(cps[1..]);
      DecodeScalarOfEncodeScalar(cps[0]);
      DecodeOfEncode(cps[1..]);
      assert [cps[0]] + cps[1..] == cps;
    }
  }

  /** Encoding one more scalar value in front puts its octets in front. */
  lemma EncodeCons(cp: int, rest: seq<int>)
    requires IsScalarValue(cp) && AllScalarValues(rest)
    ensures AllScalarValues([cp] + rest)
    ensures Encode([cp] + rest) == EncodeScalar(cp) + Encode(rest)
  {
    assert ([cp] + rest)[0] == cp && ([cp] + rest)[1..] == rest;
  }

  /** A well-formed nonempty sequence is one decodable character followed by a well-formed rest. */
  lemma DecodeStep(bs: seq<Byte>)
    requires bs != [] && Decode(bs).Some?
    ensures 1 <= LeadLength(bs[0]) <= |bs|
    ensures DecodeScalar(bs[..LeadLength(bs[0])]).Some? && Decode(bs[LeadLength(bs[0])..]).Some?
    ensures Decode(bs).value
      == [DecodeScalar(bs[..LeadLength(bs[0])]).value] + Decode(bs[LeadLength(bs[0])..]).value
  {
  }

  /** Every well-formed octet sequence is the encoding of what it decodes to. */
  lemma {:induction false} EncodeOfDecode(bs: seq<Byte>)
    requires Decode(bs).Some?
    ensures Encode(Decode(bs).value) == bs
    decreases |bs|
  {
    if bs != [] {
      DecodeStep(bs);
      var n := LeadLength(bs[0]);
      var cp, rest := DecodeScalar(bs[..n]).value, Decode(bs[n..]).value;
      EncodeScalarOfDecodeScalar(bs[..n]);
      EncodeOfDecode(bs[n..]);
      EncodeCons(cp, rest);
      assert bs == bs[..n] + bs[n..];
    }
  }
}
