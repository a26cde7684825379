/**
  * unicodeStringToTypedArray of src/index.js: encodeURIComponent, then every
  * "%XY" escape turned back into the one code unit with value 0xXY, then the
  * code units copied one by one into a new Uint8Array. The result is proved
  * to be the UTF-8 encoding (RFC 3629) of the string's scalar values.
  */
module TypedArray {
  import opened Wrappers
  import Utf8
  import opened Utf16
  import opened UriEncoding

  type Byte = Utf8.Byte

  /** The character class [0-9A-F] of the pattern /%([0-9A-F]{2})/g. */
  predicate IsUpperHex(c: CodeUnit)
    ensures IsUpperHex(c) ==> IsUriUnreserved(c) && c != Percent
  {
    '0' as int <= c <= '9' as int || 'A' as int <= c <= 'F' as int
  }

  /** The number a two-digit match denotes: String.fromCharCode('0x' + p1) reads p1 as hexadecimal. */
  function HexValue(c: CodeUnit): (d: int)
    requires IsUpperHex(c)
    ensures 0 <= d < 16 && HexDigit(d) == c
  {
    if c <= '9' as int then c - '0' as int else c - 'A' as int + 10
  }

  /**
    * escstr.replace(/%([0-9A-F]{2})/g, ...): scanning left to right, each
    * match is replaced by one code unit and the scan resumes after it; any
    * other code unit is kept.
    */
  function UnescapeHexPairs(s: JsString): (r: JsString)
    ensures |r| <= |s|
    decreases |s|
  {
    if |s| >= 3 && s[0] == Percent && IsUpperHex(s[1]) && IsUpperHex(s[2]) then
      [HexValue(s[1]) * 16 + HexValue(s[2])] + UnescapeHexPairs(s[3..])
    else if s == [] then []
    else [s[0]] + UnescapeHexPairs(s[1..])
  }

  /** ToUint8: what storing a number into a Uint8Array element keeps of it. */
  function ToUint8(x: int): (b: Byte)
    ensures 0 <= x < 0x100 ==> b == x
  {
    x % 0x100
  }

  /** The reference result: the UTF-8 octets of the scalar values the string stands for. */
  function Utf8Bytes(s: JsString): Option<seq<Byte>> {
    match Decode(s)
    case None => None
    case Some(cps) => Some(Utf8.Encode(cps))
  }

  /** src/index.js:73-83. Throws (here: Err) exactly on a lone surrogate; otherwise returns the UTF-8 octets. */
  method UnicodeStringToTypedArray(s: JsString) returns (r: Result<array<Byte>, UriError>)
    ensures r.Err? <==> HasUnpairedSurrogate(s)
    ensures r.Ok? ==> fresh(r.value) && Utf8Bytes(s) == Some(r.value[..])
  {
    var escstr := EncodeURIComponent(s);
    if escstr.Err? {
      UnescapedOctets(s);
      return Err(escstr.error);
    }
    var binstr := UnescapeHexPairs(escstr.value);
    var ua := new Byte[|binstr|];
    for i := 0 to |binstr|
      invariant forall j :: 0 <= j < i ==> ua[j] == ToUint8(binstr[j])
    {
      ua[i] := ToUint8(binstr[i]);
    }
    UnescapedOctets(s);
    assert ua[..] == binstr;
    return Ok(ua);
  }

  /** What the method relies on: the encoder fails exactly on a lone surrogate, and the replace yields the octets. */
  lemma UnescapedOctets(s: JsString)
    ensures EncodeURIComponent(s).Err? <==> HasUnpairedSurrogate(s)
    ensures EncodeURIComponent(s).Ok? ==> Utf8Bytes(s).Some? && UnescapeHexPairs(EncodeURIComponent(s).value) == Utf8Bytes(s).value
  {
    EncodeThenUnescape(s);
    DecodeFailsIffUnpaired(s);
  }

  lemma HexValueOfHexDigit(d: int)
    requires 0 <= d < 16
    ensures IsUpperHex(HexDigit(d)) && HexValue(HexDigit(d)) == d
  {
  }

  /** One escape is one match: the replace turns it back into its octet. */
  lemma UnescapeEscape(b: Byte, rest: JsString)
    ensures UnescapeHexPairs(Escape(b) + rest) == [b] + UnescapeHexPairs(rest)
  {
    HexValueOfHexDigit(b / 16);
    HexValueOfHexDigit(b % 16);
    var s := Escape(b) + rest;
    assert s[0] == Percent && s[1] == HexDigit(b / 16) && s[2] == HexDigit(b % 16) && s[3..] == rest;
  }

  /** The replace undoes the escapes of a sequence of octets, and leaves what follows for itself. */
  lemma {:induction false} UnescapePercentEncode(octets: seq<Byte>, rest: JsString)
    ensures UnescapeHexPairs(PercentEncode(octets) + rest) == octets + UnescapeHexPairs(rest)
  {
    if octets == [] {
      assert PercentEncode(octets) + rest == rest;
    } else {
      var b, more := octets[0], octets[1..];
      var tail := PercentEncode(more) + rest;
      assert PercentEncode(octets) == Escape(b) + PercentEncode(more);
      SeqAssoc(Escape(b), PercentEncode(more), rest);
      UnescapeEscape(b, tail);
      UnescapePercentEncode(more, rest);
      SeqAssoc([b], more, UnescapeHexPairs(rest));
      assert [b] + more == octets;
    }
  }

  /** Proof helper: regrouping a concatenation. */
  lemma SeqAssoc<T>(a: seq<T>, b: seq<T>, c: seq<T>)
    ensures (a + b) + c == a + (b + c)
  {
  }

  /** A code unit encodeURIComponent leaves as it is cannot start a match, so the replace keeps it. */
  lemma UnescapeUnreserved(c: CodeUnit, rest: JsString)
    requires IsUriUnreserved(c)
    ensures UnescapeHexPairs([c] + rest) == [c] + UnescapeHexPairs(rest)
  {
    assert ([c] + rest)[1..] == rest;
  }

  /**
    * The heart of the encoder: encodeURIComponent throws exactly when the
    * string is not well-formed UTF-16, and otherwise the replace turns its
    * output into the UTF-8 octets of the string's scalar values.
    */
  lemma {:induction false} EncodeThenUnescape(s: JsString)
    ensures EncodeURIComponent(s).Err? <==> Decode(s).None?
    ensures EncodeURIComponent(s).Ok? ==> Utf8Bytes(s) == Some(UnescapeHexPairs(EncodeURIComponent(s).value))
    decreases |s|
  {
    if s == [] {
    } else if IsUriUnreserved(s[0]) {
      EncodeThenUnescape(s[1..]);
      if EncodeURIComponent(s[1..]).Ok? {
        var rest, cps := EncodeURIComponent(s[1..]).value, Decode(s[1..]).value;
        UnescapeUnreserved(s[0], rest);
        Utf8.EncodeCons(s[0], cps);
      }
    } else {
      var cp := CodePointAt(s, 0);
      if !cp.isUnpairedSurrogate {
        var n := cp.codeUnitCount;
        EncodeThenUnescape(s[n..]);
        if EncodeURIComponent(s[n..]).Ok? {
          var rest, cps := EncodeURIComponent(s[n..]).value, Decode(s[n..]).value;
          UnescapePercentEncode(Utf8.EncodeScalar(cp.codePoint), rest);
          Utf8.EncodeCons(cp.codePoint, cps);
        }
      }
    }
  }

  /** Encoding distributes over concatenation of well-formed strings. */
  lemma Utf8BytesAppend(s: JsString, t: JsString)
    requires Utf8Bytes(s).Some? && Utf8Bytes(t).Some?
    ensures Utf8Bytes(s + t) == Some(Utf8Bytes(s).value + Utf8Bytes(t).value)
  {
    DecodeAppend(s, t);
    Utf8.EncodeAppend(Decode(s).value, Decode(t).value);
  }

  /** The two halves of a surrogate pair fail on their own, though together they encode. */
  lemma SplitPairHalvesFail()
    ensures Utf8Bytes([0xD83D]).None? && Utf8Bytes([0xDE00]).None?
    ensures Utf8Bytes([0xD83D, 0xDE00]) == Some([0xF0, 0x9F, 0x98, 0x80])
  {
    assert UnpairedAt([0xD83D], 0) && UnpairedAt([0xDE00], 0);
    var pair: JsString := [0xD83D, 0xDE00];
    assert SurrogatePair(0xD83D, 0xDE00) == 0x1_F600;
    assert pair[2..] == [] && Decode(pair[2..]) == Some([]);
    assert IsLeadingSurrogate(pair[0]) && IsTrailingSurrogate(pair[1]);
    assert Decode(pair) == Some([0x1_F600] + []);
    assert Utf8.EncodeScalar(0x1_F600) == [0xF0, 0x9F, 0x98, 0x80];
    Utf8.EncodeCons(0x1_F600, []);
    assert [0x1_F600] + [] == [0x1_F600];
    assert Utf8.Encode([0x1_F600]) == [0xF0, 0x9F, 0x98, 0x80];
    assert Utf8Bytes(pair) == Some([0xF0, 0x9F, 0x98, 0x80]);
  }

  /** An ASCII string encodes to its own code units. */
  lemma {:induction false} Utf8BytesAscii(s: JsString)
    requires forall i :: 0 <= i < |s| ==> s[i] < 0x80
    ensures Utf8Bytes(s) == Some(s)
  {
    DecodeAscii(s);
    Utf8.EncodeAscii(s);
  }

  lemma {:induction false} DecodeAscii(s: JsString)
    requires forall i :: 0 <= i < |s| ==> s[i] < 0x80
    ensures Decode(s) == Some(s)
  {
    if s != [] {
      DecodeAscii(s[1..]);
      assert [s[0] as int] + s[1..] == s;
    }
  }

  /** Each code unit of a well-formed string gives one to three octets. */
  lemma {:induction false} Utf8BytesLength(s: JsString)
    requires Utf8Bytes(s).Some?
    ensures |s| <= |Utf8Bytes(s).value| <= 3 * |s|
    decreases |s|
  {
    if s != [] {
      var n := if !IsLeadingSurrogate(s[0]) && !IsTrailingSurrogate(s[0]) then 1 else 2;
      var cp := if n == 1 then s[0] as int else SurrogatePair(s[0], s[1]);
      Utf8BytesLength(s[n..]);
      Utf8.EncodeCons(cp, Decode(s[n..]).value);
    }
  }
}
