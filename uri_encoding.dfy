/**
  * encodeURIComponent: the Encode operation of ECMA-262 (section 19.2.6, URI
  * handling functions) with the unescaped set of encodeURIComponent. Each
  * code unit in that set is copied; every other code point is replaced by
  * "%XY" triples, one per octet of its UTF-8 encoding, in uppercase
  * hexadecimal; a lone surrogate throws a URIError.
  */
module UriEncoding {
  import opened Wrappers
  import Utf8
  import opened Utf16

  /** The exception encodeURIComponent throws. */
  datatype UriError = URIError

  /** uriAlpha, DecimalDigit and uriMark: the code units encodeURIComponent leaves as they are. */
  predicate IsUriUnreserved(c: CodeUnit)
    ensures IsUriUnreserved(c) ==> c < 0x80 && c != Percent
  {
    ('a' as int <= c <= 'z' as int) || ('A' as int <= c <= 'Z' as int) || ('0' as int <= c <= '9' as int)
    || c == '-' as int || c == '_' as int || c == '.' as int || c == '!' as int || c == '~' as int
    || c == '*' as int || c == '\'' as int || c == '(' as int || c == ')' as int
  }

  /** The record CodePointAt returns. */
  datatype CodePointRecord = CodePointRecord(codePoint: int, codeUnitCount: nat, isUnpairedSurrogate: bool)

  /** CodePointAt of ECMA-262: the code point that starts at a position, and how many code units it takes. */
  function CodePointAt(s: JsString, position: nat): (r: CodePointRecord)
    requires position < |s|
    ensures 1 <= r.codeUnitCount && position + r.codeUnitCount <= |s|
    ensures !r.isUnpairedSurrogate ==> Utf8.IsScalarValue(r.codePoint)
    ensures r.isUnpairedSurrogate ==> IsLeadingSurrogate(s[position]) || IsTrailingSurrogate(s[position])
    ensures position == 0 ==> (r.isUnpairedSurrogate <==> UnpairedAt(s, 0))
  {
    var first := s[position];
    if !IsLeadingSurrogate(first) && !IsTrailingSurrogate(first) then
      CodePointRecord(first, 1, false)
    else if IsTrailingSurrogate(first) || position + 1 == |s| then
      CodePointRecord(first, 1, true)
    else
      var second := s[position + 1];
      if !IsTrailingSurrogate(second) then CodePointRecord(first, 1, true)
      else CodePointRecord(SurrogatePair(first, second), 2, false)
  }

  const Percent: CodeUnit := '%' as int

  /** The uppercase hexadecimal digit of a value below 16. */
  function HexDigit(d: int): (c: CodeUnit)
    requires 0 <= d < 16
    ensures '0' as int <= c <= '9' as int || 'A' as int <= c <= 'F' as int
  {
    if d < 10 then '0' as int + d else 'A' as int + (d - 10)
  }

  /** "%" and the two uppercase hexadecimal digits of one octet. */
  function Escape(b: Utf8.Byte): (r: JsString)
    ensures |r| == 3 && forall i :: 0 <= i < 3 ==> IsEncodedUnit(r[i])
    ensures r[0] == Percent && r[1] == HexDigit(b / 16) && r[2] == HexDigit(b % 16)
  {
    [Percent, HexDigit(b / 16), HexDigit(b % 16)]
  }

  /** The escapes of a sequence of octets, in order. */
  function PercentEncode(octets: seq<Utf8.Byte>): (r: JsString)
    ensures |r| == 3 * |octets|
    ensures forall i :: 0 <= i < |r| ==> IsEncodedUnit(r[i])
  {
    if octets == [] then []
    else Escape(octets[0]) + PercentEncode(octets[1..])
  }

  /** Every code unit encodeURIComponent can produce. */
  predicate IsEncodedUnit(c: CodeUnit) {
    IsUriUnreserved(c) || c == Percent
  }

  function EncodeURIComponent(s: JsString): (r: Result<JsString, UriError>)
    ensures r.Ok? ==> forall i :: 0 <= i < |r.value| ==> IsEncodedUnit(r.value[i])
    ensures r.Ok? ==> |s| <= |r.value|
    decreases |s|
  {
    if s == [] then Ok([])
    else if IsUriUnreserved(s[0]) then
      match EncodeURIComponent(s[1..])
      case Err(e) => Err(e)
      case Ok(rest) => Ok([s[0]] + rest)
    else
      var cp := CodePointAt(s, 0);
      if cp.isUnpairedSurrogate then Err(URIError)
      else
        match EncodeURIComponent(s[cp.codeUnitCount..])
        case Err(e) => Err(e)
        case Ok(rest) => Ok(PercentEncode(Utf8.EncodeScalar(cp.codePoint)) + rest)
  }
}
