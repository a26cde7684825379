/**
  * JavaScript strings as sequences of UTF-16 code units, and the reference
  * reading of such a string as Unicode scalar values: a leading surrogate
  * followed by a trailing one stands for one supplementary code point; every
  * other unit stands for itself, except a surrogate without its partner,
  * which makes the string ill-formed.
  */
module Utf16 {
  import opened Wrappers
  import Utf8

  /** One element of a JavaScript string. */
  type CodeUnit = c: int | 0 <= c < 0x1_0000

  type JsString = seq<CodeUnit>

  predicate IsLeadingSurrogate(c: int) {
    0xD800 <= c <= 0xDBFF
  }

  predicate IsTrailingSurrogate(c: int) {
    0xDC00 <= c <= 0xDFFF
  }

  /** The code point a surrogate pair stands for. */
  function SurrogatePair(lead: int, trail: int): (cp: int)
    requires IsLeadingSurrogate(lead) && IsTrailingSurrogate(trail)
    ensures 0x1_0000 <= cp <= 0x10_FFFF
  {
    (lead - 0xD800) * 0x400 + (trail - 0xDC00) + 0x1_0000
  }

  /** Position i holds a surrogate that is not half of a pair. */
  predicate UnpairedAt(s: JsString, i: int)
    requires 0 <= i < |s|
  {
    (IsLeadingSurrogate(s[i]) && (i + 1 == |s| || !IsTrailingSurrogate(s[i + 1])))
    || (IsTrailingSurrogate(s[i]) && (i == 0 || !IsLeadingSurrogate(s[i - 1])))
  }

  predicate HasUnpairedSurrogate(s: JsString) {
    exists i :: 0 <= i < |s| && UnpairedAt(s, i)
  }

  /** The scalar values a well-formed string stands for; None when it holds a lone surrogate. */
  function Decode(s: JsString): (r: Option<seq<int>>)
    ensures r.Some? ==> Utf8.AllScalarValues(r.value) && |r.value| <= |s|
    decreases |s|
  {
    if s == [] then Some([])
    else if !IsLeadingSurrogate(s[0]) && !IsTrailingSurrogate(s[0]) then
      match Decode(s[1..])
      case None => None
      case Some(rest) => Some([s[0] as int] + rest)
    else if IsLeadingSurrogate(s[0]) && |s| >= 2 && IsTrailingSurrogate(s[1]) then
      match Decode(s[2..])
      case None => None
      case Some(rest) => Some([SurrogatePair(s[0], s[1])] + rest)
    else
      None
  }

  /** An unpaired surrogate in a suffix that does not start inside a pair is one in the whole string. */
  lemma UnpairedInSuffix(s: JsString, k: nat, j: nat)
    requires 1 <= k <= 2 && k + j < |s|
    requires k == 2 ==> IsTrailingSurrogate(s[1])
    requires k == 1 ==> !IsLeadingSurrogate(s[0])
    ensures UnpairedAt(s[k..], j) <==> UnpairedAt(s, k + j)
  {
  }

  /** Decoding fails exactly when the string holds a surrogate that is not half of a pair. */
  lemma {:induction false} DecodeFailsIffUnpaired(s: JsString)
    ensures Decode(s).None? <==> HasUnpairedSurrogate(s)
    decreases |s|
  {
    if s == [] {
    } else if !IsLeadingSurrogate(s[0]) && !IsTrailingSurrogate(s[0]) {
      DecodeFailsIffUnpaired(s[1..]);
      SuffixUnpaired(s, 1);
    } else if IsLeadingSurrogate(s[0]) && |s| >= 2 && IsTrailingSurrogate(s[1]) {
      DecodeFailsIffUnpaired(s[2..]);
      SuffixUnpaired(s, 2);
    } else {
      assert UnpairedAt(s, 0);
    }
  }

  /**
    * When s starts with a code point of k units, s holds an unpaired surrogate
    * exactly when the rest of it does.
    */
  lemma SuffixUnpaired(s: JsString, k: nat)
    requires 1 <= k <= 2 && k <= |s|
    requires k == 1 ==> !IsLeadingSurrogate(s[0]) && !IsTrailingSurrogate(s[0])
    requires k == 2 ==> IsLeadingSurrogate(s[0]) && IsTrailingSurrogate(s[1])
    ensures HasUnpairedSurrogate(s) <==> HasUnpairedSurrogate(s[k..])
  {
    if HasUnpairedSurrogate(s) {
      var i :| 0 <= i < |s| && UnpairedAt(s, i);
      assert i >= k;
      UnpairedInSuffix(s, k, i - k);
    }
    if HasUnpairedSurrogate(s[k..]) {
      var j :| 0 <= j < |s[k..]| && UnpairedAt(s[k..], j);
      UnpairedInSuffix(s, k, j);
    }
  }

  /** Two well-formed strings concatenate to a well-formed string whose scalar values are theirs, in order. */
  lemma {:induction false} DecodeAppend(s: JsString, t: JsString)
    requires Decode(s).Some? && Decode(t).Some?
    ensures Decode(s + t) == Some(Decode(s).value + Decode(t).value)
    decreases |s|
  {
    if s == [] {
      assert s + t == t && Decode(s).value == [];
      assert Decode(s).value + Decode(t).value == Decode(t).value;
    } else if !IsLeadingSurrogate(s[0]) && !IsTrailingSurrogate(s[0]) {
      assert (s + t)[0] == s[0] && (s + t)[1..] == s[1..] + t;
      DecodeAppend(s[1..], t);
      var head, ds, dt := [s[0] as int], Decode(s[1..]).value, Decode(t).value;
      assert head + (ds + dt) == (head + ds) + dt;
    } else {
      assert (s + t)[0] == s[0] && (s + t)[1] == s[1] && (s + t)[2..] == s[2..] + t;
      DecodeAppend(s[2..], t);
      var head, ds, dt := [SurrogatePair(s[0], s[1])], Decode(s[2..]).value, Decode(t).value;
      assert head + (ds + dt) == (head + ds) + dt;
    }
  }
}
