/**
  * The string signedPayloadToString builds before base-encoding it: the
  * message, the signature's string form and the public key's string form,
  * joined by '|'. Splitting on '|' gives the three parts back only when none
  * of them holds a '|'; since the message may, the parts are recovered from
  * the right: the last two fields are the signature and the key, and
  * everything before them is the message.
  */
module SignedPayload {
  import opened Wrappers
  import opened Utf16

  const Bar: CodeUnit := '|' as int

  /** `${message}|${signature}|${publicKey}` */
  function PayloadString(message: JsString, signature: JsString, publicKey: JsString): (s: JsString)
    ensures |s| == |message| + |signature| + |publicKey| + 2
    ensures s[..|message|] == message && s[|message|] == Bar
    ensures s[|message| + 1..|message| + 1 + |signature|] == signature && s[|message| + 1 + |signature|] == Bar
    ensures s[|message| + |signature| + 2..] == publicKey
  {
    message + [Bar] + signature + [Bar] + publicKey
  }

  /** String.prototype.split with a one-unit separator: the pieces between separators, empty ones included. */
  function Split(s: JsString, sep: CodeUnit): (fields: seq<JsString>)
    ensures |fields| >= 1
    ensures forall i :: 0 <= i < |fields| ==> sep !in fields[i]
  {
    if s == [] then [[]]
    else
      var rest := Split(s[1..], sep);
      if s[0] == sep then [[]] + rest
      else [[s[0]] + rest[0]] + rest[1..]
  }

  /** Array.prototype.join with a one-unit separator. */
  function Join(fields: seq<JsString>, sep: CodeUnit): JsString
    requires |fields| >= 1
  {
    if |fields| == 1 then fields[0] else fields[0] + [sep] + Join(fields[1..], sep)
  }

  /** Joining the pieces of a split with the same separator gives the string back. */
  lemma {:induction false} JoinSplit(s: JsString, sep: CodeUnit)
    ensures Join(Split(s, sep), sep) == s
  {
    if s != [] {
      var rest := Split(s[1..], sep);
      JoinSplit(s[1..], sep);
      if s[0] == sep {
        assert Split(s, sep)[1..] == rest;
      } else if |rest| == 1 {
        assert [s[0]] + s[1..] == s;
      } else {
        var fields := Split(s, sep);
        assert fields[1..] == rest[1..];
        assert Join(rest, sep) == rest[0] + [sep] + Join(rest[1..], sep);
        assert [s[0]] + s[1..] == s;
      }
    }
  }

  /** A string without the separator is a single piece. */
  lemma {:induction false} SplitWithoutSeparator(s: JsString, sep: CodeUnit)
    requires sep !in s
    ensures Split(s, sep) == [s]
  {
    if s != [] {
      SplitWithoutSeparator(s[1..], sep);
      assert [s[0]] + s[1..] == s;
    }
  }

  /** A separator in the string makes at least two pieces. */
  lemma {:induction false} SplitAtSeparator(s: JsString, sep: CodeUnit)
    requires sep in s
    ensures |Split(s, sep)| >= 2
  {
    if s[0] != sep {
      SplitAtSeparator(s[1..], sep);
    }
  }

  /** Splitting around one separator splits each side on its own. */
  lemma {:induction false} SplitAround(a: JsString, b: JsString, sep: CodeUnit)
    ensures Split(a + [sep] + b, sep) == Split(a, sep) + Split(b, sep)
  {
    if a == [] {
      assert ([sep] + b)[1..] == b;
    } else {
      var s := a + [sep] + b;
      assert s[0] == a[0] && s[1..] == a[1..] + [sep] + b;
      SplitAround(a[1..], b, sep);
    }
  }

  /** Splitting the payload on '|' gives back its three parts exactly when none of them holds a '|'. */
  lemma SplitPayload(message: JsString, signature: JsString, publicKey: JsString)
    ensures Split(PayloadString(message, signature, publicKey), Bar) == [message, signature, publicKey]
      <==> Bar !in message && Bar !in signature && Bar !in publicKey
  {
    SplitAround(message + [Bar] + signature, publicKey, Bar);
    SplitAround(message, signature, Bar);
    if Bar in message { SplitAtSeparator(message, Bar); }
    if Bar in signature { SplitAtSeparator(signature, Bar); }
    if Bar in publicKey { SplitAtSeparator(publicKey, Bar); }
    if Bar !in message && Bar !in signature && Bar !in publicKey {
      SplitWithoutSeparator(message, Bar);
      SplitWithoutSeparator(signature, Bar);
      SplitWithoutSeparator(publicKey, Bar);
    }
  }

  /** Reads a payload string from the right: message, signature and public key. */
  function ParsePayload(s: JsString): Option<(JsString, JsString, JsString)> {
    var fields := Split(s, Bar);
    if |fields| < 3 then None
    else Some((Join(fields[..|fields| - 2], Bar), fields[|fields| - 2], fields[|fields| - 1]))
  }

  /** Whatever the message holds, the parts come back when the signature and key hold no '|'. */
  lemma ParsePayloadString(message: JsString, signature: JsString, publicKey: JsString)
    requires Bar !in signature && Bar !in publicKey
    ensures ParsePayload(PayloadString(message, signature, publicKey)) == Some((message, signature, publicKey))
  {
    SplitAround(message + [Bar] + signature, publicKey, Bar);
    SplitAround(message, signature, Bar);
    SplitWithoutSeparator(signature, Bar);
    SplitWithoutSeparator(publicKey, Bar);
    var fields := Split(PayloadString(message, signature, publicKey), Bar);
    assert fields == Split(message, Bar) + [signature] + [publicKey];
    assert fields[..|fields| - 2] == Split(message, Bar);
    JoinSplit(message, Bar);
  }

  /** Every string the parser accepts is the payload string of what it returns. */
  lemma PayloadStringOfParse(s: JsString)
    requires ParsePayload(s).Some?
    ensures var (message, signature, publicKey) := ParsePayload(s).value;
      Bar !in signature && Bar !in publicKey && PayloadString(message, signature, publicKey) == s
  {
    JoinSplit(s, Bar);
    JoinLastTwo(Split(s, Bar), Bar);
  }

  /** Join of at least three pieces: the join of all but the last two, then the last two. */
  lemma {:induction false} JoinLastTwo(fields: seq<JsString>, sep: CodeUnit)
    requires |fields| >= 3
    ensures Join(fields, sep)
      == Join(fields[..|fields| - 2], sep) + [sep] + fields[|fields| - 2] + [sep] + fields[|fields| - 1]
  {
    var n := |fields|;
    if n == 3 {
      assert fields[1..][1..] == [fields[2]];
      assert Join(fields[1..], sep) == fields[1] + [sep] + fields[2];
      assert Join(fields[..1], sep) == fields[0];
    } else {
      JoinLastTwo(fields[1..], sep);
      assert fields[1..][..n - 3] == fields[..n - 2][1..];
    }
  }
}
