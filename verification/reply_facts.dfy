/**
 * What parseJson reads, stated by position: each lemma names the indices
 * the scanner's searches land on and says what comes out, so the decoder's
 * behaviour is described without its npos arithmetic. The lemmas for the
 * defined-but-odd cases (a missing quote wrapping `npos + 1` to 0) state
 * what the code does there.
 */
module ReplyFacts {
  import opened Wrappers
  import opened CppString
  import opened Reply

  // ---------------------------------------------------------------------
  // The object slice (lines 133-136)

  /** With `{` first at `b` and `}` last at `e`, the slice is `j[b..e + 1]`, braces included. */
  lemma SliceSpan(j: StdString, b: nat, e: nat)
    requires b < e < |j| && j[b] == '{' && j[e] == '}'
    requires forall i | 0 <= i < b :: j[i] != '{'
    requires forall i | e < i < |j| :: j[i] != '}'
    ensures Slice(j) == Success(j[b..e + 1])
  {
    FindUnique(j, '{', 0, b);
    RFindUnique(j, '}', e);
  }

  // ---------------------------------------------------------------------
  // success (lines 137-140)

  /** "Missing success" exactly when the marker occurs nowhere in the slice. */
  lemma SuccessMissing(s: StdString)
    ensures SuccessFlag(s).Failure? <==> forall i: nat :: !OccursAt(s, SUCCESS_MARKER, i)
    ensures SuccessFlag(s).Failure? ==> SuccessFlag(s).error == MissingSuccess
  {
    FindSubFirst(s, SUCCESS_MARKER, 0);
  }

  /** `success` is whether the text after the first marker, up to the next
      `,` or `}` (or the end), is exactly `true`. */
  lemma SuccessValue(s: StdString, p: nat, e: nat)
    requires FirstOccurrence(s, SUCCESS_MARKER, p)
    requires p + 10 <= e <= |s|
    requires e < |s| ==> s[e] == ',' || s[e] == '}'
    requires forall i | p + 10 <= i < e :: s[i] != ',' && s[i] != '}'
    ensures SuccessFlag(s) == Success(s[p + 10..e] == "true")
  {
    FindSubUnique(s, SUCCESS_MARKER, p);
    FlagBetween(s, p + 10, e);
  }

  lemma FlagBetween(s: StdString, from: nat, e: nat)
    requires from <= e <= |s|
    requires e < |s| ==> s[e] == ',' || s[e] == '}'
    requires forall i | from <= i < e :: s[i] != ',' && s[i] != '}'
    ensures FlagAt(s, from) == (s[from..e] == "true")
  {
    FindFirstOfUnique(s, {',', '}'}, from, if e == |s| then NPOS else e);
  }

  /** `"success": true`, with a space after the colon, reads as false. */
  lemma SpacedTrueReadsFalse(s: StdString, p: nat)
    requires FirstOccurrence(s, SUCCESS_MARKER, p)
    requires p + 10 < |s| && s[p + 10] == ' '
    ensures SuccessFlag(s) == Success(false)
  {
    FindSubUnique(s, SUCCESS_MARKER, p);
    var endp := FindFirstOf(s, {',', '}'}, p + 10);
    var flag := Substr(s, p + 10, Wrap(endp - (p + 10)));
    assert flag == [] || flag[0] == ' ';
  }

  // ---------------------------------------------------------------------
  // Quoted text: `substr(q1 + 1, q2 - q1 - 1)` with `q2` the next quote

  /** With a closing quote at `q2`, the text strictly between the quotes. */
  lemma QuotedBetween(s: StdString, q1: nat, q2: nat)
    requires q1 < q2 < |s| && s[q2] == '"'
    requires forall i | q1 < i < q2 :: s[i] != '"'
    ensures QuotedFrom(s, q1) == s[q1 + 1..q2]
  {
    FindUnique(s, '"', q1 + 1, q2);
  }

  /** Without a closing quote, `q2 - q1 - 1` wraps to a huge count: everything after `q1`. */
  lemma QuotedUnclosed(s: StdString, q1: nat)
    requires q1 < |s|
    requires forall i | q1 < i < |s| :: s[i] != '"'
    ensures QuotedFrom(s, q1) == s[q1 + 1..]
  {
    FindUnique(s, '"', q1 + 1, NPOS);
  }

  /** From npos, `q1 + 1` wraps to 0 and `q2 - q1 - 1` to `q2`: the text up to
      the first quote `k` of `s` (all of `s`, with `k == |s|`, when it has none). */
  lemma QuotedFromNpos(s: StdString, k: nat)
    requires k <= |s| && (k < |s| ==> s[k] == '"')
    requires forall i | 0 <= i < k :: s[i] != '"'
    ensures QuotedFrom(s, NPOS) == s[..k]
  {
    FindUnique(s, '"', 0, if k == |s| then NPOS else k);
  }

  // ---------------------------------------------------------------------
  // detail (lines 141-146)

  /** Without the marker, `detail` stays empty. */
  lemma DetailAbsent(s: StdString)
    requires forall i: nat :: !OccursAt(s, DETAIL_MARKER, i)
    ensures Detail(s) == ""
  {
    FindSubUnique(s, DETAIL_MARKER, NPOS);
  }

  /** With the marker first at `d0`, `detail` is the text strictly between the
      next two quotes after the 9-character marker. */
  lemma DetailBetweenQuotes(s: StdString, d0: nat, q1: nat, q2: nat)
    requires FirstOccurrence(s, DETAIL_MARKER, d0)
    requires d0 + 9 <= q1 < q2 < |s| && s[q1] == '"' && s[q2] == '"'
    requires forall i | d0 + 9 <= i < q1 :: s[i] != '"'
    requires forall i | q1 < i < q2 :: s[i] != '"'
    ensures Detail(s) == s[q1 + 1..q2]
    ensures '"' !in Detail(s)
  {
    FindSubUnique(s, DETAIL_MARKER, d0);
    FindUnique(s, '"', d0 + 9, q1);
    QuotedBetween(s, q1, q2);
  }

  /** An opening quote with no closing one: `detail` is everything after the opening quote. */
  lemma DetailUnclosed(s: StdString, d0: nat, q1: nat)
    requires FirstOccurrence(s, DETAIL_MARKER, d0)
    requires d0 + 9 <= q1 < |s| && s[q1] == '"'
    requires forall i | d0 + 9 <= i < q1 :: s[i] != '"'
    requires forall i | q1 < i < |s| :: s[i] != '"'
    ensures Detail(s) == s[q1 + 1..]
  {
    FindSubUnique(s, DETAIL_MARKER, d0);
    FindUnique(s, '"', d0 + 9, q1);
    QuotedUnclosed(s, q1);
  }

  /** No quote after the marker: `detail` is the text before the first quote of
      the slice (the marker itself starts with one). */
  lemma DetailUnopened(s: StdString, d0: nat, k: nat)
    requires FirstOccurrence(s, DETAIL_MARKER, d0)
    requires forall i | d0 + 9 <= i < |s| :: s[i] != '"'
    requires k < |s| && s[k] == '"' && forall i | 0 <= i < k :: s[i] != '"'
    ensures Detail(s) == s[..k]
  {
    FindSubUnique(s, DETAIL_MARKER, d0);
    FindUnique(s, '"', d0 + 9, NPOS);
    QuotedFromNpos(s, k);
  }

  // ---------------------------------------------------------------------
  // The array text (lines 147-154)

  /** There is an array exactly when the marker occurs and a `[` at or after
      its first occurrence is followed by a `]`. */
  lemma ArrayTextPresent(s: StdString)
    ensures ArrayText(s).Some? <==>
      exists a0: nat, a: nat, e: nat | FirstOccurrence(s, DATA_MARKER, a0) && a0 <= a < e < |s| ::
        s[a] == '[' && s[e] == ']'
  {
    var a0 := FindSub(s, DATA_MARKER, 0);
    FindSubFirst(s, DATA_MARKER, 0);
    if a0 != NPOS {
      var arrStart := Find(s, '[', a0);
      FindFirst(s, '[', a0);
      var arrEnd := Find(s, ']', arrStart);
      FindFirst(s, ']', arrStart);
      if ArrayText(s).Some? {
        assert FirstOccurrence(s, DATA_MARKER, a0) && s[arrStart] == '[' && s[arrEnd] == ']';
      }
    } else {
      forall a0': nat | FirstOccurrence(s, DATA_MARKER, a0')
        ensures false
      {
      }
    }
  }

  /** With the marker first at `a0`, the first `[` after it at `a` and the
      first `]` after that at `e`, the array text is `s[a+1..e]`: it stops at
      the first `]`. */
  lemma ArrayTextSpan(s: StdString, a0: nat, a: nat, e: nat)
    requires FirstOccurrence(s, DATA_MARKER, a0)
    requires a0 <= a < e < |s| && s[a] == '[' && s[e] == ']'
    requires forall i | a0 <= i < a :: s[i] != '['
    requires forall i | a < i < e :: s[i] != ']'
    ensures ArrayText(s) == Some(s[a + 1..e])
    ensures ']' !in s[a + 1..e]
  {
    FindSubUnique(s, DATA_MARKER, a0);
    FindUnique(s, '[', a0, a);
    FindUnique(s, ']', a, e);
  }

  // ---------------------------------------------------------------------
  // One field (lines 165-171)

  /** A field with its four quotes and a colon between the key's closing quote
      and the value's opening one reads as (key between quotes 1 and 2, value
      between quotes 3 and 4). */
  lemma FieldBetweenQuotes(f: StdString, k1: nat, k2: nat, c: nat, v1: nat, v2: nat)
    requires k1 < k2 < c < v1 < v2 < |f|
    requires f[k1] == '"' && f[k2] == '"' && f[c] == ':' && f[v1] == '"' && f[v2] == '"'
    requires forall i | 0 <= i < k1 :: f[i] != '"'
    requires forall i | k1 < i < k2 :: f[i] != '"'
    requires forall i | k2 <= i < c :: f[i] != ':'
    requires forall i | c < i < v1 :: f[i] != '"'
    requires forall i | v1 < i < v2 :: f[i] != '"'
    ensures ParseField(f) == (f[k1 + 1..k2], f[v1 + 1..v2])
  {
    FindUnique(f, '"', 0, k1);
    KeyBetween(f, k1, k2, c);
    ValueBetween(f, c, v1, v2);
  }

  lemma KeyBetween(f: StdString, k1: nat, k2: nat, c: nat)
    requires k1 < k2 < c < |f| && f[k2] == '"' && f[c] == ':'
    requires forall i | k1 < i < k2 :: f[i] != '"'
    requires forall i | k2 <= i < c :: f[i] != ':'
    ensures FieldFrom(f, k1) == (f[k1 + 1..k2], ValueAfter(f, c))
  {
    FindUnique(f, '"', k1 + 1, k2);
    QuotedBetween(f, k1, k2);
    FindUnique(f, ':', k2, c);
  }

  lemma ValueBetween(f: StdString, c: nat, v1: nat, v2: nat)
    requires c < v1 < v2 < |f| && f[v1] == '"' && f[v2] == '"'
    requires forall i | c < i < v1 :: f[i] != '"'
    requires forall i | v1 < i < v2 :: f[i] != '"'
    ensures ValueAfter(f, c) == f[v1 + 1..v2]
  {
    FindUnique(f, '"', c + 1, v1);
    QuotedBetween(f, v1, v2);
  }

  /** A field with no quote at all: every search returns npos, each `+ 1`
      wraps to 0, and the whole field is both the key and the value. */
  lemma UnquotedField(f: StdString)
    requires '"' !in f
    ensures ParseField(f) == (f, f)
  {
    FindUnique(f, '"', 0, NPOS);
    FindUnique(f, ':', NPOS, NPOS);
    QuotedFromNpos(f, |f|);
  }

  /** The text of one field as a well-formed reply writes it: `"key":"value"`. */
  function FieldText(key: string, val: string): (r: string)
    ensures |r| == |key| + |val| + 5
  {
    "\"" + key + "\":\"" + val + "\""
  }

  /** Where FieldText puts its quotes and its colon. */
  lemma FieldTextLayout(key: string, val: string)
    ensures var f := FieldText(key, val);
      var k2 := |key| + 1;
      var v2 := |key| + |val| + 4;
      f[0] == '"' && f[k2] == '"' && f[k2 + 1] == ':' && f[k2 + 2] == '"' && f[v2] == '"'
      && f[1..k2] == key && f[k2 + 3..v2] == val
  {
    var f := FieldText(key, val);
    assert f == "\"" + key + "\":\"" + val + "\"";
    assert f[1..|key| + 1] == key;
    assert f[|key| + 4..|key| + |val| + 4] == val;
  }

  /** A field written by FieldText reads back as its key and value. */
  lemma FieldRoundTrip(key: string, val: string)
    requires '"' !in key && '"' !in val
    requires |FieldText(key, val)| < NPOS
    ensures ParseField(FieldText(key, val)) == (key, val)
  {
    var f: StdString := FieldText(key, val);
    var k2 := |key| + 1;
    var v2 := |key| + |val| + 4;
    FieldTextLayout(key, val);
    assert forall i | 0 < i < k2 :: f[i] == f[1..k2][i - 1];
    assert forall i | k2 + 2 < i < v2 :: f[i] == f[k2 + 3..v2][i - k2 - 3];
    FieldBetweenQuotes(f, 0, k2, k2 + 1, k2 + 2, v2);
  }
}
