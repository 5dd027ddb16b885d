/**
 * Replies in the format the decoder looks for:
 *
 *   {"success":<true|false>,"detail":"<detail>","data":[{<o1>},{<o2>},...]}
 *
 * and the proof that parseJson reads such a reply back as the flag, the
 * detail and one record per object, in order.
 */
module ReplyText {
  import opened Wrappers
  import opened CppString
  import opened Reply
  import opened ReplyFacts
  import opened RecordFacts

  function FlagText(ok: bool): string
  {
    if ok then "true" else "false"
  }

  /** The front of a reply, up to the quote that opens the detail. */
  function Head(ok: bool): (r: string)
    ensures |r| == |FlagText(ok)| + 22
  {
    "{" + SUCCESS_MARKER + FlagText(ok) + "," + DETAIL_MARKER + "\""
  }

  /** The back of a reply, from the quote that closes the detail. */
  function Tail(objs: seq<string>): (r: string)
    ensures |r| == |ArrayBody(objs)| + 12
  {
    "\"," + DATA_MARKER + "[" + ArrayBody(objs) + "]}"
  }

  function FormatReply(ok: bool, detail: string, objs: seq<string>): (r: string)
    ensures |r| == |FlagText(ok)| + |detail| + |ArrayBody(objs)| + 34
  {
    Head(ok) + detail + Tail(objs)
  }

  // ---------------------------------------------------------------------
  // Where each part of a reply lies

  /** The front: the brace, the success marker, the flag and its comma, the
      detail marker and the opening quote. */
  lemma HeadLayout(ok: bool)
    ensures var h := Head(ok);
      var n := |FlagText(ok)|;
      h[0] == '{' && h[1..11] == SUCCESS_MARKER && h[11..11 + n] == FlagText(ok)
      && h[11 + n] == ',' && h[12 + n..21 + n] == DETAIL_MARKER && h[21 + n] == '"'
  {
    var h := Head(ok);
    var n := |FlagText(ok)|;
    assert h == "{" + SUCCESS_MARKER + FlagText(ok) + "," + DETAIL_MARKER + "\"";
  }

  /** The front holds no `d` except the one that starts `detail`, which is followed by `e`. */
  lemma HeadLetters(ok: bool)
    ensures var h := Head(ok);
      var n := |FlagText(ok)|;
      h[14 + n] == 'e' && 'd' !in h[1..13 + n] && 'd' !in h[14 + n..22 + n]
  {
    var h := Head(ok);
    var n := |FlagText(ok)|;
    var front := SUCCESS_MARKER + FlagText(ok) + ",\"";
    var back := "etail\":\"";
    assert h == "{" + front + "d" + back;
    assert h[1..13 + n] == front;
    assert h[14 + n..22 + n] == back;
  }

  /** The back: the closing quote and its comma, the data marker, the
      brackets around the array body and the closing brace. */
  lemma TailLayout(objs: seq<string>)
    ensures var t := Tail(objs);
      var b := |ArrayBody(objs)|;
      t[0] == '"' && t[1] == ',' && t[2..9] == DATA_MARKER && t[9] == '['
      && t[10..10 + b] == ArrayBody(objs) && t[10 + b] == ']' && t[11 + b] == '}'
  {
    var t := Tail(objs);
    assert t == "\"," + DATA_MARKER + "[" + ArrayBody(objs) + "]}";
  }

  /** Slices of the reply that fall inside one of its three parts. */
  lemma PartsOfReply(ok: bool, detail: string, objs: seq<string>)
    ensures var j := FormatReply(ok, detail, objs);
      var h := |Head(ok)|;
      var q2 := h + |detail|;
      j[..h] == Head(ok) && j[h..q2] == detail && j[q2..] == Tail(objs)
  {
  }

  /** The front of the reply, in reply positions. */
  lemma ReplyFront(ok: bool, detail: string, objs: seq<string>)
    ensures var j := FormatReply(ok, detail, objs);
      var n := |FlagText(ok)|;
      j[0] == '{' && j[1..11] == SUCCESS_MARKER && j[11..11 + n] == FlagText(ok)
      && j[11 + n] == ',' && j[12 + n..21 + n] == DETAIL_MARKER && j[21 + n] == '"'
  {
    var j := FormatReply(ok, detail, objs);
    var n := |FlagText(ok)|;
    PartsOfReply(ok, detail, objs);
    HeadLayout(ok);
    var h := j[..n + 22];
    assert j[0] == h[0] && j[11 + n] == h[11 + n] && j[21 + n] == h[21 + n];
    assert j[1..11] == h[1..11];
    assert j[11..11 + n] == h[11..11 + n];
    assert j[12 + n..21 + n] == h[12 + n..21 + n];
  }

  /** Where the front of the reply has a `d`, and the letter after the only one. */
  lemma ReplyLetters(ok: bool, detail: string, objs: seq<string>)
    ensures var j := FormatReply(ok, detail, objs);
      var n := |FlagText(ok)|;
      j[14 + n] == 'e'
      && (forall i | 1 <= i < 13 + n :: j[i] != 'd')
      && (forall i | 14 + n <= i < 22 + n :: j[i] != 'd')
  {
    var j := FormatReply(ok, detail, objs);
    var n := |FlagText(ok)|;
    PartsOfReply(ok, detail, objs);
    HeadLetters(ok);
    var h := j[..n + 22];
    assert j[14 + n] == h[14 + n];
    assert j[1..13 + n] == h[1..13 + n];
    assert j[14 + n..22 + n] == h[14 + n..22 + n];
    NotInSlice(j, 'd', 1, 13 + n);
    NotInSlice(j, 'd', 14 + n, 22 + n);
  }

  /** The back of the reply, in reply positions. */
  lemma ReplyBack(ok: bool, detail: string, objs: seq<string>)
    ensures var j := FormatReply(ok, detail, objs);
      var q2 := |FlagText(ok)| + 22 + |detail|;
      var b := |ArrayBody(objs)|;
      j[q2] == '"' && j[q2 + 1] == ',' && j[q2 + 2..q2 + 9] == DATA_MARKER && j[q2 + 9] == '['
      && j[q2 + 10..q2 + 10 + b] == ArrayBody(objs) && j[q2 + 10 + b] == ']' && j[q2 + 11 + b] == '}'
  {
    PartsOfReply(ok, detail, objs);
    TailAt(FormatReply(ok, detail, objs), |FlagText(ok)| + 22 + |detail|, objs);
  }

  /** The back, in the positions of any text that ends with it from `q2` on. */
  lemma TailAt(j: string, q2: nat, objs: seq<string>)
    requires q2 <= |j| && j[q2..] == Tail(objs)
    ensures var b := |ArrayBody(objs)|;
      j[q2] == '"' && j[q2 + 1] == ',' && j[q2 + 2..q2 + 9] == DATA_MARKER && j[q2 + 9] == '['
      && j[q2 + 10..q2 + 10 + b] == ArrayBody(objs) && j[q2 + 10 + b] == ']' && j[q2 + 11 + b] == '}'
  {
    var b := |ArrayBody(objs)|;
    TailLayout(objs);
    var t := j[q2..];
    assert j[q2] == t[0] && j[q2 + 1] == t[1] && j[q2 + 9] == t[9];
    assert j[q2 + 10 + b] == t[10 + b] && j[q2 + 11 + b] == t[11 + b];
    assert j[q2 + 2..q2 + 9] == t[2..9];
    assert j[q2 + 10..q2 + 10 + b] == t[10..10 + b];
  }

  lemma NotInSlice(s: string, c: char, lo: nat, hi: nat)
    requires lo <= hi <= |s| && c !in s[lo..hi]
    ensures forall i | lo <= i < hi :: s[i] != c
  {
    forall i | lo <= i < hi
      ensures s[i] != c
    {
      assert s[i] == s[lo..hi][i - lo];
    }
  }

  /** A character that is no brace or comma, and in none of the objects, is not in their array body. */
  lemma {:induction false} ArrayBodyAvoids(objs: seq<string>, c: char)
    requires c != '{' && c != '}' && c != ','
    requires forall i | 0 <= i < |objs| :: c !in objs[i]
    ensures c !in ArrayBody(objs)
  {
    if |objs| > 1 {
      ArrayBodyAvoids(objs[1..], c);
    }
  }

  /** One brace-free span in front of an array body in which every `{` is closed:
      every `{` is still closed. */
  lemma ClosedAfterSpan(o: string, rest: string)
    requires '{' !in o && '}' !in o && EveryOpenClosed(rest)
    ensures EveryOpenClosed("{" + o + "}," + rest)
  {
    var arr := "{" + o + "}," + rest;
    var m := |o| + 3;
    assert forall i | 1 <= i <= |o| :: arr[i] == o[i - 1];
    assert arr[|o| + 1] == '}' && arr[|o| + 2] == ',';
    forall i | 0 <= i < |arr| && arr[i] == '{'
      ensures '}' in arr[i + 1..]
    {
      if i == 0 {
        assert arr[i + 1..][|o|] == '}';
      } else {
        assert i >= m;
        var k := i - m;
        assert rest[k] == arr[i];
        assert arr[i + 1..] == rest[k + 1..];
      }
    }
  }

  /** The last span of an array body: its `{` is closed by its `}`. */
  lemma ClosedLastSpan(o: string)
    requires '{' !in o && '}' !in o
    ensures EveryOpenClosed("{" + o + "}")
  {
    var arr := "{" + o + "}";
    assert forall i | 1 <= i <= |o| :: arr[i] == o[i - 1];
    forall i | 0 <= i < |arr| && arr[i] == '{'
      ensures '}' in arr[i + 1..]
    {
      assert i == 0;
      assert arr[i + 1..][|o|] == '}';
    }
  }

  /** In an array body written from brace-free spans, every `{` is closed, so the
      record loop as written ends on it. */
  lemma {:induction false} ArrayBodyClosed(objs: seq<string>)
    requires forall i | 0 <= i < |objs| :: '{' !in objs[i] && '}' !in objs[i]
    ensures EveryOpenClosed(ArrayBody(objs))
  {
    if |objs| == 1 {
      ClosedLastSpan(objs[0]);
    } else if |objs| > 1 {
      ArrayBodyClosed(objs[1..]);
      ClosedAfterSpan(objs[0], ArrayBody(objs[1..]));
    }
  }

  // ---------------------------------------------------------------------
  // Each step of parseJson on a written reply

  /** The slice is the whole reply: it starts with `{` and ends with `}`. */
  lemma ReplySlice(ok: bool, detail: string, objs: seq<string>)
    requires |FormatReply(ok, detail, objs)| < NPOS
    ensures Slice(FormatReply(ok, detail, objs)) == Success(FormatReply(ok, detail, objs))
  {
    ReplyEnds(ok, detail, objs);
    WholeSlice(FormatReply(ok, detail, objs));
  }

  /** A reply opens with `{` and closes with `}`. */
  lemma ReplyEnds(ok: bool, detail: string, objs: seq<string>)
    ensures var j := FormatReply(ok, detail, objs);
      j[0] == '{' && j[|j| - 1] == '}'
  {
    ReplyFront(ok, detail, objs);
    ReplyBack(ok, detail, objs);
  }

  /** A text that opens with `{` and closes with `}` is its own slice. */
  lemma WholeSlice(j: StdString)
    requires 0 < |j| && j[0] == '{' && j[|j| - 1] == '}'
    ensures Slice(j) == Success(j)
  {
    SliceSpan(j, 0, |j| - 1);
    assert j[0..|j|] == j;
  }

  /** The success flag reads back. */
  lemma ReplySuccess(ok: bool, detail: string, objs: seq<string>)
    requires |FormatReply(ok, detail, objs)| < NPOS
    ensures SuccessFlag(FormatReply(ok, detail, objs)) == Success(ok)
  {
    var j: StdString := FormatReply(ok, detail, objs);
    var n := |FlagText(ok)|;
    ReplyFront(ok, detail, objs);
    forall i: nat | i < 1
      ensures !OccursAt(j, SUCCESS_MARKER, i)
    {
      assert j[0] != SUCCESS_MARKER[0];
    }
    assert ',' !in FlagText(ok) && '}' !in FlagText(ok);
    NotInSlice(j, ',', 11, 11 + n);
    NotInSlice(j, '}', 11, 11 + n);
    SuccessValue(j, 1, 11 + n);
  }

  /** The detail marker first occurs where the reply writes it. */
  lemma DetailMarkerFirst(ok: bool, detail: string, objs: seq<string>)
    ensures FirstOccurrence(FormatReply(ok, detail, objs), DETAIL_MARKER, |FlagText(ok)| + 12)
  {
    var j := FormatReply(ok, detail, objs);
    var n := |FlagText(ok)|;
    ReplyFront(ok, detail, objs);
    ReplyLetters(ok, detail, objs);
    forall i: nat | i < n + 12
      ensures !OccursAt(j, DETAIL_MARKER, i)
    {
      Mismatch(j, DETAIL_MARKER, i, 1);
    }
  }

  /** The detail reads back, between the quotes that surround it. */
  lemma ReplyDetail(ok: bool, detail: string, objs: seq<string>)
    requires '"' !in detail
    requires |FormatReply(ok, detail, objs)| < NPOS
    ensures Detail(FormatReply(ok, detail, objs)) == detail
  {
    var j: StdString := FormatReply(ok, detail, objs);
    var n := |FlagText(ok)|;
    var q2 := n + 22 + |detail|;
    PartsOfReply(ok, detail, objs);
    ReplyFront(ok, detail, objs);
    ReplyBack(ok, detail, objs);
    DetailMarkerFirst(ok, detail, objs);
    NotInSlice(j, '"', n + 22, q2);
    DetailBetweenQuotes(j, n + 12, n + 21, q2);
  }

  /** The data marker first occurs where the reply writes it: the detail holds
      no quote, so no occurrence can start inside it or overlap it. */
  lemma DataMarkerFirst(ok: bool, detail: string, objs: seq<string>)
    requires '"' !in detail
    ensures FirstOccurrence(FormatReply(ok, detail, objs), DATA_MARKER, |FlagText(ok)| + 24 + |detail|)
  {
    var j := FormatReply(ok, detail, objs);
    var n := |FlagText(ok)|;
    var q1 := n + 21;
    var q2 := n + 22 + |detail|;
    PartsOfReply(ok, detail, objs);
    ReplyFront(ok, detail, objs);
    ReplyLetters(ok, detail, objs);
    ReplyBack(ok, detail, objs);
    NotInSlice(j, '"', q1 + 1, q2);
    NotInSlice(DATA_MARKER, '"', 1, 5);
    forall i: nat | i < q2 + 2
      ensures !OccursAt(j, DATA_MARKER, i)
    {
      if i < n + 12 {
        Mismatch(j, DATA_MARKER, i, 1);
      } else if i == n + 12 {
        Mismatch(j, DATA_MARKER, i, 2);
      } else if i < q1 {
        Mismatch(j, DATA_MARKER, i, 1);
      } else if i == q1 {
        if q2 < i + 5 {
          Mismatch(j, DATA_MARKER, i, q2 - i);
        } else if q2 > i + 5 {
          Mismatch(j, DATA_MARKER, i, 5);
        } else {
          Mismatch(j, DATA_MARKER, i, 6);
        }
      } else if i < q2 {
        Mismatch(j, DATA_MARKER, i, 0);
      } else if i == q2 {
        Mismatch(j, DATA_MARKER, i, 1);
      } else {
        Mismatch(j, DATA_MARKER, i, 0);
      }
    }
  }

  /** One character that differs from the pattern rules out an occurrence. */
  lemma Mismatch(s: string, pat: string, i: nat, k: nat)
    requires k < |pat|
    requires i + |pat| <= |s| ==> s[i + k] != pat[k]
    ensures !OccursAt(s, pat, i)
  {
    if i + |pat| <= |s| {
      assert s[i..i + |pat|][k] == s[i + k];
    }
  }

  /** The array text is the array body the reply was written from. */
  lemma ReplyArray(ok: bool, detail: string, objs: seq<string>)
    requires '"' !in detail
    requires forall i | 0 <= i < |objs| :: ']' !in objs[i]
    requires |FormatReply(ok, detail, objs)| < NPOS
    ensures ArrayText(FormatReply(ok, detail, objs)) == Some(ArrayBody(objs))
  {
    var j: StdString := FormatReply(ok, detail, objs);
    var q2 := |FlagText(ok)| + 22 + |detail|;
    ReplyBack(ok, detail, objs);
    DataMarkerFirst(ok, detail, objs);
    ArrayBodyAvoids(objs, ']');
    ArrayAfterMarker(j, q2 + 2, ArrayBody(objs));
  }

  /** The marker first at `a0`, then `[`, a body without `]`, and `]`: the array text is the body. */
  lemma ArrayAfterMarker(j: StdString, a0: nat, body: string)
    requires FirstOccurrence(j, DATA_MARKER, a0)
    requires a0 + 8 + |body| < |j|
    requires j[a0 + 7] == '[' && j[a0 + 8..a0 + 8 + |body|] == body && j[a0 + 8 + |body|] == ']'
    requires ']' !in body
    ensures ArrayText(j) == Some(body)
  {
    var e := a0 + 8 + |body|;
    assert j[a0..a0 + 7] == DATA_MARKER;
    NotInSlice(j, '[', a0, a0 + 7);
    NotInSlice(j, ']', a0 + 8, e);
    ArrayTextSpan(j, a0, a0 + 7, e);
  }

  /** A reply written from a flag, a quote-free detail and objects free of
      braces and of `]` reads back as that flag, that detail and one record
      per object, in order. */
  lemma ReplyRoundTrip(ok: bool, detail: string, objs: seq<StdString>)
    requires '"' !in detail
    requires forall i | 0 <= i < |objs| :: '{' !in objs[i] && '}' !in objs[i] && ']' !in objs[i]
    requires |FormatReply(ok, detail, objs)| < NPOS
    ensures ParseCorrected(FormatReply(ok, detail, objs)) == Success(DBResponse(ok, detail, Records(objs)))
  {
    var j: StdString := FormatReply(ok, detail, objs);
    ReplySlice(ok, detail, objs);
    ReplySuccess(ok, detail, objs);
    ReplyDetail(ok, detail, objs);
    ReplyArray(ok, detail, objs);
    var body: StdString := ArrayBody(objs);
    ClosedSpansOfArrayBody(objs);
    assert DataClosed(j) == Records(objs);
  }

  /** parseJson as written returns on a written reply, with the flag, the detail
      and one record per object, in order. */
  lemma ParseRoundTrip(ok: bool, detail: string, objs: seq<StdString>)
    requires '"' !in detail
    requires forall i | 0 <= i < |objs| :: '{' !in objs[i] && '}' !in objs[i] && ']' !in objs[i]
    requires |FormatReply(ok, detail, objs)| < NPOS
    ensures ReplyTerminates(FormatReply(ok, detail, objs))
    ensures Parse(FormatReply(ok, detail, objs)) == Success(DBResponse(ok, detail, Records(objs)))
  {
    var j: StdString := FormatReply(ok, detail, objs);
    ReplyTerminatesOn(ok, detail, objs);
    ReplyRoundTrip(ok, detail, objs);
    ParseAgrees(j);
  }

  /** A written reply passes the slice and success checks, and every `{` of its
      array text is closed. */
  lemma ReplyTerminatesOn(ok: bool, detail: string, objs: seq<StdString>)
    requires '"' !in detail
    requires forall i | 0 <= i < |objs| :: '{' !in objs[i] && '}' !in objs[i] && ']' !in objs[i]
    requires |FormatReply(ok, detail, objs)| < NPOS
    ensures ReplyTerminates(FormatReply(ok, detail, objs))
  {
    ReplySlice(ok, detail, objs);
    ReplyArray(ok, detail, objs);
    ArrayBodyClosed(objs);
  }
}
