/**
 * What the record part of parseJson builds: the getline split of a span into
 * fields, the map the fields fill (a later duplicate key overwrites an
 * earlier one), the spans the record loop visits, and round trips from
 * record and array text written the way a well-formed reply writes it.
 *
 * It also holds the two halves of the record loop's wrap-around at line
 * 175: the loop as written (`Spans`, `NextPos`) restarts from 0 at a `{`
 * with no later `}`, and the repaired loop (`ClosedSpans`) agrees with it
 * on every array text where the loop as written ends.
 */
module RecordFacts {
  import opened Wrappers
  import opened CppString
  import opened Reply
  import opened ReplyFacts

  // ---------------------------------------------------------------------
  // The map a record's fields fill (line 172)

  /** A key is in the record exactly when some field has it. */
  lemma {:induction false} CollectKeys(pairs: seq<(string, string)>)
    ensures forall k :: k in Collect(pairs) <==> exists i | 0 <= i < |pairs| :: pairs[i].0 == k
  {
    if pairs != [] {
      var init := pairs[..|pairs| - 1];
      CollectKeys(init);
      forall k
        ensures k in Collect(pairs) <==> exists i | 0 <= i < |pairs| :: pairs[i].0 == k
      {
        if k in Collect(init) {
          var i :| 0 <= i < |init| && init[i].0 == k;
          assert pairs[i].0 == k;
        }
        if exists i | 0 <= i < |pairs| :: pairs[i].0 == k {
          var i :| 0 <= i < |pairs| && pairs[i].0 == k;
          if i < |init| {
            assert init[i].0 == k;
          }
        }
      }
    }
  }

  /** The value of a key is that of the last field with the key: a later
      duplicate overwrites an earlier one. */
  lemma {:induction false} CollectLastWins(pairs: seq<(string, string)>, i: nat)
    requires i < |pairs|
    requires forall j | i < j < |pairs| :: pairs[j].0 != pairs[i].0
    ensures pairs[i].0 in Collect(pairs) && Collect(pairs)[pairs[i].0] == pairs[i].1
  {
    if i < |pairs| - 1 {
      var init := pairs[..|pairs| - 1];
      assert init[i] == pairs[i];
      CollectLastWins(init, i);
    }
  }

  // ---------------------------------------------------------------------
  // The getline split (line 163)

  /** The fields joined back with commas, as they stood in the span. */
  function JoinFields(fields: seq<string>): string
  {
    if |fields| == 0 then ""
    else if |fields| == 1 then fields[0]
    else fields[0] + "," + JoinFields(fields[1..])
  }

  /** No field contains a comma. */
  lemma {:induction false} FieldsHaveNoComma(obj: StdString, cursor: nat)
    ensures forall i | 0 <= i < |Fields(obj, cursor)| :: ',' !in Fields(obj, cursor)[i]
    decreases |obj| - cursor
  {
    if cursor < |obj| {
      FieldsHaveNoComma(obj, FieldEnd(obj, cursor) + 1);
    }
  }

  /** Splitting comma-free fields joined with commas gives the fields back,
      provided the last one is not empty. */
  lemma FieldsOfJoin(fields: seq<string>)
    requires forall i | 0 <= i < |fields| :: ',' !in fields[i]
    requires fields != [] ==> fields[|fields| - 1] != ""
    requires |JoinFields(fields)| < NPOS
    ensures Fields(JoinFields(fields), 0) == fields
  {
    var obj: StdString := JoinFields(fields);
    FieldsOfJoinFrom(obj, 0, fields);
  }

  /** The split from `cursor`, where the rest of `obj` is the joined fields. */
  lemma {:induction false} FieldsOfJoinFrom(obj: StdString, cursor: nat, fields: seq<string>)
    requires cursor <= |obj| && obj[cursor..] == JoinFields(fields)
    requires forall i | 0 <= i < |fields| :: ',' !in fields[i]
    requires fields != [] ==> fields[|fields| - 1] != ""
    ensures Fields(obj, cursor) == fields
    decreases |fields|
  {
    if |fields| == 1 {
      var e := FieldAt(obj, cursor, fields[0], "");
      assert Fields(obj, cursor) == [fields[0]] + Fields(obj, e + 1);
    } else if |fields| > 1 {
      var f := fields[0];
      var e := FieldAt(obj, cursor, f, "," + JoinFields(fields[1..]));
      assert obj[e + 1..] == obj[e..][1..];
      FieldsOfJoinFrom(obj, e + 1, fields[1..]);
      assert fields == [f] + fields[1..];
    }
  }

  /** A comma-free field `f` at `cursor`, followed by `tail` (empty, or from a comma on). */
  lemma FieldAt(obj: StdString, cursor: nat, f: string, tail: string) returns (e: nat)
    requires cursor <= |obj| && obj[cursor..] == f + tail
    requires ',' !in f && (tail == "" || tail[0] == ',')
    requires f != "" || tail != ""
    ensures e == cursor + |f| && cursor < |obj|
    ensures FieldEnd(obj, cursor) == e && obj[cursor..e] == f && obj[e..] == tail
  {
    e := cursor + |f|;
    var body := obj[cursor..];
    assert forall i | cursor <= i < e :: obj[i] == body[i - cursor] == f[i - cursor];
    if tail == "" {
      FindUnique(obj, ',', cursor, NPOS);
    } else {
      assert obj[e] == body[|f|] == ',';
      FindUnique(obj, ',', cursor, e);
    }
    assert obj[cursor..e] == body[..|f|] == f;
    assert obj[e..] == body[|f|..] == tail;
  }

  // ---------------------------------------------------------------------
  // Records from text a well-formed reply writes (lines 159-174)

  /** A span's text written from (key, value) pairs: `"k1":"v1","k2":"v2",...`. */
  function ObjectText(pairs: seq<(string, string)>): (r: string)
    ensures |pairs| > 0 ==> |r| > 0
  {
    JoinFields(FieldTexts(pairs))
  }

  function FieldTexts(pairs: seq<(string, string)>): (r: seq<string>)
    ensures |r| == |pairs|
    ensures forall i | 0 <= i < |pairs| :: r[i] == FieldText(pairs[i].0, pairs[i].1)
  {
    seq(|pairs|, i requires 0 <= i < |pairs| => FieldText(pairs[i].0, pairs[i].1))
  }

  /** Keys and values a well-formed reply can carry: no quote and no comma. */
  predicate PlainPair(p: (string, string))
  {
    '"' !in p.0 && ',' !in p.0 && '"' !in p.1 && ',' !in p.1
  }

  /** The record of a span written from pairs holds every pair, the last one
      winning for a repeated key. */
  lemma RecordOfObjectText(pairs: seq<(string, string)>)
    requires forall i | 0 <= i < |pairs| :: PlainPair(pairs[i])
    requires |ObjectText(pairs)| < NPOS
    ensures RecordOf(ObjectText(pairs)) == Collect(pairs)
  {
    var obj: StdString := ObjectText(pairs);
    FieldTextsSplit(pairs);
    PairsOfFieldTexts(pairs);
    assert Fields(obj, 0) == FieldTexts(pairs);
  }

  /** The split of a span written from plain pairs is the written fields. */
  lemma FieldTextsSplit(pairs: seq<(string, string)>)
    requires forall i | 0 <= i < |pairs| :: PlainPair(pairs[i])
    requires |ObjectText(pairs)| < NPOS
    ensures Fields(ObjectText(pairs), 0) == FieldTexts(pairs)
  {
    var texts := FieldTexts(pairs);
    forall i | 0 <= i < |texts|
      ensures ',' !in texts[i]
    {
      assert texts[i] == "\"" + pairs[i].0 + "\":\"" + pairs[i].1 + "\"";
    }
    if texts != [] {
      assert texts[|texts| - 1] != "";
    }
    FieldsOfJoin(texts);
  }

  /** Each written field reads back as the pair it was written from. */
  lemma PairsOfFieldTexts(pairs: seq<(string, string)>)
    requires forall i | 0 <= i < |pairs| :: PlainPair(pairs[i])
    requires |ObjectText(pairs)| < NPOS
    ensures forall i | 0 <= i < |pairs| :: |FieldTexts(pairs)[i]| < NPOS
    ensures Pairs(FieldTexts(pairs)) == pairs
  {
    var texts := FieldTexts(pairs);
    JoinLength(texts);
    forall i | 0 <= i < |pairs|
      ensures ParseField(texts[i]) == pairs[i]
    {
      FieldRoundTrip(pairs[i].0, pairs[i].1);
    }
  }

  /** Every field is no longer than the text it was joined into. */
  lemma {:induction false} JoinLength(fields: seq<string>)
    ensures forall i | 0 <= i < |fields| :: |fields[i]| <= |JoinFields(fields)|
  {
    if |fields| > 1 {
      JoinLength(fields[1..]);
      assert forall i | 1 <= i < |fields| :: fields[i] == fields[1..][i - 1];
    }
  }

  // ---------------------------------------------------------------------
  // The spans the record loop visits (lines 155-176)

  /** The repaired loop's spans hold no `}`: each lies strictly between a `{`
      and the first `}` after it. */
  lemma {:induction false} ClosedSpansHaveNoClose(arr: StdString, pos: nat)
    ensures forall i | 0 <= i < |ClosedSpans(arr, pos)| :: '}' !in ClosedSpans(arr, pos)[i]
    decreases |arr| - pos
  {
    var b := Find(arr, '{', pos);
    if b != NPOS {
      var end := Find(arr, '}', b);
      FindFirst(arr, '}', b);
      if end != NPOS {
        ClosedSpansHaveNoClose(arr, end + 1);
      }
    }
  }

  /** The repaired loop visits nothing from `pos` when no `{` follows, or the first one is never closed. */
  lemma ClosedSpansNone(arr: StdString, pos: nat)
    requires Find(arr, '{', pos) == NPOS || Find(arr, '}', Find(arr, '{', pos)) == NPOS
    ensures ClosedSpans(arr, pos) == []
  {
  }

  /** One step of the repaired loop, with the `{` at `b` and its `}` at `end`. */
  lemma ClosedSpansAt(arr: StdString, pos: nat, b: nat, end: nat)
    requires b == Find(arr, '{', pos) && end == Find(arr, '}', b) && end != NPOS
    ensures ClosedSpans(arr, pos) == [arr[b + 1..end]] + ClosedSpans(arr, end + 1)
  {
  }

  /** An array's text written from span texts: `{o1},{o2},...`. */
  function ArrayBody(objs: seq<string>): string
  {
    if |objs| == 0 then ""
    else if |objs| == 1 then "{" + objs[0] + "}"
    else "{" + objs[0] + "}," + ArrayBody(objs[1..])
  }

  /** Span texts without braces are visited back in order, one per `{...}`. */
  lemma ClosedSpansOfArrayBody(objs: seq<string>)
    requires forall i | 0 <= i < |objs| :: '{' !in objs[i] && '}' !in objs[i]
    requires |ArrayBody(objs)| < NPOS
    ensures ClosedSpans(ArrayBody(objs), 0) == objs
  {
    var arr: StdString := ArrayBody(objs);
    ClosedSpansFrom(arr, 0, objs);
  }

  /** The spans from `pos`, where the rest of `arr` is an array body. */
  lemma {:induction false} ClosedSpansFrom(arr: StdString, pos: nat, objs: seq<string>)
    requires pos <= |arr| && arr[pos..] == ArrayBody(objs)
    requires forall i | 0 <= i < |objs| :: '{' !in objs[i] && '}' !in objs[i]
    ensures ClosedSpans(arr, pos) == objs
    decreases |objs|
  {
    if objs == [] {
      FindUnique(arr, '{', pos, NPOS);
      ClosedSpansNone(arr, pos);
    } else {
      var next := HeadStep(arr, pos, objs);
      ClosedSpansFrom(arr, next, objs[1..]);
      assert objs == [objs[0]] + objs[1..];
    }
  }

  /** The first object of an array body is the first span, and the body's rest starts at `next`. */
  lemma HeadStep(arr: StdString, pos: nat, objs: seq<string>) returns (next: nat)
    requires pos <= |arr| && arr[pos..] == ArrayBody(objs) && objs != []
    requires '}' !in objs[0]
    ensures next <= |arr| && arr[next..] == ArrayBody(objs[1..])
    ensures ClosedSpans(arr, pos) == [objs[0]] + ClosedSpans(arr, next)
  {
    if |objs| == 1 {
      next := LastObject(arr, pos, objs[0]);
    } else {
      next := InnerObject(arr, pos, objs[0], ArrayBody(objs[1..]));
    }
  }

  /** `{o}` ends the text: it is the last span. */
  lemma LastObject(arr: StdString, pos: nat, o: string) returns (next: nat)
    requires pos <= |arr| && arr[pos..] == "{" + o + "}"
    requires '}' !in o
    ensures next == |arr|
    ensures ClosedSpans(arr, pos) == [o] + ClosedSpans(arr, next)
  {
    assert arr[pos..] == "{" + o + "}" + "";
    var after := BracedAt(arr, pos, o, "");
    ClosedSpansAt(arr, pos, pos, after - 1);
    next := after;
  }

  /** `{o},` followed by `rest`: `o` is the next span, and the spans go on from `rest`. */
  lemma InnerObject(arr: StdString, pos: nat, o: string, rest: string) returns (next: nat)
    requires pos <= |arr| && arr[pos..] == "{" + o + "}," + rest
    requires '}' !in o
    ensures next <= |arr| && arr[next..] == rest
    ensures ClosedSpans(arr, pos) == [o] + ClosedSpans(arr, next)
  {
    assert arr[pos..] == "{" + o + "}" + ("," + rest);
    var after := BracedAt(arr, pos, o, "," + rest);
    ClosedSpansAt(arr, pos, pos, after - 1);
    CommaAt(arr, after, rest);
    next := after + 1;
  }

  /** `{o}` at `pos`: the loop's two searches land on its braces, and `next` is just after it. */
  lemma BracedAt(arr: StdString, pos: nat, o: string, tail: string) returns (next: nat)
    requires pos <= |arr| && arr[pos..] == "{" + o + "}" + tail
    requires '}' !in o
    ensures next == pos + |o| + 2 <= |arr|
    ensures Find(arr, '{', pos) == pos && Find(arr, '}', pos) == next - 1
    ensures arr[pos + 1..next - 1] == o && arr[next..] == tail
  {
    next := pos + |o| + 2;
    var body := arr[pos..];
    assert body[0] == '{' && body[|o| + 1] == '}';
    assert forall i | pos < i < next - 1 :: arr[i] == body[i - pos] == o[i - pos - 1];
    FindUnique(arr, '{', pos, pos);
    FindUnique(arr, '}', pos, next - 1);
    assert arr[pos + 1..next - 1] == body[1..|o| + 1] == o;
    assert arr[next..] == body[|o| + 2..] == tail;
  }

  /** A `,` at `pos` is skipped: the spans are those after it. */
  lemma CommaAt(arr: StdString, pos: nat, rest: string)
    requires pos <= |arr| && arr[pos..] == "," + rest
    ensures arr[pos + 1..] == rest
    ensures ClosedSpans(arr, pos) == ClosedSpans(arr, pos + 1)
  {
    assert arr[pos] == arr[pos..][0] == ',';
    assert arr[pos + 1..] == arr[pos..][1..];
    SpansSkip(arr, pos);
  }

  /** A character other than `{` at `pos` starts no span. */
  lemma SpansSkip(arr: StdString, pos: nat)
    requires pos < |arr| && arr[pos] != '{'
    ensures ClosedSpans(arr, pos) == ClosedSpans(arr, pos + 1)
  {
    assert Find(arr, '{', pos) == Find(arr, '{', pos + 1);
  }

  // ---------------------------------------------------------------------
  // The record loop's wrap-around at line 175

  /** As written, a `{` with no later `}` sends `pos` back to 0, where the
      loop's condition holds again: the loop does not end normally. */
  lemma UnclosedOpenRestarts(arr: StdString, pos: nat)
    requires Find(arr, '{', pos) != NPOS
    requires Find(arr, '}', Find(arr, '{', pos)) == NPOS
    ensures NextPos(arr, pos) == 0
    ensures Find(arr, '{', 0) != NPOS
  {
    var b := Find(arr, '{', pos);
    FindFirst(arr, '{', 0);
    assert arr[b] == '{';
  }

  /** The array text `{`: the loop as written visits position 0 forever. */
  lemma HangWitness()
    ensures Find("{", '{', 0) == 0
    ensures Find("{", '}', 0) == NPOS
    ensures NextPos("{", 0) == 0
    ensures !EveryOpenClosed("{")
  {
    FindUnique("{", '}', 0, NPOS);
    assert "{"[0] == '{' && "{"[1..] == "";
  }

  /** The reply of the finding at line 175: a `{` inside the array is never closed. */
  const HANG_REPLY: StdString := "{\"data\":[{],\"success\":true}"

  lemma HangReplySlice()
    ensures Slice(HANG_REPLY) == Success(HANG_REPLY)
  {
    var j := HANG_REPLY;
    assert |j| == 27 && j[0] == '{' && j[26] == '}';
    SliceSpan(j, 0, 26);
    assert j[0..27] == j;
  }

  lemma HangReplyFlag()
    ensures SuccessFlag(HANG_REPLY).Success?
  {
    var j := HANG_REPLY;
    assert OccursAt(j, SUCCESS_MARKER, 12) by { assert j[12..22] == SUCCESS_MARKER; }
    SuccessMissing(j);
  }

  lemma HangReplyArray()
    ensures ArrayText(HANG_REPLY) == Some("{")
  {
    var j := HANG_REPLY;
    assert OccursAt(j, DATA_MARKER, 1) by {
      assert j[1] == '"' && j[2] == 'd' && j[3] == 'a' && j[4] == 't' && j[5] == 'a' && j[6] == '"' && j[7] == ':';
      assert j[1..8] == DATA_MARKER;
    }
    assert !OccursAt(j, DATA_MARKER, 0) by { assert j[0] != DATA_MARKER[0]; }
    assert j[8] == '[' && j[9] == '{' && j[10] == ']';
    ArrayTextSpan(j, 1, 8, 10);
    assert j[9..10] == "{";
  }

  /** The reply `{"data":[{],"success":true}` passes the slice and the success
      check, its array text is `{`, and parseJson as written never returns normally on it. */
  lemma HangReply()
    ensures Slice(HANG_REPLY) == Success(HANG_REPLY) && SuccessFlag(HANG_REPLY).Success?
    ensures ArrayText(HANG_REPLY) == Some("{") && !ReplyTerminates(HANG_REPLY)
  {
    HangReplySlice();
    HangReplyFlag();
    HangReplyArray();
    HangWitness();
  }

  /** On array text where the loop as written ends, it visits the same spans
      as the repaired loop. */
  lemma {:induction false} SpansAgree(arr: StdString, pos: nat)
    requires EveryOpenClosed(arr)
    ensures Spans(arr, pos) == ClosedSpans(arr, pos)
    decreases |arr| - pos
  {
    var b := Find(arr, '{', pos);
    if b != NPOS {
      ClosedFind(arr, b);
      var end := Find(arr, '}', b);
      assert end > b;
      SpansAgree(arr, end + 1);
    }
  }

  /** Wherever parseJson as written returns, the repaired decoder returns the same. */
  lemma ParseAgrees(j: StdString)
    requires ReplyTerminates(j)
    ensures Parse(j) == ParseCorrected(j)
  {
    match Slice(j)
    case Failure(_) =>
    case Success(s) =>
      if SuccessFlag(s).Success? {
        match ArrayText(s)
        case None =>
        case Some(arr) => SpansAgree(arr, 0);
      }
  }
}
