/**
 * The reply decoder `parseJson` of DBConnector: a narrow scanner, not a
 * JSON parser. It keeps the text from the first `{` to the last `}`,
 * requires a `"success":` marker, then reads `detail` between the two
 * quotes after `"detail":` and the records of the `data` array, each a
 * flat `{ "k":"v", ... }` span split on commas.
 *
 * Indices follow std::string: searches return NPOS when they find
 * nothing, and the code's `+ 1` and differences on those results wrap
 * modulo 2^64 (see `Wrap`). That wrap is defined behaviour at lines 144
 * and 166-171 and is modelled as is; at line 175 it makes the record loop
 * restart forever, so `Parse` requires that every `{` of the array text
 * is closed, and `ParseCorrected` is the decoder with that loop repaired.
 */
module Reply {
  import opened Wrappers
  import opened CppString

  /** One row of `data`: column name to value. */
  type Record = map<string, string>

  datatype DBResponse = DBResponse(success: bool, detail: string, data: seq<Record>)

  /** The two `runtime_error`s parseJson throws. */
  datatype ParseError = Malformed | MissingSuccess

  function ErrorMessage(e: ParseError): string
  {
    match e
    case Malformed => "Malformed response"
    case MissingSuccess => "Missing success"
  }

  const SUCCESS_MARKER: string := "\"success\":"
  const DETAIL_MARKER: string := "\"detail\":"
  const DATA_MARKER: string := "\"data\":"

  // ---------------------------------------------------------------------
  // The steps of parseJson, one function each

  /** The object text: from the first `{` to the last `}`, inclusive. */
  function Slice(j: StdString): (r: Result<StdString, ParseError>)
    ensures r.Failure? <==> !exists i, k | 0 <= i < k < |j| :: j[i] == '{' && j[k] == '}'
    ensures r.Failure? ==> r.error == Malformed
  {
    var b := Find(j, '{', 0);
    var e := RFind(j, '}');
    FindFirst(j, '{', 0);
    RFindLast(j, '}');
    if b == NPOS || e == NPOS || e < b then Failure(Malformed)
    else Success(Substr(j, b, e - b + 1))
  }

  /** `success`: the text after the marker, up to the next `,` or `}`, is exactly `true`. */
  function SuccessFlag(s: StdString): Result<bool, ParseError>
  {
    var p := FindSub(s, SUCCESS_MARKER, 0);
    if p == NPOS then Failure(MissingSuccess) else Success(FlagAt(s, p + 10))
  }

  /** The text from `from` up to the next `,` or `}` (or the end) is exactly `true`. */
  function FlagAt(s: StdString, from: nat): bool
    requires from <= |s|
  {
    var endp := FindFirstOf(s, {',', '}'}, from);
    Substr(s, from, Wrap(endp - from)) == "true"
  }

  /** A search result: an index into `s`, or npos. */
  predicate IndexOrNpos(s: StdString, i: SizeT)
  {
    i == NPOS || i < |s|
  }

  /** `detail`: the text between the two quotes after `"detail":`, or empty without the marker. */
  function Detail(s: StdString): string
  {
    var d0 := FindSub(s, DETAIL_MARKER, 0);
    if d0 == NPOS then "" else QuotedFrom(s, Find(s, '"', d0 + 9))
  }

  /** The text after the quote at `q1` up to the next quote: `substr(q1 + 1, q2 - q1 - 1)`. */
  function QuotedFrom(s: StdString, q1: SizeT): StdString
    requires IndexOrNpos(s, q1)
  {
    var q2 := Find(s, '"', Wrap(q1 + 1));
    Substr(s, Wrap(q1 + 1), Wrap(q2 - q1 - 1))
  }

  /** The text strictly between the first `[` after `"data":` and the first `]` after that. */
  function ArrayText(s: StdString): Option<StdString>
  {
    var a0 := FindSub(s, DATA_MARKER, 0);
    if a0 == NPOS then None
    else
      var arrStart := Find(s, '[', a0);
      var arrEnd := Find(s, ']', arrStart);
      if arrStart != NPOS && arrEnd != NPOS && arrEnd > arrStart then
        Some(Substr(s, arrStart + 1, arrEnd - arrStart - 1))
      else None
  }

  /** One comma-separated field: the key between its first two quotes, the value
      between the next two quotes after the following `:`. */
  function ParseField(f: StdString): (string, string)
  {
    FieldFrom(f, Find(f, '"', 0))
  }

  /** The field read with its key's opening quote at `keyStart`. */
  function FieldFrom(f: StdString, keyStart: SizeT): (string, string)
    requires IndexOrNpos(f, keyStart)
  {
    var keyEnd := Find(f, '"', Wrap(keyStart + 1));
    (QuotedFrom(f, keyStart), ValueAfter(f, Find(f, ':', keyEnd)))
  }

  /** The value: the text between the next two quotes after the colon at `colon`. */
  function ValueAfter(f: StdString, colon: SizeT): StdString
    requires IndexOrNpos(f, colon)
  {
    QuotedFrom(f, Find(f, '"', Wrap(colon + 1)))
  }

  /** The fields `getline(ss, field, ',')` yields from `obj`, starting at `cursor`:
      the text up to each comma, with no empty field after a final comma. */
  function Fields(obj: StdString, cursor: nat): seq<StdString>
    decreases |obj| - cursor
  {
    if cursor >= |obj| then []
    else [obj[cursor..FieldEnd(obj, cursor)]] + Fields(obj, FieldEnd(obj, cursor) + 1)
  }

  /** Where the field starting at `cursor` ends: the next comma, or the end of `obj`. */
  function FieldEnd(obj: StdString, cursor: nat): (r: nat)
    requires cursor < |obj|
    ensures cursor <= r <= |obj|
    ensures ',' !in obj[cursor..r]
    ensures r < |obj| ==> obj[r] == ','
  {
    var comma := Find(obj, ',', cursor);
    FindFirst(obj, ',', cursor);
    if comma == NPOS then |obj| else comma
  }

  /** The (key, value) pair of each field. */
  function Pairs(fields: seq<StdString>): (r: seq<(string, string)>)
    ensures |r| == |fields|
  {
    seq(|fields|, i requires 0 <= i < |fields| => ParseField(fields[i]))
  }

  /** `rec[key] = val` for each pair in turn, starting from an empty record. */
  function Collect(pairs: seq<(string, string)>): Record
  {
    if pairs == [] then map[]
    else Collect(pairs[..|pairs| - 1])[pairs[|pairs| - 1].0 := pairs[|pairs| - 1].1]
  }

  /** The record of one `{...}` span, given the text between the braces. */
  function RecordOf(obj: StdString): (r: Record)
    ensures obj == "" ==> r == map[]
  {
    Collect(Pairs(Fields(obj, 0)))
  }

  /** The record of each span, in order. */
  function Records(objs: seq<StdString>): (r: seq<Record>)
    ensures |r| == |objs|
  {
    seq(|objs|, i requires 0 <= i < |objs| => RecordOf(objs[i]))
  }

  lemma RecordsSnoc(objs: seq<StdString>, obj: StdString, rec: Record)
    requires rec == RecordOf(obj)
    ensures Records(objs + [obj]) == Records(objs) + [rec]
  {
  }

  /** Every `{` is followed, somewhere later, by a `}`: the record loop then ends. */
  predicate EveryOpenClosed(arr: string)
  {
    forall i | 0 <= i < |arr| && arr[i] == '{' :: '}' in arr[i + 1..]
  }

  lemma ClosedFind(arr: StdString, b: nat)
    requires EveryOpenClosed(arr)
    requires b < |arr| && arr[b] == '{'
    ensures Find(arr, '}', b) != NPOS
  {
    var k :| 0 <= k < |arr[b + 1..]| && arr[b + 1..][k] == '}';
    assert arr[b + 1 + k] == '}';
    FindFirst(arr, '}', b);
  }

  /** The spans the record loop visits from `pos`, as written, on array text
      whose every `{` is closed: the text between each `{` and the next `}`. */
  function Spans(arr: StdString, pos: nat): seq<StdString>
    requires EveryOpenClosed(arr)
    decreases |arr| - pos
  {
    var b := Find(arr, '{', pos);
    if b == NPOS then []
    else
      var end := Find(arr, '}', b);
      ClosedFind(arr, b);
      [Substr(arr, b + 1, Wrap(end - b - 1))] + Spans(arr, end + 1)
  }

  predicate DataTerminates(s: StdString)
  {
    match ArrayText(s)
    case None => true
    case Some(arr) => EveryOpenClosed(arr)
  }

  function Data(s: StdString): seq<Record>
    requires DataTerminates(s)
  {
    match ArrayText(s)
    case None => []
    case Some(arr) => Records(Spans(arr, 0))
  }

  /** parseJson returns on `j`: it throws before the record loop, or the loop ends. */
  predicate ReplyTerminates(j: StdString)
  {
    match Slice(j)
    case Failure(_) => true
    case Success(s) => SuccessFlag(s).Failure? || DataTerminates(s)
  }

  /** parseJson, as written, on every reply for which it returns. */
  function Parse(j: StdString): Result<DBResponse, ParseError>
    requires ReplyTerminates(j)
  {
    match Slice(j)
    case Failure(e) => Failure(e)
    case Success(s) =>
      match SuccessFlag(s)
      case Failure(e) => Failure(e)
      case Success(ok) => Success(DBResponse(ok, Detail(s), Data(s)))
  }

  // ---------------------------------------------------------------------
  // The record loop repaired: it stops at a `{` with no later `}`

  /** The value of `pos` after one turn of the record loop as written:
      `end + 1` in size_t, which wraps to 0 when `end` is npos. */
  function NextPos(arr: StdString, pos: nat): (r: SizeT)
    requires Find(arr, '{', pos) != NPOS
    ensures Find(arr, '}', Find(arr, '{', pos)) == NPOS ==> r == 0
    ensures Find(arr, '}', Find(arr, '{', pos)) != NPOS ==> pos < r <= |arr|
  {
    Wrap(Find(arr, '}', Find(arr, '{', pos)) + 1)
  }

  /** The spans from `pos`, ending at the first `{` that has no later `}`. */
  function ClosedSpans(arr: StdString, pos: nat): seq<StdString>
    decreases |arr| - pos
  {
    var b := Find(arr, '{', pos);
    if b == NPOS then []
    else
      var end := Find(arr, '}', b);
      if end == NPOS then []
      else [arr[b + 1..end]] + ClosedSpans(arr, end + 1)
  }

  function DataClosed(s: StdString): seq<Record>
  {
    match ArrayText(s)
    case None => []
    case Some(arr) => Records(ClosedSpans(arr, 0))
  }

  /** parseJson with the record loop repaired: defined on every reply. */
  function ParseCorrected(j: StdString): Result<DBResponse, ParseError>
  {
    match Slice(j)
    case Failure(e) => Failure(e)
    case Success(s) =>
      match SuccessFlag(s)
      case Failure(e) => Failure(e)
      case Success(ok) => Success(DBResponse(ok, Detail(s), DataClosed(s)))
  }

  // ---------------------------------------------------------------------
  // The imperative decoder

  /** The getline loop of lines 161-173, over the fields getline yields. */
  method ReadRecord(obj: StdString) returns (rec: Record)
    ensures rec == RecordOf(obj)
  {
    var fields := Fields(obj, 0);
    ghost var pairs := Pairs(fields);
    rec := map[];
    for i := 0 to |fields|
      invariant rec == Collect(pairs[..i])
    {
      var (key, val) := ParseField(fields[i]);
      assert pairs[..i + 1][..i] == pairs[..i];
      rec := rec[key := val];
    }
    assert pairs[..|fields|] == pairs;
  }

  /** The repaired record loop from `pos`, with the spans already visited in `seen`. */
  function ScanLoop(arr: StdString, pos: nat, seen: seq<StdString>): (r: seq<StdString>)
    decreases |arr| - pos
  {
    var open := Find(arr, '{', pos);
    if open == NPOS then seen
    else
      var end := Find(arr, '}', open);
      if end == NPOS then seen
      else ScanLoop(arr, end + 1, seen + [arr[open + 1..end]])
  }

  /** One step of ClosedSpans: the span of the first closed `{`, then the rest. */
  lemma ClosedSpansStep(arr: StdString, pos: nat)
    requires Find(arr, '{', pos) != NPOS
    requires Find(arr, '}', Find(arr, '{', pos)) != NPOS
    ensures var open := Find(arr, '{', pos);
      var end := Find(arr, '}', open);
      ClosedSpans(arr, pos) == [arr[open + 1..end]] + ClosedSpans(arr, end + 1)
  {
  }

  lemma ConsAssoc<T>(a: seq<T>, x: T, b: seq<T>)
    ensures a + ([x] + b) == (a + [x]) + b
  {
  }

  /** Once no closed `{` remains from `pos`, the loop has collected all it will. */
  lemma ScanLoopDone(arr: StdString, pos: nat, seen: seq<StdString>)
    requires Find(arr, '{', pos) == NPOS || Find(arr, '}', Find(arr, '{', pos)) == NPOS
    ensures ScanLoop(arr, pos, seen) == seen
  {
  }

  /** The loop collects exactly the spans `ClosedSpans` lists. */
  lemma {:induction false} ScanLoopSpans(arr: StdString, pos: nat, seen: seq<StdString>)
    ensures ScanLoop(arr, pos, seen) == seen + ClosedSpans(arr, pos)
    decreases |arr| - pos
  {
    var open := Find(arr, '{', pos);
    if open == NPOS || Find(arr, '}', open) == NPOS {
      assert seen + [] == seen;
    } else {
      var end := Find(arr, '}', open);
      var obj := arr[open + 1..end];
      ScanLoopStep(arr, pos, seen);
      ScanLoopSpans(arr, end + 1, seen + [obj]);
      ClosedSpansStep(arr, pos);
      ConsAssoc(seen, obj, ClosedSpans(arr, end + 1));
    }
  }

  /** One turn of the repaired loop: the span between the `{` and its `}` is visited, and the loop goes on after the `}`. */
  lemma ScanLoopStep(arr: StdString, pos: nat, seen: seq<StdString>)
    requires Find(arr, '{', pos) != NPOS
    requires Find(arr, '}', Find(arr, '{', pos)) != NPOS
    ensures var open := Find(arr, '{', pos);
      var end := Find(arr, '}', open);
      ScanLoop(arr, pos, seen) == ScanLoop(arr, end + 1, seen + [arr[open + 1..end]])
  {
  }

  /** One turn of the loop moves `from` past the span's `}` and keeps the scan's result. */
  lemma ScanTurn(arr: StdString, from: nat, seen: seq<StdString>, open: nat, end: nat)
    requires ScanLoop(arr, from, seen) == ScanLoop(arr, 0, [])
    requires open == Find(arr, '{', from) && open != NPOS
    requires end == Find(arr, '}', open) && end != NPOS
    ensures from <= open < end < |arr|
    ensures ScanLoop(arr, end + 1, seen + [arr[open + 1..end]]) == ScanLoop(arr, 0, [])
  {
    ScanLoopStep(arr, from, seen);
  }

  /** The record loop of lines 155-176 over the array text, leaving the loop
      at a `{` with no later `}` instead of restarting it. As in the source,
      the loop condition stores the search result in `pos`. */
  method ScanArray(arr: StdString) returns (data: seq<Record>)
    ensures data == Records(ClosedSpans(arr, 0))
  {
    data := [];
    var from: nat := 0;
    ghost var seen: seq<StdString> := [];
    var pos := Find(arr, '{', 0);
    while pos != NPOS
      invariant from <= |arr| && pos == Find(arr, '{', from)
      invariant ScanLoop(arr, from, seen) == ScanLoop(arr, 0, [])
      invariant data == Records(seen)
      decreases |arr| - from
    {
      var end := Find(arr, '}', pos);
      if end == NPOS {
        ScanLoopDone(arr, from, seen);
        break;
      }
      var obj := arr[pos + 1..end];
      var rec := ReadRecord(obj);
      ScanTurn(arr, from, seen, pos, end);
      RecordsSnoc(seen, obj, rec);
      data := data + [rec];
      seen := seen + [obj];
      from := end + 1;
      pos := Find(arr, '{', from);
    }
    ScanLoopDone(arr, from, seen);
    ScanLoopSpans(arr, 0, []);
    assert [] + ClosedSpans(arr, 0) == seen;
  }

  /** parseJson, with the repaired record loop. */
  method ParseJson(j: StdString) returns (r: Result<DBResponse, ParseError>)
    ensures r == ParseCorrected(j)
  {
    var slice := Slice(j);
    if slice.Failure? {
      return Failure(slice.error);
    }
    var s := slice.value;
    var success := SuccessFlag(s);
    if success.Failure? {
      return Failure(success.error);
    }
    var detail := Detail(s);
    var data: seq<Record> := [];
    var arrText := ArrayText(s);
    if arrText.Some? {
      data := ScanArray(arrText.value);
    }
    return Success(DBResponse(success.value, detail, data));
  }
}
