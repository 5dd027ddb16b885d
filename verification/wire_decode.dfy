/**
 * A reader for the command grammar the serialisers write, used as their
 * reference: each builder's text decodes to the command it was built from,
 * provided the pieces it copies verbatim cannot be confused with the
 * grammar's separators.
 */
module WireDecode {
  import opened Wrappers
  import opened Decimal
  import opened Commands

  datatype Command =
    | Get(table: string, key: int)
    | Delete(table: string, key: int)
    | Create(table: string, keyCol: int, columns: seq<ColumnDef>)
    | Insert(table: string, values: seq<TypedValue>)
    | Update(table: string, key: int, values: seq<TypedValue>)

  /** Splits `s` before its first `c`: the text without `c`, and the rest from `c` on. */
  function SpanUntil(s: string, c: char): (r: (string, string))
    ensures r.0 + r.1 == s
    ensures c !in r.0
    ensures r.1 == [] || r.1[0] == c
  {
    if s == [] then ("", "")
    else if s[0] == c then ("", s)
    else
      var rest := SpanUntil(s[1..], c);
      var head := [s[0]] + rest.0;
      assert s == [s[0]] + s[1..];
      assert head + rest.1 == [s[0]] + (rest.0 + rest.1);
      assert forall i | 0 <= i < |head| :: head[i] == s[0] || head[i] == rest.0[i - 1];
      (head, rest.1)
  }

  /** A split with SpanUntil's properties is SpanUntil's split. */
  lemma {:induction false} SpanUntilOf(a: string, b: string, c: char)
    requires c !in a
    requires b == [] || b[0] == c
    ensures SpanUntil(a + b, c) == (a, b)
  {
    if a != [] {
      assert (a + b)[0] == a[0] && a[0] != c;
      assert (a + b)[1..] == a[1..] + b;
      SpanUntilOf(a[1..], b, c);
      assert [a[0]] + a[1..] == a;
    } else {
      assert a + b == b;
    }
  }

  /** A space-led word: the text after the space up to the next space, and what follows. */
  function NextWord(s: string): Option<(string, string)>
  {
    if s == [] || s[0] != ' ' then None else Some(SpanUntil(s[1..], ' '))
  }

  /** A value: quoted (up to the closing quote) or bare (up to the next colon); and what follows. */
  function DecodeValue(s: string): (r: Option<(string, string)>)
    ensures r.Some? ==> |r.value.1| <= |s|
  {
    if |s| > 0 && s[0] == '"' then
      var (v, rest) := SpanUntil(s[1..], '"');
      if rest == [] then None else Some((v, rest[1..]))
    else Some(SpanUntil(s, ':'))
  }

  /** A sequence of ` col:val:kind` entries. */
  function DecodeTyped(s: string): Option<seq<TypedValue>>
    decreases |s|
  {
    if s == [] then Some([])
    else if s[0] != ' ' then None
    else
      var (col, r1) := SpanUntil(s[1..], ':');
      if r1 == [] then None
      else match DecodeValue(r1[1..])
        case None => None
        case Some((val, r2)) =>
          if r2 == [] || r2[0] != ':' then None
          else
            var (kind, r3) := SpanUntil(r2[1..], ' ');
            match DecodeTyped(r3)
            case None => None
            case Some(rest) => Some([TypedValue(col, val, kind)] + rest)
  }

  /** A sequence of ` col:kind` entries. */
  function DecodeColumns(s: string): Option<seq<ColumnDef>>
    decreases |s|
  {
    if s == [] then Some([])
    else if s[0] != ' ' then None
    else
      var (col, r1) := SpanUntil(s[1..], ':');
      if r1 == [] then None
      else
        var (kind, r2) := SpanUntil(r1[1..], ' ');
        match DecodeColumns(r2)
        case None => None
        case Some(rest) => Some([ColumnDef(col, kind)] + rest)
  }

  /** Reads one command line: the verb, the table, and what the verb expects after them. */
  function DecodeCommand(s: string): Option<Command>
  {
    var (verb, r0) := SpanUntil(s, ' ');
    match NextWord(r0)
    case None => None
    case Some((table, r1)) => DecodeArgs(verb, table, r1)
  }

  function DecodeArgs(verb: string, table: string, s: string): Option<Command>
  {
    if verb == "INSERT" then
      match DecodeTyped(s)
      case None => None
      case Some(values) => Some(Insert(table, values))
    else
      match NextWord(s)
      case None => None
      case Some((num, r)) =>
        match ParseInt(num)
        case None => None
        case Some(n) => DecodeKeyed(verb, table, n, r)
  }

  function DecodeKeyed(verb: string, table: string, n: int, s: string): Option<Command>
  {
    if verb == "GET" && s == [] then Some(Get(table, n))
    else if verb == "DELETE" && s == [] then Some(Delete(table, n))
    else if verb == "CREATE" then
      match DecodeColumns(s)
      case None => None
      case Some(cols) => Some(Create(table, n, cols))
    else if verb == "UPDATE" then
      match DecodeTyped(s)
      case None => None
      case Some(values) => Some(Update(table, n, values))
    else None
  }

  // ---------------------------------------------------------------------
  // Round trips

  /** A typed tuple whose text cannot be misread: no colon in the column, no
      quote in the value, no colon in an unquoted value, no space in the kind. */
  predicate SafeTyped(t: TypedValue)
  {
    ':' !in t.col && '"' !in t.val && (' ' !in t.val ==> ':' !in t.val) && ' ' !in t.kind
  }

  predicate SafeColumn(c: ColumnDef)
  {
    ':' !in c.col && ' ' !in c.kind
  }

  lemma Concat6(a: string, b: string, c: string, d: string, e: string, f: string, g: string)
    ensures a + b + c + d + e + f + g == a + (b + (c + (d + (e + (f + g)))))
  {
  }

  lemma Concat4(a: string, b: string, c: string, d: string, e: string)
    ensures a + b + c + d + e == a + (b + (c + (d + e)))
  {
  }

  lemma ValueDecodes(val: string, after: string)
    requires '"' !in val && (' ' !in val ==> ':' !in val)
    requires after != [] && after[0] == ':'
    ensures DecodeValue(Quoted(val) + after) == Some((val, after))
  {
    if ' ' in val {
      var q := "\"" + after;
      assert Quoted(val) + after == "\"" + (val + q);
      assert ("\"" + (val + q))[1..] == val + q;
      SpanUntilOf(val, q, '"');
      assert q[1..] == after;
    } else {
      SpanUntilOf(val, after, ':');
    }
  }

  lemma TypedEntryDecodes(t: TypedValue, rest: string)
    requires SafeTyped(t)
    requires rest == [] || rest[0] == ' '
    ensures DecodeTyped(TypedEntry(t) + rest) ==
      match DecodeTyped(rest) case None => None case Some(vs) => Some([t] + vs)
  {
    var k := t.kind + rest;
    var p2 := ":" + k;
    var v := Quoted(t.val) + p2;
    var p1 := ":" + v;
    var c := t.col + p1;
    Concat6(" ", t.col, ":", Quoted(t.val), ":", t.kind, rest);
    assert TypedEntry(t) + rest == " " + c;
    assert (" " + c)[1..] == c;
    SpanUntilOf(t.col, p1, ':');
    assert p1[1..] == v;
    ValueDecodes(t.val, p2);
    assert p2[1..] == k;
    SpanUntilOf(t.kind, rest, ' ');
  }

  lemma {:induction false} TypedTailRoundTrip(values: seq<TypedValue>)
    requires forall i | 0 <= i < |values| :: SafeTyped(values[i])
    ensures DecodeTyped(TypedTail(values)) == Some(values)
  {
    if values != [] {
      TypedTailRoundTrip(values[1..]);
      TailStartsWithSpace(values[1..], []);
      assert TypedTail(values) == TypedEntry(values[0]) + TypedTail(values[1..]);
      TypedEntryDecodes(values[0], TypedTail(values[1..]));
      assert [values[0]] + values[1..] == values;
    }
  }

  lemma ColumnEntryDecodes(c: ColumnDef, rest: string)
    requires SafeColumn(c)
    requires rest == [] || rest[0] == ' '
    ensures DecodeColumns(ColumnEntry(c) + rest) ==
      match DecodeColumns(rest) case None => None case Some(cs) => Some([c] + cs)
  {
    var k := c.kind + rest;
    var p1 := ":" + k;
    var w := c.col + p1;
    Concat4(" ", c.col, ":", c.kind, rest);
    assert ColumnEntry(c) + rest == " " + w;
    assert (" " + w)[1..] == w;
    SpanUntilOf(c.col, p1, ':');
    assert p1[1..] == k;
    SpanUntilOf(c.kind, rest, ' ');
  }

  lemma {:induction false} ColumnTailRoundTrip(values: seq<ColumnDef>)
    requires forall i | 0 <= i < |values| :: SafeColumn(values[i])
    ensures DecodeColumns(ColumnTail(values)) == Some(values)
  {
    if values != [] {
      ColumnTailRoundTrip(values[1..]);
      TailStartsWithSpace([], values[1..]);
      assert ColumnTail(values) == ColumnEntry(values[0]) + ColumnTail(values[1..]);
      ColumnEntryDecodes(values[0], ColumnTail(values[1..]));
      assert [values[0]] + values[1..] == values;
    }
  }

  lemma TailStartsWithSpace(values: seq<TypedValue>, columns: seq<ColumnDef>)
    ensures TypedTail(values) == [] || TypedTail(values)[0] == ' '
    ensures ColumnTail(columns) == [] || ColumnTail(columns)[0] == ' '
  {
  }

  /** Reads `verb table` off the front of a command line. */
  lemma HeaderDecodes(verb: string, table: string, rest: string)
    requires ' ' !in verb && ' ' !in table
    requires rest == [] || rest[0] == ' '
    ensures DecodeCommand(verb + " " + table + rest) == DecodeArgs(verb, table, rest)
  {
    var w := " " + table + rest;
    assert verb + " " + table + rest == verb + w;
    SpanUntilOf(verb, w, ' ');
    assert w[1..] == table + rest;
    SpanUntilOf(table, rest, ' ');
  }

  /** Reads the decimal key that follows the table. */
  lemma KeyDecodes(verb: string, table: string, key: int, rest: string)
    requires verb != "INSERT"
    requires rest == [] || rest[0] == ' '
    ensures DecodeArgs(verb, table, " " + ToString(key) + rest) == DecodeKeyed(verb, table, key, rest)
  {
    var num := ToString(key);
    ToStringShape(key);
    assert (" " + num + rest)[1..] == num + rest;
    SpanUntilOf(num, rest, ' ');
    ToStringRoundTrip(key);
  }

  /** `get` writes exactly `GET <table> <key>`. */
  lemma GetRoundTrip(table: string, key: Int64)
    requires ' ' !in table
    ensures DecodeCommand(GetText(table, key)) == Some(Get(table, key))
  {
    var num := ToString(key);
    assert GetText(table, key) == "GET" + " " + table + (" " + num);
    HeaderDecodes("GET", table, " " + num);
    assert " " + num == " " + num + "";
    KeyDecodes("GET", table, key, "");
  }

  /** `remove` writes exactly `DELETE <table> <key>`. */
  lemma DeleteRoundTrip(table: string, key: Int64)
    requires ' ' !in table
    ensures DecodeCommand(DeleteText(table, key)) == Some(Delete(table, key))
  {
    var num := ToString(key);
    assert DeleteText(table, key) == "DELETE" + " " + table + (" " + num);
    HeaderDecodes("DELETE", table, " " + num);
    assert " " + num == " " + num + "";
    KeyDecodes("DELETE", table, key, "");
  }

  /** `create` writes `CREATE <table> <keyCol>` and then ` col:kind` per pair, in order. */
  lemma CreateRoundTrip(table: string, keyCol: Int32, columns: seq<ColumnDef>)
    requires ' ' !in table
    requires forall i | 0 <= i < |columns| :: SafeColumn(columns[i])
    ensures DecodeCommand(CreateText(table, keyCol, columns)) == Some(Create(table, keyCol, columns))
  {
    var num := ToString(keyCol);
    var tail := ColumnTail(columns);
    TailStartsWithSpace([], columns);
    assert CreateText(table, keyCol, columns) == "CREATE" + " " + table + (" " + num + tail);
    HeaderDecodes("CREATE", table, " " + num + tail);
    KeyDecodes("CREATE", table, keyCol, tail);
    ColumnTailRoundTrip(columns);
  }

  /** `insert` writes `INSERT <table>` and then ` col:val:kind` per tuple, in order. */
  lemma InsertRoundTrip(table: string, values: seq<TypedValue>)
    requires ' ' !in table
    requires forall i | 0 <= i < |values| :: SafeTyped(values[i])
    ensures DecodeCommand(InsertText(table, values)) == Some(Insert(table, values))
  {
    var tail := TypedTail(values);
    TailStartsWithSpace(values, []);
    assert InsertText(table, values) == "INSERT" + " " + table + tail;
    HeaderDecodes("INSERT", table, tail);
    TypedTailRoundTrip(values);
  }

  /** `update` writes `UPDATE <table> <key>` and then ` col:val:kind` per tuple, in order. */
  lemma UpdateRoundTrip(table: string, key: Int64, values: seq<TypedValue>)
    requires ' ' !in table
    requires forall i | 0 <= i < |values| :: SafeTyped(values[i])
    ensures DecodeCommand(UpdateText(table, key, values)) == Some(Update(table, key, values))
  {
    var num := ToString(key);
    var tail := TypedTail(values);
    TailStartsWithSpace(values, []);
    assert UpdateText(table, key, values) == "UPDATE" + " " + table + (" " + num + tail);
    HeaderDecodes("UPDATE", table, " " + num + tail);
    KeyDecodes("UPDATE", table, key, tail);
    TypedTailRoundTrip(values);
  }
}
