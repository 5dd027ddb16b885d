/**
 * The command serialisers of DBConnector: each operation writes one
 * space-separated line with an upper-case verb. Typed tails are written
 * `col:val:kind` (insert, update) or `col:kind` (create), with `val`
 * wrapped in double quotes exactly when it contains a space.
 *
 * `WireDecode` below is an independent reader of that grammar; the
 * round-trip lemmas show that every builder's text reads back as the
 * arguments it was built from.
 */
module Commands {
  import opened Wrappers
  import opened Decimal
  import opened Kinds

  /** One tuple of `insert`/`update`: (column, value, kind). */
  datatype TypedValue = TypedValue(col: string, val: string, kind: string)

  /** One tuple of `create`: (column, kind). */
  datatype ColumnDef = ColumnDef(col: string, kind: string)

  /** The kinds of the tuples, in order. */
  function TypedKinds(values: seq<TypedValue>): (ks: seq<string>)
    ensures |ks| == |values| && forall i | 0 <= i < |values| :: ks[i] == values[i].kind
  {
    seq(|values|, i requires 0 <= i < |values| => values[i].kind)
  }

  /** The kinds of the pairs, in order. */
  function ColumnKinds(values: seq<ColumnDef>): (ks: seq<string>)
    ensures |ks| == |values| && forall i | 0 <= i < |values| :: ks[i] == values[i].kind
  {
    seq(|values|, i requires 0 <= i < |values| => values[i].kind)
  }

  /** `validateKinds` over (column, value, kind) tuples: the kind it throws on, if any. */
  method ValidateTypedKinds(values: seq<TypedValue>) returns (bad: Option<string>)
    ensures bad.None? <==> forall i | 0 <= i < |values| :: ValidKind(values[i].kind)
    ensures bad == FirstInvalid(TypedKinds(values))
  {
    for i := 0 to |values|
      invariant forall j | 0 <= j < i :: ValidKind(values[j].kind)
    {
      if !ValidKind(values[i].kind) {
        return Some(values[i].kind);
      }
    }
    return None;
  }

  /** `validateKinds` over (column, kind) tuples: the kind it throws on, if any. */
  method ValidateColumnKinds(values: seq<ColumnDef>) returns (bad: Option<string>)
    ensures bad.None? <==> forall i | 0 <= i < |values| :: ValidKind(values[i].kind)
    ensures bad == FirstInvalid(ColumnKinds(values))
  {
    for i := 0 to |values|
      invariant forall j | 0 <= j < i :: ValidKind(values[j].kind)
    {
      if !ValidKind(values[i].kind) {
        return Some(values[i].kind);
      }
    }
    return None;
  }

  // ---------------------------------------------------------------------
  // Wire text

  /** A value as written on the wire: quoted exactly when it contains a space. */
  function Quoted(v: string): string
  {
    if ' ' in v then "\"" + v + "\"" else v
  }

  function TypedEntry(t: TypedValue): string
  {
    " " + t.col + ":" + Quoted(t.val) + ":" + t.kind
  }

  function TypedTail(values: seq<TypedValue>): string
  {
    if values == [] then "" else TypedEntry(values[0]) + TypedTail(values[1..])
  }

  function ColumnEntry(c: ColumnDef): string
  {
    " " + c.col + ":" + c.kind
  }

  function ColumnTail(values: seq<ColumnDef>): string
  {
    if values == [] then "" else ColumnEntry(values[0]) + ColumnTail(values[1..])
  }

  function GetText(table: string, key: Int64): string
  {
    "GET " + table + " " + ToString(key)
  }

  function DeleteText(table: string, key: Int64): string
  {
    "DELETE " + table + " " + ToString(key)
  }

  function CreateText(table: string, keyCol: Int32, values: seq<ColumnDef>): string
  {
    "CREATE " + table + " " + ToString(keyCol) + ColumnTail(values)
  }

  function InsertText(table: string, values: seq<TypedValue>): string
  {
    "INSERT " + table + TypedTail(values)
  }

  function UpdateText(table: string, key: Int64, values: seq<TypedValue>): string
  {
    "UPDATE " + table + " " + ToString(key) + TypedTail(values)
  }

  lemma {:induction false} TypedTailAppend(values: seq<TypedValue>, t: TypedValue)
    ensures TypedTail(values + [t]) == TypedTail(values) + TypedEntry(t)
  {
    if values != [] {
      assert (values + [t])[1..] == values[1..] + [t];
      TypedTailAppend(values[1..], t);
    }
  }

  lemma {:induction false} ColumnTailAppend(values: seq<ColumnDef>, c: ColumnDef)
    ensures ColumnTail(values + [c]) == ColumnTail(values) + ColumnEntry(c)
  {
    if values != [] {
      assert (values + [c])[1..] == values[1..] + [c];
      ColumnTailAppend(values[1..], c);
    }
  }

  lemma Assoc(a: string, b: string, c: string)
    ensures (a + b) + c == a + (b + c)
  {
  }

  // ---------------------------------------------------------------------
  // The ostringstream loops of create, insert and update

  /** Writes one typed tuple after `cmd`, as the loops of insert and update do. */
  function AppendTyped(cmd: string, t: TypedValue): string
  {
    if ' ' in t.val then cmd + " " + t.col + ":\"" + t.val + "\":" + t.kind
    else cmd + " " + t.col + ":" + t.val + ":" + t.kind
  }

  lemma AppendTypedWritesEntry(cmd: string, t: TypedValue)
    ensures AppendTyped(cmd, t) == cmd + TypedEntry(t)
  {
    if ' ' in t.val {
      calc {
        cmd + " " + t.col + ":\"" + t.val + "\":" + t.kind;
        cmd + (" " + t.col + ":" + ("\"" + t.val + "\"") + ":" + t.kind);
      }
    } else {
      assert cmd + " " + t.col + ":" + t.val + ":" + t.kind == cmd + (" " + t.col + ":" + t.val + ":" + t.kind);
    }
  }

  /** Writes one ` col:kind` entry after `cmd`, as one turn of the loop of create does. */
  function AppendColumn(cmd: string, c: ColumnDef): string
  {
    cmd + " " + c.col + ":" + c.kind
  }

  lemma AppendColumnWritesEntry(cmd: string, c: ColumnDef)
    ensures AppendColumn(cmd, c) == cmd + ColumnEntry(c)
  {
    assert cmd + " " + c.col + ":" + c.kind == cmd + (" " + c.col + ":" + c.kind);
  }

  /** The loop of create: writes every pair after `header`, in order. */
  method WriteColumns(header: string, values: seq<ColumnDef>) returns (cmd: string)
    ensures cmd == header + ColumnTail(values)
  {
    cmd := header;
    for i := 0 to |values|
      invariant cmd == header + ColumnTail(values[..i])
    {
      ColumnTailAppend(values[..i], values[i]);
      assert values[..i + 1] == values[..i] + [values[i]];
      AppendColumnWritesEntry(cmd, values[i]);
      Assoc(header, ColumnTail(values[..i]), ColumnEntry(values[i]));
      cmd := AppendColumn(cmd, values[i]);
    }
    assert values[..|values|] == values;
  }

  /** The loop of insert and update: writes every tuple after `header`, in order. */
  method WriteTyped(header: string, values: seq<TypedValue>) returns (cmd: string)
    ensures cmd == header + TypedTail(values)
  {
    cmd := header;
    for i := 0 to |values|
      invariant cmd == header + TypedTail(values[..i])
    {
      TypedTailAppend(values[..i], values[i]);
      assert values[..i + 1] == values[..i] + [values[i]];
      AppendTypedWritesEntry(cmd, values[i]);
      Assoc(header, TypedTail(values[..i]), TypedEntry(values[i]));
      cmd := AppendTyped(cmd, values[i]);
    }
    assert values[..|values|] == values;
  }

  method BuildCreate(table: string, keyCol: Int32, values: seq<ColumnDef>) returns (cmd: string)
    ensures cmd == CreateText(table, keyCol, values)
  {
    cmd := WriteColumns("CREATE " + table + " " + ToString(keyCol), values);
  }

  method BuildInsert(table: string, values: seq<TypedValue>) returns (cmd: string)
    ensures cmd == InsertText(table, values)
  {
    cmd := WriteTyped("INSERT " + table, values);
  }

  method BuildUpdate(table: string, key: Int64, values: seq<TypedValue>) returns (cmd: string)
    ensures cmd == UpdateText(table, key, values)
  {
    cmd := WriteTyped("UPDATE " + table + " " + ToString(key), values);
  }
}
