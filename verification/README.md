# DBConnector text layer, in Dafny

This project models the text layer of `DBConnector` (include/connector.hpp).
`DBConnector` is the C++ client of a small storage server. Each operation
(`get`, `create`, `insert`, `update`, `remove`, `query`, `cmd`) writes one
command line. It hands the line to the socket client and blocks until the
receive thread fills the one-message mailbox `lastMsg_`. It then reads the
reply with `parseJson`, a hand-rolled scanner built from `std::string` searches.

The model is organised as follows:

- `CppString` gives `find`, `rfind`, `find_first_of` and `substr` with their
  `npos` results. Sizes are unsigned 64-bit values that wrap, so `q1 + 1` on
  `npos` is 0, as in C++.
- `Decimal` covers `std::to_string` and `operator<<` on integers.
- `Kinds` and `Commands` hold the validation and the serialisers. The builder
  loops are methods proved against the text functions.
- `WireDecode` is an independent reader of the command grammar. It gives
  every serialiser a round trip.
- `Reply` holds each step of `parseJson` as a function, the record loop as a
  method over the array text, and `ParseJson` proved against the step
  functions.
- `ReplyFacts` and `RecordFacts` characterise each step by positions in the
  text. They also prove that text written in the reply format reads back.
- `ReplyText` writes a whole reply in the format the decoder looks for
  (`{"success":...,"detail":"...","data":[...]}`). It proves that `parseJson`
  reads back the flag, the detail and one record per object, both as written
  (`ReplyText.ParseRoundTrip`) and with the record loop repaired
  (`ReplyText.ReplyRoundTrip`).
- `Connector` models the mailbox protocol as a class. `Deliver` is the
  receive callback, `Send` clears the mailbox and hands over the command, and
  `Await` blocks while the mailbox is empty and otherwise parses it.

Three facts about the code shape the model:

- `get` writes `GET` in upper case.
- `create` writes `col:kind` pairs and validates the second component.
- The mailbox is emptied before each send, not after it is read. A second read
  sees the same reply (`Connector.ReplyNotConsumed`).

## Model

| member | source | states |
|---|---|---|
| CppString.Find | include/connector.hpp:144 | `find(c, from)` returns npos or an index at or after `from` holding `c` |
| CppString.FindFirst | include/connector.hpp:144 | no `c` lies between `from` and what `find` returns |
| CppString.FindUnique | include/connector.hpp:144 | `find` returns exactly the first `c` from `from`, or npos when there is none |
| CppString.RFindLast | include/connector.hpp:133 | no `}` lies after the index `rfind` returns; npos when there is none |
| CppString.RFindUnique | include/connector.hpp:133 | `rfind` returns exactly the last occurrence, or npos |
| CppString.FindSubFirst | include/connector.hpp:137 | `find(pattern)` returns the first occurrence or npos, and no occurrence lies before it |
| CppString.FindSubUnique | include/connector.hpp:137 | `find(pattern)` returns exactly the first occurrence, or npos when there is none |
| CppString.FindFirstOfFirst | include/connector.hpp:139 | `find_first_of(",}", p)` returns the first `,` or `}` from `p`, or npos |
| CppString.FindFirstOfUnique | include/connector.hpp:139 | `find_first_of` returns exactly that index |
| CppString.WrapIsModular | include/connector.hpp:144-145 | size arithmetic is taken modulo 2^64, as `size_t` arithmetic is |
| CppString.Wrap | include/connector.hpp:144-145 | the result is the `size_t` value of a sum or difference, in [0, 2^64) and equal to the sum itself when that is in range; `WrapIsModular` states it is reduction modulo 2^64 |
| CppString.Substr | include/connector.hpp:136 | `substr(pos, n)` on a size that may be npos; `CppString.SubstrPrefix` states what it returns |
| CppString.SubstrPrefix | include/connector.hpp:136 | `substr(pos, n)` is the prefix of the text from `pos` of length `n`, or the whole rest when fewer than `n` characters remain |
| CppString.RFind | include/connector.hpp:133 | `rfind(c)` returns npos or an index holding `c`; `RFindLast` and `RFindUnique` state it is the last one |
| CppString.FindSub | include/connector.hpp:137 | `find(pattern, from)` returns npos or an index at or after `from` where the pattern occurs; `FindSubFirst` and `FindSubUnique` state it is the first |
| CppString.FindFirstOf | include/connector.hpp:139 | `find_first_of(set, from)` returns npos or an index at or after `from` holding a member of the set; `FindFirstOfFirst` states it is the first |
| Decimal.ToStringRoundTrip | include/connector.hpp:55 | reading back `std::to_string(n)` gives `n`, for negative numbers too |
| Decimal.ToStringShape | include/connector.hpp:55 | the decimal text is non-empty and holds only a sign and digits, so no space |
| Decimal.DigitsRoundTrip | include/connector.hpp:108 | the digits of a natural number read back as that number |
| Decimal.ToString | include/connector.hpp:55 | `std::to_string` and `operator<<` on an integer: a minus sign for negatives, then the digits; its properties are `Decimal.ToStringShape` and `Decimal.ToStringRoundTrip` |
| Kinds.ValidKind | include/connector.hpp:188 | a kind is accepted exactly when it is INT, TEXT, DOUBLE or DATE; `Kinds.FirstInvalid` and both validation loops are stated in terms of it |
| Kinds.InvalidKindMessage | include/connector.hpp:189 | the text of the `invalid_argument` both `validateKinds` overloads throw: `Invalid column type: ` followed by the kind |
| Kinds.FirstInvalid | include/connector.hpp:182-202 | no kind is reported exactly when every kind is INT, TEXT, DOUBLE or DATE; otherwise the first invalid kind is reported |
| Commands.ValidateTypedKinds | include/connector.hpp:182-191 | the loop throws exactly when some third component is invalid, and names the first one |
| Commands.ValidateColumnKinds | include/connector.hpp:193-202 | the loop throws exactly when some second component is invalid, and names the first one |
| Commands.WriteColumns | include/connector.hpp:63-66 | the loop writes ` col:kind` for every pair after the header, in order |
| Commands.WriteTyped | include/connector.hpp:75-84 | the loop writes ` col:val:kind` for every tuple, with `val` quoted exactly when it contains a space |
| Commands.AppendTypedWritesEntry | include/connector.hpp:80-83 | both branches of the quoting `if` write the entry of one tuple |
| Commands.BuildCreate | include/connector.hpp:61-67 | create's stream holds `CREATE <table> <keyCol>` followed by the column entries |
| Commands.BuildInsert | include/connector.hpp:73-85 | insert's stream holds `INSERT <table>` followed by the typed entries |
| Commands.BuildUpdate | include/connector.hpp:91-103 | update's stream holds `UPDATE <table> <key>` followed by the typed entries |
| Commands.GetText | include/connector.hpp:55 | the text of `get`, `GET <table> <key>`; `WireDecode.GetRoundTrip` states it reads back |
| Commands.DeleteText | include/connector.hpp:107-108 | the text of `remove`, `DELETE <table> <key>`; `WireDecode.DeleteRoundTrip` states it reads back |
| Commands.CreateText | include/connector.hpp:61-66 | the text of `create`; `WireDecode.CreateRoundTrip` states it reads back |
| Commands.InsertText | include/connector.hpp:73-84 | the text of `insert`; `WireDecode.InsertRoundTrip` states it reads back |
| Commands.UpdateText | include/connector.hpp:91-102 | the text of `update`; `WireDecode.UpdateRoundTrip` states it reads back |
| Commands.Quoted | include/connector.hpp:80-83 | a value as written: wrapped in double quotes exactly when it contains a space; `WireDecode.ValueDecodes` states the decoder inverts it |
| Commands.TypedEntry | include/connector.hpp:80-83 | one ` col:val:kind` entry of insert and update; `Commands.AppendTypedWritesEntry` states both branches write it |
| Commands.ColumnEntry | include/connector.hpp:65 | one ` col:kind` entry of create; `Commands.AppendColumnWritesEntry` states the loop writes it |
| Commands.AppendColumnWritesEntry | include/connector.hpp:65 | one turn of the create loop writes exactly one ` col:kind` entry after what is already written |
| Commands.AppendTyped | include/connector.hpp:80-83 | one turn of the insert and update loops, with its quoting branch; `Commands.AppendTypedWritesEntry` states both branches write one entry |
| Commands.AppendColumn | include/connector.hpp:65 | one turn of the create loop; `Commands.AppendColumnWritesEntry` states it writes one entry |
| WireDecode.GetRoundTrip | include/connector.hpp:55 | the text of `get` reads back as the table and the key |
| WireDecode.DeleteRoundTrip | include/connector.hpp:107-108 | the text of `remove` reads back as the table and the key |
| WireDecode.CreateRoundTrip | include/connector.hpp:61-66 | the text of `create` reads back as the table, the key column and every pair, in order |
| WireDecode.InsertRoundTrip | include/connector.hpp:73-84 | the text of `insert` reads back as the table and every tuple, in order |
| WireDecode.UpdateRoundTrip | include/connector.hpp:91-102 | the text of `update` reads back as the table, the key and every tuple, in order |
| WireDecode.TypedTailRoundTrip | include/connector.hpp:75-84 | the typed entries read back as the tuples, a spaced value through its quotes |
| WireDecode.ColumnTailRoundTrip | include/connector.hpp:63-66 | the column entries read back as the pairs |
| WireDecode.ValueDecodes | include/connector.hpp:80-83 | a value written quoted or bare reads back as itself |
| Reply.Slice | include/connector.hpp:133-136 | "Malformed response" exactly when no `{` comes before a `}` |
| Reply.ReadRecord | include/connector.hpp:160-173 | the getline loop builds the record that `RecordOf` gives for the span |
| Reply.ScanArray | include/connector.hpp:155-176 | the record loop yields one record per closed `{...}` span, in order, stopping at an unclosed `{` |
| Reply.ScanLoopSpans | include/connector.hpp:156-175 | the loop from `pos` collects the spans already seen followed by the closed spans from `pos` |
| Reply.ParseJson | include/connector.hpp:130-180 | parseJson, with the repaired record loop, returns the composition of the step functions |
| Reply.NextPos | include/connector.hpp:175 | `end + 1` moves past `pos` when a `}` closes the span and wraps to 0 when none does |
| Reply.ErrorMessage | include/connector.hpp:133-139 | the texts of the two `runtime_error`s: "Malformed response" and "Missing success" |
| Reply.SuccessFlag | include/connector.hpp:137-140 | "Missing success" without the marker, else the flag after it; `ReplyFacts.SuccessMissing` and `ReplyFacts.SuccessValue` state both cases by position |
| Reply.FlagAt | include/connector.hpp:139-140 | the text up to the next `,` or `}` is exactly `true`; `ReplyFacts.FlagBetween` states it by position |
| Reply.Detail | include/connector.hpp:141-146 | the text between the two quotes after `"detail":`, or empty without the marker; `ReplyFacts.DetailAbsent`, `ReplyFacts.DetailBetweenQuotes`, `ReplyFacts.DetailUnclosed` and `ReplyFacts.DetailUnopened` state every case |
| Reply.QuotedFrom | include/connector.hpp:144-145 | `substr(q1 + 1, q2 - q1 - 1)` with wrapping sizes; `ReplyFacts.QuotedBetween`, `ReplyFacts.QuotedUnclosed` and `ReplyFacts.QuotedFromNpos` state its cases |
| Reply.ArrayText | include/connector.hpp:147-154 | the text between the first `[` after `"data":` and the first `]` after it; `ReplyFacts.ArrayTextPresent` and `ReplyFacts.ArrayTextSpan` state when it exists and what it is |
| Reply.Fields | include/connector.hpp:161-163 | the fields `getline` yields; `RecordFacts.FieldsHaveNoComma` and `RecordFacts.FieldsOfJoin` state their properties |
| Reply.ParseField | include/connector.hpp:165-171 | the key and value of one field; `ReplyFacts.FieldBetweenQuotes` and `ReplyFacts.UnquotedField` state its cases |
| Reply.FieldFrom | include/connector.hpp:165-168 | the key between the first two quotes, then the value after the colon; `ReplyFacts.KeyBetween` states it by position |
| Reply.ValueAfter | include/connector.hpp:168-171 | the value between the two quotes after the colon; `ReplyFacts.ValueBetween` states it by position |
| Reply.Collect | include/connector.hpp:172 | `rec[key] = val` for each pair in turn; `RecordFacts.CollectKeys` and `RecordFacts.CollectLastWins` state its keys and values |
| Reply.RecordOf | include/connector.hpp:159-173 | the empty span gives the empty record; `RecordFacts.RecordOfObjectText` states what a span of pairs gives |
| Reply.Records | include/connector.hpp:174 | one record per span, as many as there are spans |
| Reply.Spans | include/connector.hpp:155-176 | the record loop as written, defined only where every `{` is closed; `RecordFacts.SpansAgree` ties it to the repaired loop, and `RecordFacts.HangWitness` shows the case it leaves out |
| Reply.Data | include/connector.hpp:147-177 | the records of the loop as written |
| Reply.Parse | include/connector.hpp:130-180 | parseJson as written, on the replies where it returns; the as-written half of the finding, tied to `Reply.ParseCorrected` by `RecordFacts.ParseAgrees` |
| Reply.ClosedSpans | include/connector.hpp:155-176 | the repaired record loop, which stops at an unclosed `{`; `RecordFacts.ClosedSpansHaveNoClose` and `RecordFacts.ClosedSpansOfArrayBody` state its results |
| Reply.ParseCorrected | include/connector.hpp:130-180 | parseJson with the repaired loop, defined on every reply; `Reply.ParseJson` computes it and `ReplyText.ReplyRoundTrip` states what it reads back |
| Reply.FieldEnd | include/connector.hpp:163 | a field ends at the next comma, or at the end of the span, and holds no comma |
| Reply.RecordsSnoc | include/connector.hpp:174 | `push_back` appends the span's record to the records of the earlier spans |
| ReplyFacts.SliceSpan | include/connector.hpp:133-136 | with `{` first at `b` and `}` last at `e`, the slice is `j[b..e + 1]`, braces included |
| ReplyFacts.SuccessMissing | include/connector.hpp:137-138 | "Missing success" exactly when the marker occurs nowhere in the slice |
| ReplyFacts.SuccessValue | include/connector.hpp:137-140 | `success` is true exactly when the text after the first marker, up to the next `,` or `}`, is `true` |
| ReplyFacts.FlagBetween | include/connector.hpp:139-140 | the flag compares the text up to the next `,` or `}` with `true` |
| ReplyFacts.SpacedTrueReadsFalse | include/connector.hpp:137-140 | `"success": true`, with a space, reads as false |
| ReplyFacts.QuotedBetween | include/connector.hpp:144-145 | with a closing quote, the text strictly between the two quotes |
| ReplyFacts.QuotedUnclosed | include/connector.hpp:144-145 | with no closing quote, the wrapped count takes everything after the opening quote |
| ReplyFacts.QuotedFromNpos | include/connector.hpp:144-145 | from npos, `q1 + 1` wraps to 0: the text before the first quote |
| ReplyFacts.DetailAbsent | include/connector.hpp:141-142 | without the marker, `detail` stays empty |
| ReplyFacts.DetailBetweenQuotes | include/connector.hpp:141-146 | with the marker, `detail` is the quote-free text between the next two quotes |
| ReplyFacts.DetailUnclosed | include/connector.hpp:144-145 | an opening quote with no closing one: `detail` is the rest of the slice |
| ReplyFacts.DetailUnopened | include/connector.hpp:144-145 | no quote after the marker: `detail` is the text before the slice's first quote |
| ReplyFacts.ArrayTextPresent | include/connector.hpp:147-152 | there is an array exactly when the marker occurs and a `[` at or after it is followed by a `]` |
| ReplyFacts.ArrayTextSpan | include/connector.hpp:147-154 | the array text runs from the first `[` after the marker to the first `]` after it, and holds no `]` |
| ReplyFacts.FieldBetweenQuotes | include/connector.hpp:165-171 | a field with its four quotes and colon reads as the key and value between them |
| ReplyFacts.KeyBetween | include/connector.hpp:165-168 | the key is the text between the first two quotes, and the value is read after the colon that follows |
| ReplyFacts.ValueBetween | include/connector.hpp:169-171 | the value is the text between the first two quotes after the colon |
| ReplyFacts.UnquotedField | include/connector.hpp:165-171 | a field without quotes reads as itself for both key and value, through npos wrap-around |
| ReplyFacts.FieldRoundTrip | include/connector.hpp:165-171 | a `"key":"value"` field reads back as its key and value |
| RecordFacts.CollectKeys | include/connector.hpp:172 | a key is in the record exactly when some field of the span has it |
| RecordFacts.CollectLastWins | include/connector.hpp:172 | a key maps to the value of its last field: a later duplicate overwrites |
| RecordFacts.FieldsHaveNoComma | include/connector.hpp:163 | no field getline yields holds a comma |
| RecordFacts.FieldsOfJoin | include/connector.hpp:163 | splitting comma-free fields joined with commas gives the fields back |
| RecordFacts.RecordOfObjectText | include/connector.hpp:159-173 | a span written from quote- and comma-free pairs reads as those pairs, the last one winning for a repeated key |
| RecordFacts.ClosedSpansOfArrayBody | include/connector.hpp:155-176 | `{o1},{o2},...` with brace-free spans is visited as `o1, o2, ...`, in order |
| RecordFacts.ClosedSpansHaveNoClose | include/connector.hpp:158-159 | no visited span holds a `}` |
| RecordFacts.UnclosedOpenRestarts | include/connector.hpp:175 | as written, a `{` with no later `}` sets `pos` to 0, where the loop condition holds again |
| RecordFacts.HangWitness | include/connector.hpp:156-175 | on the array text `{` the loop as written returns to position 0 on every turn |
| RecordFacts.HangReply | include/connector.hpp:130-175 | the reply `{"data":[{],"success":true}` passes the slice and the success check, has the array text `{`, and parseJson as written never returns normally on it |
| RecordFacts.SpansAgree | include/connector.hpp:155-176 | where every `{` is closed, the loop as written and the repaired loop visit the same spans |
| RecordFacts.ParseAgrees | include/connector.hpp:130-180 | wherever parseJson as written returns, the repaired parser returns the same result |
| ReplyText.ReplySlice | include/connector.hpp:133-136 | a reply in the format the decoder looks for is its own outermost brace span: the first `{` opens it and the last `}` closes it |
| ReplyText.ReplySuccess | include/connector.hpp:137-140 | the success flag read back is the flag written |
| ReplyText.DetailMarkerFirst | include/connector.hpp:141 | the detail marker first occurs just after the success field |
| ReplyText.ReplyDetail | include/connector.hpp:141-146 | a detail without a quote reads back unchanged |
| ReplyText.DataMarkerFirst | include/connector.hpp:147 | with a quote-free detail, the data marker first occurs just after the detail's closing quote |
| ReplyText.ReplyArray | include/connector.hpp:147-154 | the array text read back is exactly the written `{o1},{o2},...` body |
| ReplyText.ArrayAfterMarker | include/connector.hpp:147-154 | the first data marker, then `[`, a body without `]`, then `]`: the array text is that body |
| ReplyText.ParseRoundTrip | include/connector.hpp:130-180 | parseJson as written returns on a written reply (brace-free objects keep every `{` closed) and yields that flag, that detail and one record per object, in order |
| ReplyText.ReplyTerminatesOn | include/connector.hpp:155-176 | on a written reply the slice and success checks pass and the record loop as written ends |
| ReplyText.ArrayBodyClosed | include/connector.hpp:156-158 | in `{o1},{o2},...` with brace-free spans, every `{` has a later `}` |
| ReplyText.ReplyRoundTrip | include/connector.hpp:130-180 | a reply written from a flag, a quote-free detail and brace-free objects parses to that flag, that detail and one record per object, in order |
| Connector.Answer | include/connector.hpp:125-128 | still waiting on an empty mailbox, else the parse of its text; `Connector.DBConnector.Await` computes it |
| Connector.CText | include/client.hpp:155-160 | the delivered text is the chunk up to its first NUL, and holds no NUL |
| Connector.DBConnector.constructor | include/connector.hpp:24-31 | a new connector has an empty mailbox and has sent nothing |
| Connector.DBConnector.Deliver | include/connector.hpp:26-30 | the callback replaces the mailbox with the received text and sends nothing |
| Connector.DBConnector.Send | include/connector.hpp:120-124 | sendCommand empties the mailbox, then hands the command to the client |
| Connector.DBConnector.Await | include/connector.hpp:125-128 | it waits exactly while the mailbox is empty, then returns the parse of the mailbox, which it leaves in place |
| Connector.DBConnector.SendCommand | include/connector.hpp:118-129 | one command is sent, and the answer is the parse of the reply's text, or still waiting when that text is empty |
| Connector.DBConnector.Query | include/connector.hpp:45-48 | the query is sent as given, without validation |
| Connector.DBConnector.Cmd | include/connector.hpp:49-52 | the command is sent as given, without validation |
| Connector.DBConnector.Get | include/connector.hpp:53-56 | `GET <table> <key>` is sent, without validation |
| Connector.DBConnector.Remove | include/connector.hpp:105-110 | `DELETE <table> <key>` is sent, without validation |
| Connector.DBConnector.Create | include/connector.hpp:57-68 | an invalid kind throws `Invalid column type: <kind>` before anything is sent; otherwise the create text is sent |
| Connector.DBConnector.Insert | include/connector.hpp:69-86 | an invalid kind throws before anything is sent; otherwise the insert text is sent |
| Connector.DBConnector.Update | include/connector.hpp:87-104 | an invalid kind throws before anything is sent; otherwise the update text is sent |
| Connector.StaleReplyDiscarded | include/connector.hpp:120-127 | a reply delivered before the send is discarded, so the wait goes on |
| Connector.LastDeliveryWins | include/connector.hpp:26-30 | of two replies delivered after the send, the wait sees only the second |
| Connector.ReplyNotConsumed | include/connector.hpp:125-128 | reading the mailbox does not empty it: a second wait gives the same answer |
| Connector.NulChunkKeepsWaiting | include/connector.hpp:126-127 | a chunk that starts with NUL leaves the mailbox empty, so the wait goes on |

## Left out

- The socket client (include/client.hpp, client.cpp) is not part of this model. Its `send` is the `sent` list, and one `recv` is `Deliver`, whose text is cut at the first NUL.
- `Connector.MAX_CHUNK` and `Connector.CText` count `char`s where `recv` counts bytes. One `char` stands for one byte, and multi-byte encodings are not modelled.
- `connect`, `disconnect` and the destructor only call into the client, so they are left out.
- The constructor ignores its `host` and `port` arguments: it never reads them and `client_` is default-constructed. They are left out.
- The client's `Not connected` and `Send failed` exceptions are left out. They come from code outside this model.
- The mutex and the condition variable are left out. The model is sequential, and `Await` returning `Blocked` stands for the thread still waiting.
- A reply that arrives between the clear and the send is not modelled. Neither is one that arrives after the wait ends.
- `Record` is an `unordered_map`, modelled as a `map`. Iteration order is not modelled.
- `Connector.DBConnector.Await` parses with the repaired record loop. Where the loop as written ends, the two agree (`RecordFacts.ParseAgrees`). Where it does not end, the source never returns normally (see Findings).
- `Reply.ScanArray` and `Reply.ReadRecord` state their results through the step functions. They do not model `std::istringstream` buffering.
- `Decimal` covers only the decimal text of `int64_t` and `int`, not stream formatting flags.

## Findings

| source | as written | input that shows it | evidently intended | confidence | as-written member | corrected member |
|---|---|---|---|---|---|---|
| include/connector.hpp:175 | after a `{` with no later `}`, `end` is npos and `pos = end + 1` wraps to 0. The loop then finds the same `{` again on every turn, so parseJson never returns normally. | the reply `{"data":[{],"success":true}`, whose array text is `{` | stop the record loop at a `{` that has no closing `}` | not executed | RecordFacts.HangReply | Reply.ScanArray |
