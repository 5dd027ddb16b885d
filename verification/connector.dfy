/**
 * DBConnector as a sequential state machine.
 *
 * The connector owns a one-message mailbox, `lastMsg_`. The client's
 * receive thread overwrites it with every chunk it reads; `sendCommand`
 * empties it, hands the command to the client, waits until it is no longer
 * empty and parses what it holds. Here the receive thread's callback is the
 * method `Deliver`, the client's socket is the list `sent` of commands handed
 * to it, and the wait is `Await`, which answers `Blocked` where the source
 * would still be waiting. The public operations take the chunk the server
 * answers with as a parameter and run send, delivery and wait in that order.
 */
module Connector {
  import opened Wrappers
  import opened CppString
  import opened Decimal
  import opened Kinds
  import opened Commands
  import opened Reply

  /** The receive loop reads into a 1024-byte buffer and keeps one byte for the terminating NUL.
      One `char` here stands for one byte. */
  const MAX_CHUNK: nat := 1023

  /** What one call of an operation amounts to. */
  datatype Outcome =
    | InvalidKind(message: string)                    // invalid_argument, thrown before sending
    | Blocked                                         // still waiting: the mailbox is empty
    | Replied(reply: Result<DBResponse, ParseError>)  // the parsed reply, or the runtime_error thrown

  /** `std::string(buf.data())`: the received bytes up to the first NUL. */
  function CText(chunk: string): (r: string)
    ensures '\0' !in r
    ensures r <= chunk
    ensures r < chunk ==> chunk[|r|] == '\0'
    ensures '\0' !in chunk ==> r == chunk
  {
    if chunk == [] || chunk[0] == '\0' then []
    else [chunk[0]] + CText(chunk[1..])
  }

  /** The wait predicate `!lastMsg_.empty()` and the parse that follows it. */
  function Answer(msg: StdString): Outcome
  {
    if msg == "" then Blocked else Replied(ParseCorrected(msg))
  }

  class DBConnector {
    /** The mailbox `lastMsg_`. */
    var lastMsg: StdString
    /** The commands handed to the client, oldest first. */
    var sent: seq<string>

    constructor()
      ensures lastMsg == "" && sent == []
    {
      lastMsg := "";
      sent := [];
    }

    /** The message callback installed by the constructor: the chunk's text replaces the mailbox. */
    method Deliver(chunk: string)
      requires 0 < |chunk| <= MAX_CHUNK
      modifies this
      ensures lastMsg == CText(chunk)
      ensures sent == old(sent)
    {
      lastMsg := CText(chunk);
    }

    /** The first half of sendCommand: empty the mailbox, then hand `cmd` to the client. */
    method Send(cmd: string)
      modifies this
      ensures lastMsg == ""
      ensures sent == old(sent) + [cmd]
    {
      lastMsg := "";
      sent := sent + [cmd];
    }

    /** The second half of sendCommand: wait while the mailbox is empty, then parse it.
        The mailbox is read, not emptied. */
    method Await() returns (o: Outcome)
      ensures o.Blocked? <==> lastMsg == ""
      ensures lastMsg != "" ==> o == Replied(ParseCorrected(lastMsg))
      ensures !o.InvalidKind?
    {
      if lastMsg == "" {
        return Blocked;
      }
      var r := ParseJson(lastMsg);
      return Replied(r);
    }

    /** sendCommand, with `reply` the chunk the server answers with. */
    method SendCommand(cmd: string, reply: string) returns (o: Outcome)
      requires 0 < |reply| <= MAX_CHUNK
      modifies this
      ensures sent == old(sent) + [cmd]
      ensures lastMsg == CText(reply)
      ensures o == Answer(CText(reply))
    {
      Send(cmd);
      Deliver(reply);
      o := Await();
    }

    /** query: the text is sent as given, without validation. */
    method Query(qry: string, reply: string) returns (o: Outcome)
      requires 0 < |reply| <= MAX_CHUNK
      modifies this
      ensures sent == old(sent) + [qry]
      ensures lastMsg == CText(reply)
      ensures o == Answer(CText(reply))
    {
      o := SendCommand(qry, reply);
    }

    /** cmd: the text is sent as given, without validation. */
    method Cmd(c: string, reply: string) returns (o: Outcome)
      requires 0 < |reply| <= MAX_CHUNK
      modifies this
      ensures sent == old(sent) + [c]
      ensures lastMsg == CText(reply)
      ensures o == Answer(CText(reply))
    {
      o := SendCommand(c, reply);
    }

    /** get: `GET <table> <key>`, without validation. */
    method Get(table: string, key: Int64, reply: string) returns (o: Outcome)
      requires 0 < |reply| <= MAX_CHUNK
      modifies this
      ensures sent == old(sent) + [GetText(table, key)]
      ensures lastMsg == CText(reply)
      ensures o == Answer(CText(reply))
    {
      o := SendCommand("GET " + table + " " + ToString(key), reply);
    }

    /** remove: `DELETE <table> <key>`, without validation. */
    method Remove(table: string, key: Int64, reply: string) returns (o: Outcome)
      requires 0 < |reply| <= MAX_CHUNK
      modifies this
      ensures sent == old(sent) + [DeleteText(table, key)]
      ensures lastMsg == CText(reply)
      ensures o == Answer(CText(reply))
    {
      var cmd := "DELETE " + table + " " + ToString(key);
      o := SendCommand(cmd, reply);
    }

    /** create: an invalid kind throws before anything is sent or the mailbox is touched. */
    method Create(table: string, keyCol: Int32, values: seq<ColumnDef>, reply: string) returns (o: Outcome)
      requires 0 < |reply| <= MAX_CHUNK
      modifies this
      ensures FirstInvalid(ColumnKinds(values)).Some? ==>
        o == InvalidKind(InvalidKindMessage(FirstInvalid(ColumnKinds(values)).value))
        && sent == old(sent) && lastMsg == old(lastMsg)
      ensures FirstInvalid(ColumnKinds(values)).None? ==>
        sent == old(sent) + [CreateText(table, keyCol, values)] && lastMsg == CText(reply)
        && o == Answer(CText(reply))
    {
      var bad := ValidateColumnKinds(values);
      if bad.Some? {
        return InvalidKind(InvalidKindMessage(bad.value));
      }
      var cmd := BuildCreate(table, keyCol, values);
      o := SendCommand(cmd, reply);
    }

    /** insert: an invalid kind throws before anything is sent or the mailbox is touched. */
    method Insert(table: string, values: seq<TypedValue>, reply: string) returns (o: Outcome)
      requires 0 < |reply| <= MAX_CHUNK
      modifies this
      ensures FirstInvalid(TypedKinds(values)).Some? ==>
        o == InvalidKind(InvalidKindMessage(FirstInvalid(TypedKinds(values)).value))
        && sent == old(sent) && lastMsg == old(lastMsg)
      ensures FirstInvalid(TypedKinds(values)).None? ==>
        sent == old(sent) + [InsertText(table, values)] && lastMsg == CText(reply)
        && o == Answer(CText(reply))
    {
      var bad := ValidateTypedKinds(values);
      if bad.Some? {
        return InvalidKind(InvalidKindMessage(bad.value));
      }
      var cmd := BuildInsert(table, values);
      o := SendCommand(cmd, reply);
    }

    /** update: an invalid kind throws before anything is sent or the mailbox is touched. */
    method Update(table: string, key: Int64, values: seq<TypedValue>, reply: string) returns (o: Outcome)
      requires 0 < |reply| <= MAX_CHUNK
      modifies this
      ensures FirstInvalid(TypedKinds(values)).Some? ==>
        o == InvalidKind(InvalidKindMessage(FirstInvalid(TypedKinds(values)).value))
        && sent == old(sent) && lastMsg == old(lastMsg)
      ensures FirstInvalid(TypedKinds(values)).None? ==>
        sent == old(sent) + [UpdateText(table, key, values)] && lastMsg == CText(reply)
        && o == Answer(CText(reply))
    {
      var bad := ValidateTypedKinds(values);
      if bad.Some? {
        return InvalidKind(InvalidKindMessage(bad.value));
      }
      var cmd := BuildUpdate(table, key, values);
      o := SendCommand(cmd, reply);
    }
  }

  // ---------------------------------------------------------------------
  // Runs of the mailbox protocol on a fresh connector

  /** A chunk that arrives before the send is thrown away: sendCommand empties the mailbox first. */
  method StaleReplyDiscarded(early: string, cmd: string) returns (o: Outcome)
    requires 0 < |early| <= MAX_CHUNK
    ensures o == Blocked
  {
    var c := new DBConnector();
    c.Deliver(early);
    c.Send(cmd);
    o := c.Await();
  }

  /** Of two chunks delivered after the send, the wait sees only the second. */
  method LastDeliveryWins(cmd: string, first: string, second: string) returns (o: Outcome)
    requires 0 < |first| <= MAX_CHUNK && 0 < |second| <= MAX_CHUNK
    ensures CText(second) == "" ==> o == Blocked
    ensures CText(second) != "" ==> o == Replied(ParseCorrected(CText(second)))
  {
    var c := new DBConnector();
    c.Send(cmd);
    c.Deliver(first);
    c.Deliver(second);
    o := c.Await();
  }

  /** Reading the mailbox does not empty it: a second wait gives the same answer. */
  method ReplyNotConsumed(cmd: string, reply: string) returns (o1: Outcome, o2: Outcome)
    requires 0 < |reply| <= MAX_CHUNK
    ensures o1 == o2
    ensures '\0' !in reply ==> o1 == Replied(ParseCorrected(reply))
  {
    var c := new DBConnector();
    c.Send(cmd);
    c.Deliver(reply);
    o1 := c.Await();
    o2 := c.Await();
  }

  /** A chunk that starts with NUL leaves the mailbox empty: the wait goes on. */
  method NulChunkKeepsWaiting(cmd: string, chunk: string) returns (o: Outcome)
    requires 0 < |chunk| <= MAX_CHUNK && chunk[0] == '\0'
    ensures o == Blocked
  {
    var c := new DBConnector();
    o := c.SendCommand(cmd, chunk);
  }
}
