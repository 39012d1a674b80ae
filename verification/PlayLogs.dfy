/**
 The table of finished plays, kept until the server has answered for each of them. Rows are sent in batches and sent
 again when no answer came; they are never removed and what they record never changes.
 */
module PlayLogs {
  import opened Wrappers

  const RESEND_AFTER := 120
  const BATCH := 500

  datatype Status = Completed | Dismissed | Interrupted | Error

  /** One finished play. `play` is its number among all starts, which the program does not have. */
  datatype Record = Record(
    play: nat, ad: string, placement: string, status: Status, started: int, ended: int, proof: Option<nat>)

  datatype Upload = Waiting | Stored | Refused

  datatype Row = Row(id: nat, record: Record, upload: Upload, sentAt: Option<int>)

  /** Ids are handed out in order. */
  ghost predicate Numbered(table: seq<Row>) {
    forall i | 0 <= i < |table| :: table[i].id == i + 1
  }

  function Records(table: seq<Row>): (r: seq<Record>)
    ensures |r| == |table| && forall i | 0 <= i < |r| :: r[i] == table[i].record
  {
    seq(|table|, i requires 0 <= i < |table| => table[i].record)
  }

  function Added(table: seq<Row>, record: Record): seq<Row> {
    table + [Row(|table| + 1, record, Waiting, None)]
  }

  predicate IsDue(r: Row, now: int) {
    r.upload == Waiting && (r.sentAt.None? || r.sentAt.value < now - RESEND_AFTER)
  }

  /** `due_for_upload`: at most `limit` rows in order of their ids ... */
  function Batch(table: seq<Row>, now: int, limit: nat): seq<Row> {
    if table == [] || limit == 0 then []
    else if IsDue(table[0], now) then [table[0]] + Batch(table[1..], now, limit - 1)
    else Batch(table[1..], now, limit)
  }

  /** ... which count as sent from now on. */
  function Marked(table: seq<Row>, now: int, limit: nat): (r: seq<Row>)
    ensures |r| == |table|
  {
    if table == [] || limit == 0 then table
    else if IsDue(table[0], now) then [table[0].(sentAt := Some(now))] + Marked(table[1..], now, limit - 1)
    else [table[0]] + Marked(table[1..], now, limit)
  }

  /** An id both stored and refused counts as refused. */
  function Answered(r: Row, stored: set<nat>, refused: set<nat>): Row {
    if r.id in refused then r.(upload := Refused) else if r.id in stored then r.(upload := Stored) else r
  }

  function Acknowledged(table: seq<Row>, stored: set<nat>, refused: set<nat>): (r: seq<Row>)
    ensures |r| == |table| && forall i | 0 <= i < |r| :: r[i] == Answered(table[i], stored, refused)
  {
    seq(|table|, i requires 0 <= i < |table| => Answered(table[i], stored, refused))
  }

  function Forgotten(r: Row): Row {
    if r.upload == Waiting then r.(sentAt := None) else r
  }

  function Unsent(table: seq<Row>): (r: seq<Row>)
    ensures |r| == |table| && forall i | 0 <= i < |r| :: r[i] == Forgotten(table[i])
  {
    seq(|table|, i requires 0 <= i < |table| => Forgotten(table[i]))
  }

  /** `played_since` */
  predicate PlayedSince(records: seq<Record>, ad: string, since: int) {
    exists i :: 0 <= i < |records| && records[i].ad == ad && records[i].started >= since
  }

  // ------------------------------------------------------------------------ batches

  /** All rows that are due, in order. */
  function Due(table: seq<Row>, now: int): seq<Row> {
    if table == [] then []
    else (if IsDue(table[0], now) then [table[0]] else []) + Due(table[1..], now)
  }

  function Min(a: nat, b: nat): nat { if a < b then a else b }

  lemma TakeCons<T>(x: T, rest: seq<T>, n: nat)
    requires n <= |rest|
    ensures ([x] + rest)[..n + 1] == [x] + rest[..n] && ([x] + rest)[n + 1..] == rest[n..]
  {
  }

  lemma DueCons(r: Row, rest: seq<Row>, now: int)
    ensures Due([r] + rest, now) == if IsDue(r, now) then [r] + Due(rest, now) else Due(rest, now)
  {
    assert ([r] + rest)[1..] == rest && [] + Due(rest, now) == Due(rest, now);
  }

  lemma BatchCons(r: Row, rest: seq<Row>, now: int, limit: nat)
    requires limit > 0
    ensures IsDue(r, now) ==>
              Batch([r] + rest, now, limit) == [r] + Batch(rest, now, limit - 1)
              && Marked([r] + rest, now, limit) == [r.(sentAt := Some(now))] + Marked(rest, now, limit - 1)
    ensures !IsDue(r, now) ==>
              Batch([r] + rest, now, limit) == Batch(rest, now, limit)
              && Marked([r] + rest, now, limit) == [r] + Marked(rest, now, limit)
  {
    assert ([r] + rest)[1..] == rest;
  }

  /** A batch is the first due rows, and those are then exactly the ones no longer due. */
  lemma {:induction false} BatchIsTheFirstDue(table: seq<Row>, now: int, limit: nat)
    ensures var n := Min(limit, |Due(table, now)|);
            && Batch(table, now, limit) == Due(table, now)[..n]
            && Due(Marked(table, now, limit), now) == Due(table, now)[n..]
  {
    hide Due, Batch, Marked, IsDue;
    if table == [] || limit == 0 {
      NothingIsSent(table, now, limit);
    } else {
      var r, rest := table[0], table[1..];
      assert table == [r] + rest;
      SentIsNotDue(r, now);
      BatchCons(r, rest, now, limit);
      DueCons(r, rest, now);
      if IsDue(r, now) {
        BatchIsTheFirstDue(rest, now, limit - 1);
        TakeCons(r, Due(rest, now), Min(limit - 1, |Due(rest, now)|));
        DueCons(r.(sentAt := Some(now)), Marked(rest, now, limit - 1), now);
      } else {
        BatchIsTheFirstDue(rest, now, limit);
        DueCons(r, Marked(rest, now, limit), now);
      }
    }
  }

  lemma NothingIsSent(table: seq<Row>, now: int, limit: nat)
    requires table == [] || limit == 0
    ensures Batch(table, now, limit) == [] && Marked(table, now, limit) == table
    ensures Min(limit, |Due(table, now)|) == 0
  {
  }

  lemma SentIsNotDue(r: Row, now: int)
    ensures !IsDue(r.(sentAt := Some(now)), now)
  {
  }

  /** What k batches in a row send. */
  function Batches(table: seq<Row>, now: int, limit: nat, k: nat): seq<Row>
    decreases k
  {
    if k == 0 then [] else Batch(table, now, limit) + Batches(Marked(table, now, limit), now, limit, k - 1)
  }

  /** Batch after batch, every due row is sent exactly once, in order. */
  lemma {:induction false} BatchesSendEachOnce(table: seq<Row>, now: int, limit: nat, k: nat)
    ensures Batches(table, now, limit, k) == Due(table, now)[..Min(k * limit, |Due(table, now)|)]
    decreases k
  {
    var due := Due(table, now);
    if k == 0 {
    } else {
      var n := Min(limit, |due|);
      BatchIsTheFirstDue(table, now, limit);
      BatchesSendEachOnce(Marked(table, now, limit), now, limit, k - 1);
      assert k * limit == (k - 1) * limit + limit;
      var more := Min((k - 1) * limit, |due[n..]|);
      assert due[..n] + due[n..][..more] == due[..n + more];
    }
  }

  lemma {:induction false} WaitingIsDue(table: seq<Row>, now: int)
    requires forall i | 0 <= i < |table| :: table[i].upload == Waiting ==> table[i].sentAt.None?
    ensures forall i | 0 <= i < |table| && table[i].upload == Waiting :: table[i] in Due(table, now)
  {
    if table == [] {
    } else {
      WaitingIsDue(table[1..], now);
    }
  }

  /** After a reconnect enough batches send everything the server has not answered for. */
  lemma ReconnectSendsEverything(table: seq<Row>, now: int, limit: nat, k: nat, i: nat)
    requires i < |table| && table[i].upload == Waiting && |Due(Unsent(table), now)| <= k * limit
    ensures Unsent(table)[i] in Batches(Unsent(table), now, limit, k)
    ensures Unsent(table)[i].record == table[i].record && Unsent(table)[i].id == table[i].id
  {
    WaitingIsDue(Unsent(table), now);
    BatchesSendEachOnce(Unsent(table), now, limit, k);
    var due := Due(Unsent(table), now);
    assert due[..|due|] == due;
  }

  // --------------------------------------------------------------------- whole runs

  datatype Sending = Sending(id: nat, at: int)

  datatype Office = Office(table: seq<Row>, sendings: seq<Sending>)

  datatype Op =
    | Add(record: Record)
    | Send(now: int, limit: nat)
    | Acknowledge(stored: set<nat>, refused: set<nat>)
    | MarkUnsent

  function SendingsOf(batch: seq<Row>, now: int): (r: seq<Sending>)
    ensures |r| == |batch| && forall i | 0 <= i < |r| :: r[i] == Sending(batch[i].id, now)
  {
    seq(|batch|, i requires 0 <= i < |batch| => Sending(batch[i].id, now))
  }

  function Do(s: Office, op: Op): Office {
    match op
    case Add(record) => s.(table := Added(s.table, record))
    case Send(now, limit) =>
      Office(Marked(s.table, now, limit), s.sendings + SendingsOf(Batch(s.table, now, limit), now))
    case Acknowledge(stored, refused) => s.(table := Acknowledged(s.table, stored, refused))
    case MarkUnsent => s.(table := Unsent(s.table))
  }

  function AfterOps(s: Office, ops: seq<Op>): Office
    decreases |ops|
  {
    if ops == [] then s else AfterOps(Do(s, ops[0]), ops[1..])
  }

  /** Row i of the table in b is row i of the table in a: the same play, answered for if it was. */
  ghost predicate SameRow(a: Row, b: Row) {
    b.id == a.id && b.record == a.record && (a.upload != Waiting ==> b.upload != Waiting)
  }

  ghost predicate Extends(a: seq<Row>, b: seq<Row>) {
    |a| <= |b| && forall i | 0 <= i < |a| :: SameRow(a[i], b[i])
  }

  ghost predicate Increasing(table: seq<Row>) {
    forall i, j | 0 <= i < j < |table| :: table[i].id < table[j].id
  }

  /** The batch holds due rows, each once. */
  lemma {:induction false} BatchIsDue(table: seq<Row>, now: int, limit: nat)
    requires Increasing(table)
    ensures forall r | r in Batch(table, now, limit) :: r in table && IsDue(r, now)
    ensures Increasing(Batch(table, now, limit))
  {
    if table != [] && limit != 0 {
      var left := if IsDue(table[0], now) then limit - 1 else limit;
      BatchIsDue(table[1..], now, left);
      var rest := Batch(table[1..], now, left);
      forall k | 0 <= k < |rest|
        ensures table[0].id < rest[k].id
      {
        assert rest[k] in rest;
      }
    }
  }

  ghost function MarkedRow(r: Row, batch: seq<Row>, now: int): Row {
    if r in batch then r.(sentAt := Some(now)) else r
  }

  /** Sending changes nothing but when the rows of the batch were sent. */
  lemma {:induction false} MarkedExactly(table: seq<Row>, now: int, limit: nat)
    requires Increasing(table)
    ensures forall i | 0 <= i < |table| ::
              Marked(table, now, limit)[i] == MarkedRow(table[i], Batch(table, now, limit), now)
  {
    hide Increasing;
    if table != [] && limit != 0 {
      var left := if IsDue(table[0], now) then limit - 1 else limit;
      var batch, rest := Batch(table, now, limit), Batch(table[1..], now, left);
      HeadIsNotInTheRest(table, now, left);
      MarkedExactly(table[1..], now, left);
      forall i | 0 <= i < |table|
        ensures Marked(table, now, limit)[i] == MarkedRow(table[i], batch, now)
      {
        if i > 0 {
          assert Marked(table, now, limit)[i] == Marked(table[1..], now, left)[i - 1];
          assert table[1..][i - 1] == table[i];
          assert table[i] in batch <==> table[i] in rest by { assert table[i] != table[0]; }
        }
      }
    }
  }

  lemma HeadIsNotInTheRest(table: seq<Row>, now: int, left: nat)
    requires Increasing(table) && table != []
    ensures Increasing(table[1..]) && table[0] !in Batch(table[1..], now, left)
    ensures forall i | 0 < i < |table| :: table[i] != table[0]
  {
    BatchIsDue(table[1..], now, left);
  }

  lemma {:induction false} OpExtends(s: Office, op: Op)
    requires Numbered(s.table)
    ensures Numbered(Do(s, op).table) && Extends(s.table, Do(s, op).table) && s.sendings <= Do(s, op).sendings
  {
    hide Batch, Marked;
    if op.Send? {
      MarkedExactly(s.table, op.now, op.limit);
    }
  }

  /** Nothing is lost: whatever happens, a row stays where it is with the same record, and stays answered. */
  lemma {:induction false} NothingIsLost(s: Office, ops: seq<Op>)
    requires Numbered(s.table)
    ensures Numbered(AfterOps(s, ops).table) && Extends(s.table, AfterOps(s, ops).table)
    ensures s.sendings <= AfterOps(s, ops).sendings
    decreases |ops|
  {
    hide Do;
    if ops == [] {
    } else {
      OpExtends(s, ops[0]);
      NothingIsLost(Do(s, ops[0]), ops[1..]);
    }
  }

  /** A play the server has answered for is never sent again. */
  lemma {:induction false} AnsweredIsFinal(s: Office, ops: seq<Op>, i: nat)
    requires Numbered(s.table) && i < |s.table| && s.table[i].upload != Waiting
    ensures var r := AfterOps(s, ops);
            forall k | |s.sendings| <= k < |r.sendings| :: r.sendings[k].id != s.table[i].id
    decreases |ops|
  {
    hide Marked, Batch;
    if ops == [] {
    } else {
      var s1 := Do(s, ops[0]);
      OpExtends(s, ops[0]);
      if ops[0].Send? {
        var batch := Batch(s.table, ops[0].now, ops[0].limit);
        BatchIsDue(s.table, ops[0].now, ops[0].limit);
        forall k | 0 <= k < |batch|
          ensures batch[k].id != s.table[i].id
        {
          assert batch[k] in batch && batch[k] in s.table && IsDue(batch[k], ops[0].now);
        }
      }
      AnsweredIsFinal(s1, ops[1..], i);
      NothingIsLost(s1, ops[1..]);
    }
  }

  /** Two sendings of one play are more than two minutes apart ... */
  ghost predicate Spaced(s: Office) {
    && Numbered(s.table)
    && (forall k | 0 <= k < |s.sendings| :: KnownSending(s.table, s.sendings[k]))
    && forall j, k | 0 <= j < k < |s.sendings| && s.sendings[j].id == s.sendings[k].id ::
         s.sendings[k].at > s.sendings[j].at + 120
  }

  ghost predicate KnownSending(table: seq<Row>, x: Sending) {
    && 1 <= x.id <= |table|
    && table[x.id - 1].sentAt.Some? && x.at <= table[x.id - 1].sentAt.value
  }

  lemma SendingsStayKnown(s: Office, now: int, limit: nat, k: nat)
    requires Spaced(s) && k < |Do(s, Send(now, limit)).sendings|
    ensures var r := Do(s, Send(now, limit)); Numbered(r.table) && KnownSending(r.table, r.sendings[k])
  {
    hide Batch, Marked;
    var r := Do(s, Send(now, limit));
    var batch := Batch(s.table, now, limit);
    MarkedExactly(s.table, now, limit);
    OpExtends(s, Send(now, limit));
    BatchIsDue(s.table, now, limit);
    if k < |s.sendings| {
      assert KnownSending(s.table, s.sendings[k]);
      var row := s.table[s.sendings[k].id - 1];
      assert row in batch ==> IsDue(row, now);
    } else {
      var row := batch[k - |s.sendings|];
      assert row in batch && row in s.table && r.sendings[k] == Sending(row.id, now);
      assert s.table[row.id - 1] == row;
    }
  }

  lemma SendingsStayApart(s: Office, now: int, limit: nat, j: nat, k: nat)
    requires Spaced(s) && j < k < |Do(s, Send(now, limit)).sendings|
    requires Do(s, Send(now, limit)).sendings[j].id == Do(s, Send(now, limit)).sendings[k].id
    ensures Do(s, Send(now, limit)).sendings[k].at > Do(s, Send(now, limit)).sendings[j].at + 120
  {
    hide Batch, Marked;
    var batch := Batch(s.table, now, limit);
    BatchIsDue(s.table, now, limit);
    if k >= |s.sendings| {
      var row := batch[k - |s.sendings|];
      assert row in batch && row in s.table && IsDue(row, now);
      assert s.table[row.id - 1] == row;
      if j < |s.sendings| {
        assert KnownSending(s.table, s.sendings[j]);
      }
    }
  }

  lemma SendStaysSpaced(s: Office, now: int, limit: nat)
    requires Spaced(s)
    ensures Spaced(Do(s, Send(now, limit)))
  {
    hide Do, KnownSending, Numbered;
    var r := Do(s, Send(now, limit));
    forall k | 0 <= k < |r.sendings|
      ensures KnownSending(r.table, r.sendings[k])
    {
      SendingsStayKnown(s, now, limit, k);
    }
    forall j, k | 0 <= j < k < |r.sendings| && r.sendings[j].id == r.sendings[k].id
      ensures r.sendings[k].at > r.sendings[j].at + 120
    {
      SendingsStayApart(s, now, limit, j, k);
    }
    OpExtends(s, Send(now, limit));
  }

  /** ... in every run without a reconnect in between. */
  lemma {:induction false} ResendingIsSpaced(s: Office, ops: seq<Op>)
    requires Spaced(s) && MarkUnsent !in ops
    ensures Spaced(AfterOps(s, ops))
    decreases |ops|
  {
    hide Batch, Marked;
    if ops == [] {
    } else {
      assert ops[0] in ops;
      if ops[0].Send? {
        SendStaysSpaced(s, ops[0].now, ops[0].limit);
      } else {
        OpExtends(s, ops[0]);
        var r := Do(s, ops[0]);
        forall k | 0 <= k < |r.sendings|
          ensures KnownSending(r.table, r.sendings[k])
        {
          assert KnownSending(s.table, s.sendings[k]);
        }
      }
      ResendingIsSpaced(Do(s, ops[0]), ops[1..]);
    }
  }

  // --------------------------------------------------------------- the life of an added play

  const EMPTY := Office([], [])

  /** The plays added by these operations, in order. */
  function Plays(ops: seq<Op>): seq<Record> {
    if ops == [] then []
    else Plays(ops[..|ops| - 1]) + match ops[|ops| - 1] case Add(record) => [record] case _ => []
  }

  /** What the server has answered for the play with this id: its last answer after the play was added counts. */
  function AnswerFor(ops: seq<Op>, id: nat): Upload {
    if ops == [] then Waiting
    else
      var before := ops[..|ops| - 1];
      match ops[|ops| - 1]
      case Acknowledge(stored, refused) =>
        if id > |Plays(before)| then Waiting
        else if id in refused then Refused
        else if id in stored then Stored
        else AnswerFor(before, id)
      case _ => AnswerFor(before, id)
  }

  /** The table is the plays added so far, numbered from 1, each with the server's answer for it, or to be sent. */
  ghost predicate TellsAll(s: Office, ops: seq<Op>) {
    && Numbered(s.table) && |s.table| == |Plays(ops)|
    && forall i | 0 <= i < |s.table| ::
         && s.table[i].record == Plays(ops)[i] && s.table[i].upload == AnswerFor(ops, i + 1)
         && (s.table[i].sentAt.Some? ==> WasSent(s, i + 1, s.table[i].sentAt.value))
  }

  ghost predicate WasSent(s: Office, id: nat, at: int) {
    Sending(id, at) in s.sendings
  }

  ghost predicate NamesLater(ops: seq<Op>) {
    forall id | id > |Plays(ops)| :: AnswerFor(ops, id) == Waiting
  }

  lemma {:induction false} NobodyAnswersEarly(ops: seq<Op>)
    ensures NamesLater(ops)
    decreases |ops|
  {
    if ops == [] {
    } else {
      NobodyAnswersEarly(ops[..|ops| - 1]);
    }
  }

  lemma {:induction false} OneMoreStep(s: Office, ops: seq<Op>, last: Op)
    ensures AfterOps(s, ops + [last]) == Do(AfterOps(s, ops), last)
    decreases |ops|
  {
    hide Do;
    if ops == [] {
      assert ops + [last] == [last] && [last][1..] == [];
    } else {
      assert (ops + [last])[1..] == ops[1..] + [last];
      OneMoreStep(Do(s, ops[0]), ops[1..], last);
    }
  }

  lemma SentIsKnown(s: Office, now: int, limit: nat, i: nat)
    requires Numbered(s.table) && i < |s.table|
    requires s.table[i].sentAt.Some? ==> WasSent(s, i + 1, s.table[i].sentAt.value)
    ensures var r := Do(s, Send(now, limit));
            r.table[i].record == s.table[i].record && r.table[i].upload == s.table[i].upload
            && (r.table[i].sentAt.Some? ==> WasSent(r, i + 1, r.table[i].sentAt.value))
  {
    hide Batch, Marked;
    var r := Do(s, Send(now, limit));
    var batch := Batch(s.table, now, limit);
    MarkedExactly(s.table, now, limit);
    if s.table[i] in batch {
      var k :| 0 <= k < |batch| && batch[k] == s.table[i];
      assert r.sendings[|s.sendings| + k] == Sending(i + 1, now);
    }
  }

  lemma {:induction false} StepTellsAll(s: Office, before: seq<Op>, op: Op)
    requires TellsAll(s, before)
    ensures TellsAll(Do(s, op), before + [op])
  {
    var ops := before + [op];
    assert ops[..|ops| - 1] == before;
    NobodyAnswersEarly(before);
    hide Batch, Marked, Plays, AnswerFor;
    OneMoreOp(before, op);
    OpExtends(s, op);
    var r := Do(s, op);
    forall i | 0 <= i < |r.table|
      ensures r.table[i].record == Plays(ops)[i] && r.table[i].upload == AnswerFor(ops, i + 1)
      ensures r.table[i].sentAt.Some? ==> WasSent(r, i + 1, r.table[i].sentAt.value)
    {
      if i < |s.table| {
        assert s.table[i].sentAt.Some? ==> WasSent(s, i + 1, s.table[i].sentAt.value);
        if op.Send? {
          SentIsKnown(s, op.now, op.limit, i);
        }
      }
    }
  }

  lemma OneMoreOp(before: seq<Op>, op: Op)
    ensures Plays(before + [op]) == Plays(before) + (if op.Add? then [op.record] else [])
    ensures forall id: nat :: AnswerFor(before + [op], id) ==
              if op.Acknowledge? then
                if id > |Plays(before)| then Waiting
                else if id in op.refused then Refused else if id in op.stored then Stored else AnswerFor(before, id)
              else AnswerFor(before, id)
  {
    var ops := before + [op];
    assert ops[..|ops| - 1] == before;
  }

  /** In every run: what was added is in the table, to be sent until the server has answered for it, and only then not. */
  lemma {:induction false} EveryAddedPlayIsKept(ops: seq<Op>)
    ensures TellsAll(AfterOps(EMPTY, ops), ops)
    decreases |ops|
  {
    hide Do, TellsAll;
    if ops == [] {
      NothingTold();
    } else {
      var n := |ops| - 1;
      EveryAddedPlayIsKept(ops[..n]);
      assert ops[..n] + [ops[n]] == ops;
      StepTellsAll(AfterOps(EMPTY, ops[..n]), ops[..n], ops[n]);
      OneMoreStep(EMPTY, ops[..n], ops[n]);
    }
  }

  lemma NothingTold()
    ensures TellsAll(EMPTY, [])
  {
  }

  /**
   A play is due from the moment it is added until it is sent for the first time, whatever the clock shows, and again when
   it was last sent more than two minutes ago, until the server has answered for it.
   */
  lemma AddedIsDue(ops: seq<Op>, i: nat, now: int)
    requires i < |Plays(ops)| && AnswerFor(ops, i + 1) == Waiting
    requires forall x | x in AfterOps(EMPTY, ops).sendings && x.id == i + 1 :: x.at + 120 < now
    ensures var table := AfterOps(EMPTY, ops).table;
            i < |table| && table[i].record == Plays(ops)[i] && IsDue(table[i], now)
  {
    EveryAddedPlayIsKept(ops);
  }

  /** And after a reconnect enough batches send every added play that the server has not answered for. */
  lemma AddedIsSentAfterReconnect(ops: seq<Op>, i: nat, now: int, limit: nat, k: nat)
    requires i < |Plays(ops)| && AnswerFor(ops, i + 1) == Waiting
    requires |Due(Unsent(AfterOps(EMPTY, ops).table), now)| <= k * limit
    ensures exists r :: r in Batches(Unsent(AfterOps(EMPTY, ops).table), now, limit, k)
                        && r.id == i + 1 && r.record == Plays(ops)[i]
  {
    EveryAddedPlayIsKept(ops);
    ReconnectSendsEverything(AfterOps(EMPTY, ops).table, now, limit, k, i);
  }

  // ---------------------------------------------------------------------- the table

  class PlayLog {
    var table: seq<Row>

    constructor ()
      ensures table == []
    {
      table := [];
    }

    method AddRow(record: Record) returns (id: nat)
      modifies this
      ensures table == Added(old(table), record) && id == |table|
    {
      id := |table| + 1;
      table := table + [Row(id, record, Waiting, None)];
    }

    /** `due_for_upload`: select the rows, then mark them. */
    method DueForUpload(now: int, limit: nat := BATCH) returns (rows: seq<Row>)
      requires Numbered(table)
      modifies this
      ensures rows == Batch(old(table), now, limit) && table == Marked(old(table), now, limit)
    {
      hide Numbered;
      rows := [];
      var marked: seq<Row> := [];
      var i := 0;
      ghost var left: nat := limit;
      while i < |table|
        invariant 0 <= i <= |table| && table == old(table) && left + |rows| == limit
        invariant rows + Batch(table[i..], now, left) == Batch(table, now, limit)
        invariant marked + Marked(table[i..], now, left) == Marked(table, now, limit)
      {
        var r := table[i];
        assert table[i..][0] == r && table[i..][1..] == table[i + 1..];
        if |rows| < limit && IsDue(r, now) {
          Regroup(rows, [r], Batch(table[i + 1..], now, left - 1));
          Regroup(marked, [r.(sentAt := Some(now))], Marked(table[i + 1..], now, left - 1));
          rows := rows + [r];
          marked := marked + [r.(sentAt := Some(now))];
          left := left - 1;
        } else {
          Skipped(table[i..], now, left);
          Regroup(marked, [r], Marked(table[i + 1..], now, left));
          marked := marked + [r];
        }
        i := i + 1;
      }
      table := marked;
    }

    lemma Skipped(rest: seq<Row>, now: int, limit: nat)
      requires rest != [] && (limit == 0 || !IsDue(rest[0], now))
      ensures Batch(rest, now, limit) == Batch(rest[1..], now, limit)
      ensures Marked(rest, now, limit) == [rest[0]] + Marked(rest[1..], now, limit)
    {
    }

    lemma Regroup<T>(a: seq<T>, b: seq<T>, c: seq<T>)
      ensures (a + b) + c == a + (b + c)
    {
    }

    method AcknowledgeRows(stored: set<nat>, refused: set<nat>)
      modifies this
      ensures table == Acknowledged(old(table), stored, refused)
    {
      var i := 0;
      while i < |table|
        invariant 0 <= i <= |table| == |old(table)|
        invariant forall k | 0 <= k < i :: table[k] == Answered(old(table)[k], stored, refused)
        invariant forall k | i <= k < |table| :: table[k] == old(table)[k]
      {
        var r := table[i];
        if r.id in stored { r := r.(upload := Stored); }
        if r.id in refused { r := r.(upload := Refused); }
        table := table[i := r];
        i := i + 1;
      }
    }

    method MarkRowsUnsent()
      modifies this
      ensures table == Unsent(old(table))
    {
      var i := 0;
      while i < |table|
        invariant 0 <= i <= |table| == |old(table)|
        invariant forall k | 0 <= k < i :: table[k] == Forgotten(old(table)[k])
        invariant forall k | i <= k < |table| :: table[k] == old(table)[k]
      {
        if table[i].upload == Waiting {
          table := table[i := table[i].(sentAt := None)];
        }
        i := i + 1;
      }
    }

    method Played(ad: string, since: int) returns (r: bool)
      ensures r == PlayedSince(Records(table), ad, since)
    {
      var i := 0;
      while i < |table|
        invariant 0 <= i <= |table|
        invariant !PlayedSince(Records(table)[..i], ad, since)
      {
        if table[i].record.ad == ad && table[i].record.started >= since {
          assert Records(table)[i] == table[i].record;
          return true;
        }
        i := i + 1;
      }
      assert Records(table)[..i] == Records(table);
      r := false;
    }
  }
}
