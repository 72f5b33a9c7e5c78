/** `/api/transactions/:email`: the records of the transaction log in which an
    address is the sender or the recipient, newest first. */
module History {
  import opened Util
  import opened Ledger

  predicate Involves(t: TxRecord, e: Email)
  {
    t.senderEmail == e || t.recipientEmail == e
  }

  /** The `$or` query: the records naming `e` on either side, in log order. */
  function Involving(log: seq<TxRecord>, e: Email): seq<TxRecord>
  {
    Keep(log, (t: TxRecord) => Involves(t, e))
  }

  /** Newest first: timestamps never increase along the sequence. */
  predicate SortedNewestFirst(s: seq<TxRecord>)
  {
    forall i, j :: 0 <= i < j < |s| ==> s[i].timestamp >= s[j].timestamp
  }

  /** Puts `t` in front of the first record that is not newer than it. */
  function Insert(t: TxRecord, s: seq<TxRecord>): (r: seq<TxRecord>)
    requires SortedNewestFirst(s)
    ensures SortedNewestFirst(r)
    ensures multiset(r) == multiset(s) + multiset{t}
    ensures r != [] && (r[0] == t || (s != [] && r[0] == s[0]))
    decreases |s|
  {
    if s == [] || t.timestamp >= s[0].timestamp then
      [t] + s
    else
      var rest := Insert(t, s[1..]);
      assert s == [s[0]] + s[1..];
      [s[0]] + rest
  }

  /** The `sort({timestamp: -1})` stage. */
  function SortNewestFirst(s: seq<TxRecord>): (r: seq<TxRecord>)
    ensures SortedNewestFirst(r)
    ensures multiset(r) == multiset(s)
    decreases |s|
  {
    if s == [] then []
    else
      assert s == [s[0]] + s[1..];
      Insert(s[0], SortNewestFirst(s[1..]))
  }

  /** The history of `e`: exactly the log records naming `e`, with their
      multiplicities, newest first. Records with equal timestamps may come in
      any order the database chooses; this model keeps their log order. */
  function HistoryFor(log: seq<TxRecord>, e: Email): (r: seq<TxRecord>)
    ensures SortedNewestFirst(r)
    ensures forall t :: multiset(r)[t] == (if Involves(t, e) then multiset(log)[t] else 0)
    ensures forall t :: t in r <==> t in log && Involves(t, e)
  {
    var r := SortNewestFirst(Involving(log, e));
    KeepCount(log, (t: TxRecord) => Involves(t, e));
    assert forall t :: t in r <==> multiset(r)[t] > 0;
    r
  }

  /** A successful transfer shows up in the histories of both parties. */
  lemma TransferAppearsInHistories(st: State, s: Email, t: Email, m: int, note: Option<string>, now: int)
    requires Transfer(st, s, t, Some(m), note, now).reply.Done?
    ensures var log' := Transfer(st, s, t, Some(m), note, now).state.log;
            && TxRecord(s, t, m, note, now) in HistoryFor(log', s)
            && TxRecord(s, t, m, note, now) in HistoryFor(log', t)
  {
    var log' := Transfer(st, s, t, Some(m), note, now).state.log;
    assert log'[|log'| - 1] == TxRecord(s, t, m, note, now);
  }

  /** Logging a record that does not name `e` leaves the history of `e` as it was. */
  lemma HistoryUnaffected(log: seq<TxRecord>, rec: TxRecord, e: Email)
    requires !Involves(rec, e)
    ensures HistoryFor(log + [rec], e) == HistoryFor(log, e)
  {
    InvolvingAppend(log, [rec], e);
    assert Involving([rec], e) == [];
    assert Involving(log + [rec], e) == Involving(log, e);
  }

  /** No other party's history changes when a transfer is logged. */
  lemma TransferLeavesOtherHistories(st: State, s: Email, t: Email, m: Option<int>, note: Option<string>,
                                     now: int, e: Email)
    requires e != s && e != t
    ensures HistoryFor(Transfer(st, s, t, m, note, now).state.log, e) == HistoryFor(st.log, e)
  {
    var r := Transfer(st, s, t, m, note, now);
    if r.reply.Done? {
      HistoryUnaffected(st.log, TxRecord(s, t, m.value, note, now), e);
    }
  }

  lemma InvolvingAppend(a: seq<TxRecord>, b: seq<TxRecord>, e: Email)
    ensures Involving(a + b, e) == Involving(a, e) + Involving(b, e)
  {
    KeepAppend(a, b, (t: TxRecord) => Involves(t, e));
  }
}
