/**
 * Concurrent appenders to one job's audit log. Each transaction reads the next link, inserts,
 * and commits or aborts in its own time; only the unique (job, sequence) constraint of
 * `models/audit_entry.py` stands between them.
 */
module ChainAppend {
  import opened Basics
  import opened AuditChain

  type TxnId = nat

  /** A live transaction: the link it has read but not used, and the rows it has inserted but not committed. */
  datatype Txn = Txn(link: Option<(string, int)>, rows: seq<AuditEntry>)

  datatype Database = Database(committed: seq<AuditEntry>, live: map<TxnId, Txn>)

  datatype Action =
    | Begin(txn: TxnId)
    | ReadLink(txn: TxnId)
    | Insert(txn: TxnId, event: AuditEvent, stamp: Stamp)
    | Commit(txn: TxnId)
    | Abort(txn: TxnId)

  predicate HasSequence(rows: seq<AuditEntry>, n: int) {
    exists k :: 0 <= k < |rows| && rows[k].sequence == n
  }

  /** Some other live transaction holds an uncommitted row with this sequence, so an insert has to wait for it. */
  ghost predicate HeldByOther(live: map<TxnId, Txn>, txn: TxnId, n: int) {
    exists u :: u in live && u != txn && HasSequence(live[u].rows, n)
  }

  /** One step. An action that is not possible in a state leaves it as it is. */
  ghost function Step(l: Ledger, s: Database, a: Action): Database {
    match a
    case Begin(t) =>
      if t in s.live then s else s.(live := s.live[t := Txn(None, [])])
    case ReadLink(t) =>
      if t !in s.live || s.live[t].link.Some? then s
      else s.(live := s.live[t := s.live[t].(link := Some(NextChainLink(s.committed + s.live[t].rows)))])
    case Insert(t, event, stamp) =>
      if t !in s.live || s.live[t].link.None? then s
      else
        var link := s.live[t].link.value;
        if HasSequence(s.committed + s.live[t].rows, link.1) then
          s.(live := s.live - {t})
        else if HeldByOther(s.live, t, link.1) then s
        else s.(live := s.live[t := Txn(None, s.live[t].rows + [NewEntry(l, link, event, stamp)])])
    case Commit(t) =>
      if t !in s.live then s else Database(s.committed + s.live[t].rows, s.live - {t})
    case Abort(t) =>
      if t !in s.live then s else s.(live := s.live - {t})
  }

  ghost function Run(l: Ledger, s: Database, actions: seq<Action>): Database {
    if actions == [] then s else Step(l, Run(l, s, actions[..|actions| - 1]), actions[|actions| - 1])
  }

  /** A link that was right when it was read: it points past some prefix of the log it will extend. */
  ghost predicate WasNext(log: seq<AuditEntry>, link: (string, int)) {
    1 <= link.1 <= |log| + 1 && link.0 == Head(log[..link.1 - 1])
  }

  /** What a transaction would make of the log is in good order, and the link it holds was right when read. */
  ghost predicate Sound(l: Ledger, committed: seq<AuditEntry>, txn: Txn) {
    && GoodLog(l, committed + txn.rows)
    && (txn.link.Some? ==> WasNext(committed + txn.rows, txn.link.value))
  }

  /** The committed log is in good order, every live transaction is sound, and at most one of them holds rows. */
  ghost predicate Linear(l: Ledger, s: Database) {
    && GoodLog(l, s.committed)
    && (forall t :: t in s.live ==> Sound(l, s.committed, s.live[t]))
    && (forall t, u :: t in s.live && u in s.live && s.live[t].rows != [] && s.live[u].rows != [] ==> t == u)
  }

  lemma EarlierSequencesAreTaken(l: Ledger, log: seq<AuditEntry>, n: int)
    requires GoodLog(l, log) && 1 <= n <= |log|
    ensures HasSequence(log, n)
  {
    assert log[n - 1].sequence == n;
  }

  lemma LinkIsFresh(l: Ledger, log: seq<AuditEntry>, link: (string, int))
    requires GoodLog(l, log) && WasNext(log, link) && !HasSequence(log, link.1)
    ensures link == (Head(log), |log| + 1)
  {
    if link.1 <= |log| { EarlierSequencesAreTaken(l, log, link.1); }
    assert log[..|log|] == log;
  }

  lemma ReadIsSound(l: Ledger, committed: seq<AuditEntry>, txn: Txn)
    requires Sound(l, committed, txn)
    ensures Sound(l, committed, txn.(link := Some(NextChainLink(committed + txn.rows))))
  {
    var log := committed + txn.rows;
    NextLinkOfGoodLog(l, log);
    assert log[..|log|] == log;
  }

  lemma InsertIsSound(l: Ledger, committed: seq<AuditEntry>, txn: Txn, event: AuditEvent, stamp: Stamp)
    requires Sound(l, committed, txn) && txn.link.Some? && !HasSequence(committed + txn.rows, txn.link.value.1)
    ensures Sound(l, committed, Txn(None, txn.rows + [NewEntry(l, txn.link.value, event, stamp)]))
  {
    var log, e := committed + txn.rows, NewEntry(l, txn.link.value, event, stamp);
    LinkIsFresh(l, log, txn.link.value);
    ExtendGoodLog(l, log, e);
    assert log + [e] == committed + (txn.rows + [e]);
  }

  /** A transaction without rows stays sound when another one commits. */
  lemma OthersStaySound(l: Ledger, committed: seq<AuditEntry>, rows: seq<AuditEntry>, txn: Txn)
    requires Sound(l, committed, txn) && txn.rows == [] && GoodLog(l, committed + rows)
    ensures Sound(l, committed + rows, txn)
  {
    assert committed + txn.rows == committed && committed + rows + txn.rows == committed + rows;
    if txn.link.Some? {
      var k := txn.link.value.1 - 1;
      assert (committed + rows)[..k] == committed[..k];
    }
  }

  /** A second holder's first row would carry the very sequence number the first is about to insert. */
  lemma HolderBlocks(l: Ledger, s: Database, t: TxnId, u: TxnId)
    requires Linear(l, s) && t in s.live && u in s.live && t != u
    requires s.live[t].rows == [] && s.live[u].rows != [] && s.live[t].link.Some?
    requires !HasSequence(s.committed, s.live[t].link.value.1)
    ensures HeldByOther(s.live, t, s.live[t].link.value.1)
  {
    assert s.committed + s.live[t].rows == s.committed;
    LinkIsFresh(l, s.committed, s.live[t].link.value);
    assert (s.committed + s.live[u].rows)[|s.committed|].sequence == |s.committed| + 1;
    assert s.live[u].rows[0].sequence == s.live[t].link.value.1;
  }

  lemma ReplacingKeepsLinear(l: Ledger, s: Database, t: TxnId, txn: Txn)
    requires Linear(l, s) && Sound(l, s.committed, txn)
    requires txn.rows != [] ==> forall u :: u in s.live && s.live[u].rows != [] ==> u == t
    ensures Linear(l, s.(live := s.live[t := txn]))
  {
  }

  lemma InsertKeepsLinear(l: Ledger, s: Database, t: TxnId, event: AuditEvent, stamp: Stamp)
    requires Linear(l, s) && t in s.live && s.live[t].link.Some?
    requires !HasSequence(s.committed + s.live[t].rows, s.live[t].link.value.1)
    requires !HeldByOther(s.live, t, s.live[t].link.value.1)
    ensures var more := s.live[t].rows + [NewEntry(l, s.live[t].link.value, event, stamp)];
            Linear(l, s.(live := s.live[t := Txn(None, more)]))
  {
    InsertIsSound(l, s.committed, s.live[t], event, stamp);
    if s.live[t].rows == [] {
      assert s.committed + s.live[t].rows == s.committed;
      forall u | u in s.live && s.live[u].rows != [] ensures u == t {
        if u != t { HolderBlocks(l, s, t, u); }
      }
    }
    ReplacingKeepsLinear(l, s, t, Txn(None, s.live[t].rows + [NewEntry(l, s.live[t].link.value, event, stamp)]));
  }

  lemma CommitKeepsLinear(l: Ledger, s: Database, t: TxnId)
    requires Linear(l, s)
    ensures Linear(l, Step(l, s, Commit(t)))
  {
    if t in s.live {
      var after := Step(l, s, Commit(t));
      if s.live[t].rows == [] {
        assert after.committed == s.committed;
      } else {
        assert Sound(l, s.committed, s.live[t]);
        forall u | u in after.live ensures Sound(l, after.committed, after.live[u]) {
          OthersStaySound(l, s.committed, s.live[t].rows, s.live[u]);
        }
      }
    }
  }

  lemma StepKeepsLinear(l: Ledger, s: Database, a: Action)
    requires Linear(l, s)
    ensures Linear(l, Step(l, s, a))
    ensures s.committed <= Step(l, s, a).committed
  {
    hide Linear, Sound, HasSequence, HeldByOther, NextChainLink, NewEntry;
    match a
    case Begin(t) => if t !in s.live { BeginKeepsLinear(l, s, t); }
    case ReadLink(t) => if t in s.live && s.live[t].link.None? { ReadKeepsLinear(l, s, t); }
    case Insert(t, event, stamp) =>
      if t in s.live && s.live[t].link.Some? {
        if HasSequence(s.committed + s.live[t].rows, s.live[t].link.value.1) {
          DroppingKeepsLinear(l, s, t);
        } else if !HeldByOther(s.live, t, s.live[t].link.value.1) {
          InsertKeepsLinear(l, s, t, event, stamp);
        }
      }
    case Commit(t) => CommitKeepsLinear(l, s, t);
    case Abort(t) => DroppingKeepsLinear(l, s, t);
  }

  lemma BeginKeepsLinear(l: Ledger, s: Database, t: TxnId)
    requires Linear(l, s) && t !in s.live
    ensures Linear(l, s.(live := s.live[t := Txn(None, [])]))
  {
    assert s.committed + [] == s.committed;
    ReplacingKeepsLinear(l, s, t, Txn(None, []));
  }

  lemma ReadKeepsLinear(l: Ledger, s: Database, t: TxnId)
    requires Linear(l, s) && t in s.live
    ensures var link := Some(NextChainLink(s.committed + s.live[t].rows));
            Linear(l, s.(live := s.live[t := s.live[t].(link := link)]))
  {
    ReadIsSound(l, s.committed, s.live[t]);
    ReplacingKeepsLinear(l, s, t, s.live[t].(link := Some(NextChainLink(s.committed + s.live[t].rows))));
  }

  lemma DroppingKeepsLinear(l: Ledger, s: Database, t: TxnId)
    requires Linear(l, s)
    ensures Linear(l, s.(live := s.live - {t}))
  {
    hide Sound, GoodLog;
  }

  /**
   * Whatever the interleaving of however many transactions, the committed log verifies and its
   * sequence numbers are exactly 1..n.
   */
  lemma {:induction false} EveryRunIsLinear(l: Ledger, s: Database, actions: seq<Action>)
    requires s == Database([], map[])
    ensures Linear(l, Run(l, s, actions))
    ensures ChainVerifies(l.hash, Run(l, s, actions).committed)
    ensures forall k :: 0 <= k < |Run(l, s, actions).committed| ==> Run(l, s, actions).committed[k].sequence == k + 1
  {
    if actions != [] {
      EveryRunIsLinear(l, s, actions[..|actions| - 1]);
      StepKeepsLinear(l, Run(l, s, actions[..|actions| - 1]), actions[|actions| - 1]);
    }
  }

  /** The committed log only ever grows at its end: what an earlier moment of a run committed stays its prefix. */
  lemma {:induction false} CommittedNeverRewritten(l: Ledger, s: Database, actions: seq<Action>, k: nat)
    requires s == Database([], map[]) && k <= |actions|
    ensures Run(l, s, actions[..k]).committed <= Run(l, s, actions).committed
    decreases |actions|
  {
    if k == |actions| {
      assert actions[..k] == actions;
    } else {
      var init := actions[..|actions| - 1];
      assert init[..k] == actions[..k];
      CommittedNeverRewritten(l, s, init, k);
      EveryRunIsLinear(l, s, init);
      StepKeepsLinear(l, Run(l, s, init), actions[|actions| - 1]);
    }
  }

  // ---------- what becomes of an append ----------

  /**
   * The other steps: a new transaction holds nothing, one that reads gets the link past what it
   * sees, a commit moves its rows to the end of the log, and an abort leaves no trace of them.
   */
  lemma OtherSteps(l: Ledger, s: Database, t: TxnId)
    requires Linear(l, s)
    ensures t !in s.live ==>
              && Step(l, s, Begin(t)) == Database(s.committed, s.live[t := Txn(None, [])])
              && Step(l, s, ReadLink(t)) == Step(l, s, Commit(t)) == Step(l, s, Abort(t)) == s
    ensures t in s.live ==>
              && Step(l, s, Begin(t)) == s
              && Step(l, s, Commit(t)) == Database(s.committed + s.live[t].rows, s.live - {t})
              && Step(l, s, Abort(t)) == Database(s.committed, s.live - {t})
    ensures t in s.live && s.live[t].link.None? ==>
              var seen := s.committed + s.live[t].rows;
              Step(l, s, ReadLink(t))
              == Database(s.committed, s.live[t := Txn(Some((Head(seen), |seen| + 1)), s.live[t].rows)])
  {
    if t in s.live {
      SoundLive(l, s, t);
      NextLinkOfGoodLog(l, s.committed + s.live[t].rows);
    }
    hide Linear, GoodLog, NextChainLink;
  }

  /** Some other live transaction has inserted rows it has not committed. */
  ghost predicate OtherHoldsRows(s: Database, t: TxnId) {
    exists u :: u in s.live && u != t && s.live[u].rows != []
  }

  lemma SequencesOfGoodLog(l: Ledger, log: seq<AuditEntry>, n: int)
    requires GoodLog(l, log)
    ensures HasSequence(log, n) <==> 1 <= n <= |log|
  {
    if 1 <= n <= |log| { EarlierSequencesAreTaken(l, log, n); }
  }

  /** A transaction with the next link finds its number held exactly when another one has rows. */
  lemma HeldIffOtherHolds(l: Ledger, s: Database, t: TxnId)
    requires Linear(l, s) && t in s.live && s.live[t].link.Some?
    requires s.live[t].link.value.1 == |s.committed + s.live[t].rows| + 1
    ensures HeldByOther(s.live, t, s.live[t].link.value.1) <==> OtherHoldsRows(s, t)
  {
    var n := s.live[t].link.value.1;
    SequencesOfGoodLog(l, s.committed + s.live[t].rows, n);
    if u :| u in s.live && u != t && s.live[u].rows != [] {
      assert s.committed + s.live[t].rows == s.committed;
      HolderBlocks(l, s, t, u);
    }
  }

  /** Transaction t holds one entry more, which records the event after the log it saw; nothing else differs. */
  ghost predicate HoldsOneMore(l: Ledger, s: Database, v: Database, t: TxnId, event: AuditEvent, stamp: Stamp)
    requires t in s.live
  {
    var seen, n := s.committed + s.live[t].rows, |s.live[t].rows|;
    && v.committed == s.committed && v.live.Keys == s.live.Keys
    && (forall u :: u in s.live && u != t ==> v.live[u] == s.live[u])
    && v.live[t].link == None && |v.live[t].rows| == n + 1 && v.live[t].rows[..n] == s.live[t].rows
    && RecordsEvent(l, Head(seen), |seen|, event, stamp, v.live[t].rows[n])
  }

  lemma AddedHoldsOneMore(l: Ledger, s: Database, t: TxnId, event: AuditEvent, stamp: Stamp)
    requires t in s.live
    ensures var seen := s.committed + s.live[t].rows;
            var e := NewEntry(l, (Head(seen), |seen| + 1), event, stamp);
            HoldsOneMore(l, s, s.(live := s.live[t := Txn(None, s.live[t].rows + [e])]), t, event, stamp)
  {
    var seen := s.committed + s.live[t].rows;
    NewEntryRecords(l, Head(seen), |seen|, event, stamp);
    hide RecordsEvent, NewEntry;
  }

  lemma InsertStep(l: Ledger, s: Database, t: TxnId, event: AuditEvent, stamp: Stamp)
    requires t in s.live && s.live[t].link.Some?
    ensures var link := s.live[t].link.value;
            Step(l, s, Insert(t, event, stamp))
            == if HasSequence(s.committed + s.live[t].rows, link.1) then s.(live := s.live - {t})
               else if HeldByOther(s.live, t, link.1) then s
               else s.(live := s.live[t := Txn(None, s.live[t].rows + [NewEntry(l, link, event, stamp)])])
  {
    hide HasSequence, HeldByOther, NewEntry;
  }

  lemma SoundLive(l: Ledger, s: Database, t: TxnId)
    requires Linear(l, s) && t in s.live
    ensures Sound(l, s.committed, s.live[t]) && GoodLog(l, s.committed + s.live[t].rows)
    ensures s.live[t].link.Some? ==> WasNext(s.committed + s.live[t].rows, s.live[t].link.value)
  {
  }

  /**
   * An insert by a transaction that read its link when the log it sees had n - 1 entries is refused,
   * with the whole transaction, exactly when that log has grown since; otherwise it waits exactly
   * while another transaction holds rows; otherwise the transaction holds one entry more, which
   * records the event after that log.
   */
  lemma InsertOutcomes(l: Ledger, s: Database, t: TxnId, event: AuditEvent, stamp: Stamp)
    requires Linear(l, s) && t in s.live && s.live[t].link.Some?
    ensures var v, n := Step(l, s, Insert(t, event, stamp)), s.live[t].link.value.1;
            var grown := n <= |s.committed + s.live[t].rows|;
            && (grown ==> v == s.(live := s.live - {t}))
            && (!grown && OtherHoldsRows(s, t) ==> v == s)
            && (!grown && !OtherHoldsRows(s, t) ==> HoldsOneMore(l, s, v, t, event, stamp))
  {
    hide HasSequence, HeldByOther, OtherHoldsRows, NewEntry, GoodLog, HoldsOneMore, Step, Linear, Sound;
    var seen, link := s.committed + s.live[t].rows, s.live[t].link.value;
    SoundLive(l, s, t);
    SequencesOfGoodLog(l, seen, link.1);
    InsertStep(l, s, t, event, stamp);
    if link.1 == |seen| + 1 {
      HeldIffOtherHolds(l, s, t);
      LinkIsFresh(l, seen, link);
      AddedHoldsOneMore(l, s, t, event, stamp);
    }
  }

  lemma BeginStep(l: Ledger, s: Database, t: TxnId)
    requires t in s.live ==> s.live[t] == Txn(None, [])
    ensures Step(l, s, Begin(t)) == s.(live := s.live[t := Txn(None, [])])
  {
    if t in s.live { assert s.live[t := Txn(None, [])] == s.live; }
  }

  lemma ReadStep(l: Ledger, s: Database, t: TxnId)
    requires GoodLog(l, s.committed) && t in s.live && s.live[t] == Txn(None, [])
    ensures Step(l, s, ReadLink(t)) == s.(live := s.live[t := Txn(Some((Head(s.committed), |s.committed| + 1)), [])])
  {
    NextLinkOfGoodLog(l, s.committed);
    assert s.committed + [] == s.committed;
    hide NextChainLink, GoodLog, Head;
  }

  /** A transaction without rows that reads while no other one holds rows has the link to the committed head. */
  lemma ReadsHead(l: Ledger, s: Database, t: TxnId)
    requires GoodLog(l, s.committed) && (t in s.live ==> s.live[t] == Txn(None, []))
    ensures Step(l, Step(l, s, Begin(t)), ReadLink(t)) == WithLink(s, t)
  {
    hide Step, GoodLog, Head;
    BeginStep(l, s, t);
    ReadStep(l, Step(l, s, Begin(t)), t);
    assert s.live[t := Txn(None, [])][t := WithLink(s, t).live[t]] == WithLink(s, t).live;
  }

  /** The database in which t has read the link to the committed head. */
  ghost function WithLink(s: Database, t: TxnId): Database {
    s.(live := s.live[t := Txn(Some((Head(s.committed), |s.committed| + 1)), [])])
  }

  lemma WithLinkIsUnobstructed(s: Database, t: TxnId)
    requires !OtherHoldsRows(s, t)
    ensures !OtherHoldsRows(WithLink(s, t), t) && WithLink(s, t).live - {t} == s.live - {t}
  {
  }

  lemma CommitsOneMore(l: Ledger, s: Database, v: Database, t: TxnId, event: AuditEvent, stamp: Stamp)
    requires t in s.live && s.live[t].rows == [] && HoldsOneMore(l, s, v, t, event, stamp)
    ensures CommittedOneMore(l, s, Step(l, v, Commit(t)), event, stamp)
    ensures Step(l, v, Commit(t)).live == s.live - {t}
  {
    assert s.committed + s.live[t].rows == s.committed;
    hide RecordsEvent;
    assert Step(l, v, Commit(t)).live == s.live - {t};
  }

  /** The committed log is one entry longer, and that entry records the event. */
  ghost predicate CommittedOneMore(l: Ledger, s: Database, v: Database, event: AuditEvent, stamp: Stamp) {
    && |v.committed| == |s.committed| + 1 && v.committed[..|s.committed|] == s.committed
    && RecordsEvent(l, Head(s.committed), |s.committed|, event, stamp, v.committed[|s.committed|])
  }

  /**
   * In any state reached, a transaction without rows that reads, inserts and commits while no other
   * one holds rows makes the committed log longer by exactly one entry, which records its event.
   */
  lemma UnobstructedAppendCommits(l: Ledger, actions: seq<Action>, t: TxnId, event: AuditEvent, stamp: Stamp)
    requires var s := Run(l, Database([], map[]), actions);
             (t in s.live ==> s.live[t] == Txn(None, [])) && !OtherHoldsRows(s, t)
    ensures var s := Run(l, Database([], map[]), actions);
            var v := Run(l, s, [Begin(t), ReadLink(t), Insert(t, event, stamp), Commit(t)]);
            CommittedOneMore(l, s, v, event, stamp) && v.live == s.live - {t}
  {
    hide Linear, OtherHoldsRows, Step, Run, HoldsOneMore, CommittedOneMore, GoodLog;
    EveryRunIsLinear(l, Database([], map[]), actions);
    var s := Run(l, Database([], map[]), actions);
    RunOfFour(l, s, Begin(t), ReadLink(t), Insert(t, event, stamp), Commit(t));
    LinearLog(l, s);
    ReadsHead(l, s, t);
    StepKeepsLinear(l, s, Begin(t));
    StepKeepsLinear(l, Step(l, s, Begin(t)), ReadLink(t));
    WithLinkIsUnobstructed(s, t);
    var b := WithLink(s, t);
    assert b.committed == s.committed && t in b.live && b.live[t].link == Some((Head(s.committed), |s.committed| + 1))
        && b.live[t].rows == [];
    assert s.committed + [] == s.committed;
    hide WithLink, Head;
    InsertOutcomes(l, b, t, event, stamp);
    CommitsOneMore(l, b, Step(l, b, Insert(t, event, stamp)), t, event, stamp);
    SameCommitted(l, b, s, Step(l, Step(l, b, Insert(t, event, stamp)), Commit(t)), event, stamp);
  }

  lemma LinearLog(l: Ledger, s: Database)
    requires Linear(l, s)
    ensures GoodLog(l, s.committed)
  {
  }

  lemma SameCommitted(l: Ledger, b: Database, s: Database, v: Database, event: AuditEvent, stamp: Stamp)
    requires CommittedOneMore(l, b, v, event, stamp) && b.committed == s.committed
    ensures CommittedOneMore(l, s, v, event, stamp)
  {
  }

  lemma RunOfFour(l: Ledger, s: Database, a: Action, b: Action, c: Action, d: Action)
    ensures Run(l, s, [a, b, c, d]) == Step(l, Step(l, Step(l, Step(l, s, a), b), c), d)
  {
    hide Step;
    assert [a, b, c, d][..3] == [a, b, c] && [a, b, c][..2] == [a, b] && [a, b][..1] == [a] && [a][..0] == [];
    assert Run(l, s, [a]) == Step(l, s, a);
    assert Run(l, s, [a, b]) == Step(l, Step(l, s, a), b);
    assert Run(l, s, [a, b, c]) == Step(l, Step(l, Step(l, s, a), b), c);
  }

  /** Inserting without the unique constraint. */
  ghost function UncheckedInsert(l: Ledger, s: Database, t: TxnId, event: AuditEvent, stamp: Stamp): Database
    requires t in s.live && s.live[t].link.Some?
  {
    s.(live := s.live[t := Txn(None, s.live[t].rows + [NewEntry(l, s.live[t].link.value, event, stamp)])])
  }

  /** The constraint is what keeps the log linear: without it two appenders that read the same link fork the chain. */
  lemma WithoutTheConstraintTheChainForks(l: Ledger, event: AuditEvent, stamp: Stamp)
    ensures var read := Run(l, Database([], map[]), [Begin(1), Begin(2), ReadLink(1), ReadLink(2)]);
            && 1 in read.live && read.live[1].link.Some? && 2 in read.live && read.live[2].link.Some?
            && var both := UncheckedInsert(l, UncheckedInsert(l, read, 1, event, stamp), 2, event, stamp);
               !GoodLog(l, Step(l, Step(l, both, Commit(1)), Commit(2)).committed)
  {
    var s := Database([], map[]);
    var link: (string, int) := (GENESIS_PREV_HASH, 1);
    var a1 := [Begin(1)];
    var a2, a3 := a1 + [Begin(2)], a1 + [Begin(2)] + [ReadLink(1)];
    var a4 := a3 + [ReadLink(2)];
    assert a1[..0] == [] && a2[..1] == a1 && a3[..2] == a2 && a4[..3] == a3;
    assert Run(l, s, a1) == Database([], map[1 := Txn(None, [])]);
    assert Run(l, s, a2) == Database([], map[1 := Txn(None, []), 2 := Txn(None, [])]);
    assert Run(l, s, a3) == Database([], map[1 := Txn(Some(link), []), 2 := Txn(None, [])]);
    var read := Run(l, s, a4);
    assert read == Database([], map[1 := Txn(Some(link), []), 2 := Txn(Some(link), [])]);
    assert a4 == [Begin(1), Begin(2), ReadLink(1), ReadLink(2)];
    var both := UncheckedInsert(l, UncheckedInsert(l, read, 1, event, stamp), 2, event, stamp);
    var end := Step(l, Step(l, both, Commit(1)), Commit(2));
    assert end.committed[1].sequence == 1;
  }
}
