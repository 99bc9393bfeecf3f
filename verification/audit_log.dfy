/**
 The audit table: appends made by concurrent transactions under one advisory lock, and the
 paged read that feeds the incremental verifier.

 Each SQL statement is one atomic step.  The insert does not store the time that was hashed, and
 stores the payload in the database's own form, so every row is kept in both versions.
 */
module AuditLog {
  import opened Prelude
  import opened AuditChain

  type Tx = nat

  /** What a caller appends, payload already redacted and in canonical JSON. */
  datatype Entry = Entry(
    adminID: string,
    action: string,
    targetType: string,
    targetID: Option<string>,
    payloadJSON: string)

  /** What the database makes of a row's time and payload: its own clock, and the text in which it
      gives the payload back. */
  datatype Stored = Stored(createdAt: string, payloadJSON: string)

  /** A row as it was hashed, and what is stored in its place. */
  datatype LogRow = LogRow(hashed: AuditRow, stored: Stored)

  /** The row that a reader of the table gets. */
  function TableRow(r: LogRow): AuditRow {
    r.hashed.(createdAt := r.stored.createdAt, payloadJSON := r.stored.payloadJSON)
  }

  function Table(log: seq<LogRow>): (rows: seq<AuditRow>)
    ensures |rows| == |log|
  {
    seq(|log|, i requires 0 <= i < |log| => TableRow(log[i]))
  }

  function Hashed(log: seq<LogRow>): (rows: seq<AuditRow>)
    ensures |rows| == |log|
  {
    seq(|log|, i requires 0 <= i < |log| => log[i].hashed)
  }

  /** Where a transaction stands inside Append. */
  datatype Phase = Idle | Locked | HeadRead(prevHash: string)

  datatype TxState = TxState(phase: Phase, pending: seq<LogRow>)

  datatype LogState = LogState(
    committed: seq<LogRow>,
    lock: Option<Tx>,
    txs: map<Tx, TxState>,
    nextID: int)

  datatype Step =
    | Lock(t: Tx)
    | ReadHead(t: Tx)
    | Insert(t: Tx, e: Entry, now: string, stored: Stored)
    | Commit(t: Tx)
    | Rollback(t: Tx)

  const EMPTY: LogState := LogState([], None, map[], 1)

  function At(s: LogState, t: Tx): TxState {
    if t in s.txs then s.txs[t] else TxState(Idle, [])
  }

  /** The rows transaction t sees: the committed ones and its own. */
  function Visible(s: LogState, t: Tx): seq<LogRow> {
    s.committed + At(s, t).pending
  }

  function MakeRow(h: Digest, id: int, e: Entry, now: string, stored: Stored, prevHash: string): LogRow {
    var row := AuditRow(id, now, e.adminID, e.action, e.targetType, e.targetID, e.payloadJSON, prevHash, "");
    LogRow(row.(entryHash := ComputeHash(h, prevHash, row)), stored)
  }

  /** What was hashed are the fields of the entry and the time; what is stored is what the database made
      of them. */
  ghost predicate CarriesEntry(r: LogRow, e: Entry, now: string, stored: Stored) {
    && r.hashed.adminID == e.adminID && r.hashed.action == e.action
    && r.hashed.targetType == e.targetType && r.hashed.targetID == e.targetID
    && r.hashed.payloadJSON == e.payloadJSON && r.hashed.createdAt == now
    && r.stored == stored
  }

  /** One statement of one transaction; a statement that has to wait, or is not the next one of
      its transaction, leaves the state as it is. */
  function Apply(h: Digest, s: LogState, step: Step): LogState {
    match step
    case Lock(t) =>
      if s.lock == None || s.lock == Some(t) then
        s.(lock := Some(t), txs := s.txs[t := At(s, t).(phase := Locked)])
      else
        s
    case ReadHead(t) =>
      if At(s, t).phase == Locked then
        s.(txs := s.txs[t := At(s, t).(phase := HeadRead(HeadHash(Table(Visible(s, t)))))])
      else
        s
    case Insert(t, e, now, stored) =>
      var tx := At(s, t);
      if tx.phase.HeadRead? then
        var row := MakeRow(h, s.nextID, e, now, stored, tx.phase.prevHash);
        s.(txs := s.txs[t := TxState(Idle, tx.pending + [row])], nextID := s.nextID + 1)
      else
        s
    case Commit(t) =>
      if At(s, t).phase == Idle then
        Release(s.(committed := Visible(s, t)), t)
      else
        s
    case Rollback(t) =>
      Release(s, t)
  }

  /** The end of transaction t: its lock goes with it. */
  function Release(s: LogState, t: Tx): LogState {
    s.(lock := if s.lock == Some(t) then None else s.lock, txs := s.txs - {t})
  }

  function Run(h: Digest, s: LogState, steps: seq<Step>): LogState {
    if steps == [] then s else Apply(h, Run(h, s, Front(steps)), Last(steps))
  }

  // ---------------------------------------------------------------- what every run keeps

  /** Ids are positive and strictly increasing. */
  ghost predicate Ordered(rows: seq<AuditRow>) {
    && (forall i :: 0 <= i < |rows| ==> 0 < rows[i].id)
    && forall i, j :: 0 <= i < j < |rows| ==> rows[i].id < rows[j].id
  }

  /** The stored previous hashes are the hashes really chained to. */
  ghost predicate Linked(rows: seq<AuditRow>) {
    forall k :: 0 <= k < |rows| ==> rows[k].prevHash == PrevOf(rows, k)
  }

  ghost predicate OrderedBelow(rows: seq<AuditRow>, nextID: int) {
    && Ordered(rows)
    && 0 < nextID
    && forall i :: 0 <= i < |rows| ==> rows[i].id < nextID
  }

  ghost predicate GoodLog(h: Digest, rows: seq<AuditRow>, nextID: int) {
    && ChainValid(h, rows)
    && Linked(rows)
    && OrderedBelow(rows, nextID)
  }

  ghost predicate TxInv(h: Digest, s: LogState, t: Tx) {
    && (At(s, t) != TxState(Idle, []) ==> s.lock == Some(t))
    && GoodLog(h, Hashed(Visible(s, t)), s.nextID)
    && (At(s, t).phase.HeadRead? ==> At(s, t).phase.prevHash == HeadHash(Hashed(Visible(s, t))))
  }

  ghost predicate Inv(h: Digest, s: LogState) {
    forall t :: TxInv(h, s, t)
  }

  /** Both versions of a log are chained to the same hashes. */
  lemma {:induction false} SamePrev(log: seq<LogRow>, k: nat)
    requires k <= |log|
    ensures PrevOf(Table(log), k) == PrevOf(Hashed(log), k)
  {
  }

  lemma {:induction false} HashedAppend(log: seq<LogRow>, row: LogRow)
    ensures Hashed(log + [row]) == Hashed(log) + [row.hashed]
  {
  }

  lemma {:induction false} HashedPrefix(log: seq<LogRow>, n: nat)
    requires n <= |log|
    ensures Hashed(log)[..n] == Hashed(log[..n])
  {
  }

  lemma {:induction false} HeadOfTable(log: seq<LogRow>)
    ensures HeadHash(Table(log)) == if log == [] then GENESIS_HASH else Last(log).hashed.entryHash
  {
  }

  /** A made row carries the digest of its fields as hashed, chained to `prevHash`. */
  lemma {:induction false} MadeRow(h: Digest, id: int, e: Entry, now: string, stored: Stored, prevHash: string)
    ensures var row := MakeRow(h, id, e, now, stored, prevHash).hashed;
            row.id == id && row.prevHash == prevHash && row.entryHash == ComputeHash(h, prevHash, row)
  {
  }

  lemma {:induction false} GoodLogExtends(
    h: Digest, rows: seq<AuditRow>, nextID: int, row: AuditRow, rows': seq<AuditRow>)
    requires GoodLog(h, rows, nextID) && rows' == rows + [row]
    requires row.id == nextID && row.prevHash == HeadHash(rows)
    requires row.entryHash == ComputeHash(h, HeadHash(rows), row)
    ensures GoodLog(h, rows', nextID + 1)
  {
    AppendValid(h, rows, row);
    LinkedExtends(rows, row);
    OrderedExtends(rows, nextID, row);
  }

  lemma {:induction false} OrderedExtends(rows: seq<AuditRow>, nextID: int, row: AuditRow)
    requires OrderedBelow(rows, nextID) && row.id == nextID
    ensures OrderedBelow(rows + [row], nextID + 1)
  {
  }

  lemma {:induction false} LinkedExtends(rows: seq<AuditRow>, row: AuditRow)
    requires Linked(rows) && row.prevHash == HeadHash(rows)
    ensures Linked(rows + [row])
  {
  }

  lemma {:induction false} GoodLogWeaken(h: Digest, rows: seq<AuditRow>, nextID: int, more: int)
    requires GoodLog(h, rows, nextID) && nextID <= more
    ensures GoodLog(h, rows, more)
  {
  }

  lemma {:induction false} OthersIdle(h: Digest, s: LogState, t: Tx, other: Tx)
    requires TxInv(h, s, other) && s.lock == Some(t) && other != t
    ensures At(s, other) == TxState(Idle, []) && Visible(s, other) == s.committed
  {
  }

  /** One statement keeps the invariant of every transaction. */
  lemma {:induction false} StepKeepsInv(h: Digest, s: LogState, step: Step)
    requires Inv(h, s)
    ensures Inv(h, Apply(h, s, step))
  {
    var s' := Apply(h, s, step);
    forall u
      ensures TxInv(h, s', u)
    {
      assert TxInv(h, s, step.t) && TxInv(h, s, u);
      match step
      case Lock(t) =>
        LockKeepsTxInv(h, s, t, u);
      case ReadHead(t) =>
        ReadHeadKeepsTxInv(h, s, t, u);
      case Insert(t, e, now, stored) =>
        InsertKeepsTxInv(h, s, t, e, now, stored, u);
      case Commit(t) =>
        CommitKeepsTxInv(h, s, t, u);
      case Rollback(t) =>
        RollbackKeepsTxInv(h, s, t, u);
    }
  }

  lemma {:induction false} LockKeepsTxInv(h: Digest, s: LogState, t: Tx, u: Tx)
    requires TxInv(h, s, t) && TxInv(h, s, u)
    ensures TxInv(h, Apply(h, s, Lock(t)), u)
  {
    assert Visible(Apply(h, s, Lock(t)), u) == Visible(s, u);
  }

  lemma {:induction false} ReadHeadKeepsTxInv(h: Digest, s: LogState, t: Tx, u: Tx)
    requires TxInv(h, s, t) && TxInv(h, s, u)
    ensures TxInv(h, Apply(h, s, ReadHead(t)), u)
  {
    SamePrev(Visible(s, t), |Visible(s, t)|);
    assert Visible(Apply(h, s, ReadHead(t)), u) == Visible(s, u);
  }

  lemma {:induction false} InsertKeepsTxInv(
    h: Digest, s: LogState, t: Tx, e: Entry, now: string, stored: Stored, u: Tx)
    requires TxInv(h, s, t) && TxInv(h, s, u)
    ensures TxInv(h, Apply(h, s, Insert(t, e, now, stored)), u)
  {
    if At(s, t).phase.HeadRead? {
      var row := MakeRow(h, s.nextID, e, now, stored, HeadHash(Hashed(Visible(s, t))));
      MadeRow(h, s.nextID, e, now, stored, HeadHash(Hashed(Visible(s, t))));
      var s' := s.(txs := s.txs[t := TxState(Idle, At(s, t).pending + [row])], nextID := s.nextID + 1);
      assert s' == Apply(h, s, Insert(t, e, now, stored));
      if u == t {
        OwnRowKeepsTxInv(h, s, t, row, s');
      } else {
        OthersIdle(h, s, t, u);
        GoodLogWeaken(h, Hashed(Visible(s, u)), s.nextID, s'.nextID);
        assert Visible(s', u) == Visible(s, u);
      }
    }
  }

  lemma {:induction false} OwnRowKeepsTxInv(h: Digest, s: LogState, t: Tx, row: LogRow, s': LogState)
    requires TxInv(h, s, t) && At(s, t).phase.HeadRead?
    requires row.hashed.id == s.nextID && row.hashed.prevHash == HeadHash(Hashed(Visible(s, t)))
    requires row.hashed.entryHash == ComputeHash(h, HeadHash(Hashed(Visible(s, t))), row.hashed)
    requires s' == s.(txs := s.txs[t := TxState(Idle, At(s, t).pending + [row])], nextID := s.nextID + 1)
    ensures TxInv(h, s', t)
  {
    assert Visible(s', t) == Visible(s, t) + [row];
    HashedAppend(Visible(s, t), row);
    GoodLogExtends(h, Hashed(Visible(s, t)), s.nextID, row.hashed, Hashed(Visible(s', t)));
  }

  lemma {:induction false} CommitKeepsTxInv(h: Digest, s: LogState, t: Tx, u: Tx)
    requires TxInv(h, s, t) && TxInv(h, s, u)
    ensures TxInv(h, Apply(h, s, Commit(t)), u)
  {
    var s' := Apply(h, s, Commit(t));
    if At(s, t).phase == Idle {
      if u == t || At(s, u) == TxState(Idle, []) {
        assert Visible(s', u) == Visible(s, t);
      } else {
        OthersIdle(h, s, u, t);
        assert Visible(s', u) == Visible(s, u);
      }
    }
  }

  lemma {:induction false} RollbackKeepsTxInv(h: Digest, s: LogState, t: Tx, u: Tx)
    requires TxInv(h, s, t) && TxInv(h, s, u)
    ensures TxInv(h, Apply(h, s, Rollback(t)), u)
  {
    var s' := Apply(h, s, Rollback(t));
    if u == t {
      CommittedGood(h, s, t);
      assert Visible(s', u) == s.committed;
    } else {
      assert Visible(s', u) == Visible(s, u);
    }
  }

  lemma {:induction false} CommittedGood(h: Digest, s: LogState, t: Tx)
    requires TxInv(h, s, t)
    ensures GoodLog(h, Hashed(s.committed), s.nextID)
  {
    var n, rows := |s.committed|, Hashed(Visible(s, t));
    assert Visible(s, t)[..n] == s.committed;
    HashedPrefix(Visible(s, t), n);
    GoodPrefix(h, rows, s.nextID, n);
  }

  lemma {:induction false} GoodPrefix(h: Digest, rows: seq<AuditRow>, nextID: int, n: nat)
    requires GoodLog(h, rows, nextID) && n <= |rows|
    ensures GoodLog(h, rows[..n], nextID)
  {
    PrefixValid(h, rows, n);
    forall k | 0 <= k < n
      ensures rows[..n][k].prevHash == PrevOf(rows[..n], k)
    {
      assert rows[k].prevHash == PrevOf(rows, k);
    }
  }

  lemma {:induction false} RunKeepsInv(h: Digest, s: LogState, steps: seq<Step>)
    requires Inv(h, s)
    ensures Inv(h, Run(h, s, steps))
  {
    if steps != [] {
      RunKeepsInv(h, s, Front(steps));
      StepKeepsInv(h, Run(h, s, Front(steps)), Last(steps));
    }
  }

  lemma {:induction false} EveryRunIsGood(h: Digest, steps: seq<Step>)
    ensures GoodLog(h, Hashed(Run(h, EMPTY, steps).committed), Run(h, EMPTY, steps).nextID)
  {
    assert Inv(h, EMPTY) by {
      forall t ensures TxInv(h, EMPTY, t) {
        assert Visible(EMPTY, t) == [];
      }
    }
    RunKeepsInv(h, EMPTY, steps);
    var s := Run(h, EMPTY, steps);
    assert TxInv(h, s, 0);
    CommittedGood(h, s, 0);
  }

  // ---------------------------------------------------------------- when the committed log verifies

  /** What was hashed for row k. */
  function HashedInput(log: seq<LogRow>, k: nat): string
    requires k < |log|
  {
    HashInput(PrevOf(Table(log), k), log[k].hashed)
  }

  /** What a verifier hashes for row k. */
  function StoredInput(log: seq<LogRow>, k: nat): string
    requires k < |log|
  {
    HashInput(PrevOf(Table(log), k), TableRow(log[k]))
  }

  /** A verifier accepts row k exactly when what is stored has the digest of what was hashed. */
  lemma {:induction false} AcceptedByDigest(h: Digest, log: seq<LogRow>, k: nat)
    requires k < |log| && LinkOk(h, Hashed(log), k)
    ensures LinkOk(h, Table(log), k) <==> h(StoredInput(log, k)) == h(HashedInput(log, k))
  {
    SamePrev(log, k);
  }

  lemma {:induction false} TableLinked(log: seq<LogRow>)
    requires Linked(Hashed(log))
    ensures Linked(Table(log))
  {
    forall k | 0 <= k < |log|
      ensures Table(log)[k].prevHash == PrevOf(Table(log), k)
    {
      SamePrev(log, k);
      assert Hashed(log)[k].prevHash == PrevOf(Hashed(log), k);
    }
  }

  lemma {:induction false} TableOrdered(log: seq<LogRow>)
    requires Ordered(Hashed(log))
    ensures Ordered(Table(log))
  {
    assert forall i :: 0 <= i < |log| ==> Table(log)[i].id == Hashed(log)[i].id;
  }

  ghost predicate SameDigest(h: Digest, log: seq<LogRow>, k: nat)
    requires k < |log|
  {
    h(StoredInput(log, k)) == h(HashedInput(log, k))
  }

  /** Whatever transactions do, in whatever order: the committed ids increase, the stored previous hashes
      are right, and a verifier accepts a row exactly when what is stored for it has the digest of
      what was hashed; so the whole log verifies exactly when that holds of every row. */
  lemma {:induction false} CommittedLogVerifies(h: Digest, steps: seq<Step>)
    ensures var log := Run(h, EMPTY, steps).committed;
            && Linked(Table(log)) && Ordered(Table(log))
            && (forall k :: 0 <= k < |log| ==> (LinkOk(h, Table(log), k) <==> SameDigest(h, log, k)))
            && (ChainValid(h, Table(log)) <==> forall k :: 0 <= k < |log| ==> SameDigest(h, log, k))
  {
    EveryRunIsGood(h, steps);
    var log := Run(h, EMPTY, steps).committed;
    TableLinked(log);
    TableOrdered(log);
    forall k | 0 <= k < |log|
      ensures LinkOk(h, Table(log), k) <==> SameDigest(h, log, k)
    {
      assert LinkOk(h, Hashed(log), k);
      AcceptedByDigest(h, log, k);
    }
  }

  predicate StoredAsHashed(r: LogRow) {
    r.stored == Stored(r.hashed.createdAt, r.hashed.payloadJSON)
  }

  ghost predicate Collide(h: Digest, x: string, y: string) {
    x != y && h(x) == h(y)
  }

  /** Row k is stored as it was hashed, or its two inputs are a collision. */
  ghost predicate StoredOrCollision(h: Digest, log: seq<LogRow>, k: nat)
    requires k < |log|
  {
    StoredAsHashed(log[k]) || Collide(h, HashedInput(log, k), StoredInput(log, k))
  }

  ghost predicate WellFormedLog(log: seq<LogRow>) {
    forall k :: 0 <= k < |log| ==> WellFormed(log[k].hashed) && WellFormed(TableRow(log[k]))
  }

  lemma {:induction false} SameDigestMeans(h: Digest, log: seq<LogRow>, k: nat)
    requires IsDigest(h) && ChainValid(h, Hashed(log)) && k < |log|
    requires WellFormed(log[k].hashed) && WellFormed(TableRow(log[k]))
    ensures SameDigest(h, log, k) <==> StoredOrCollision(h, log, k)
  {
    SamePrev(log, k);
    PrevLength(h, Hashed(log), k);
    if HashedInput(log, k) == StoredInput(log, k) {
      HashInputInjective(PrevOf(Table(log), k), log[k].hashed, PrevOf(Table(log), k), TableRow(log[k]));
    }
  }

  lemma {:induction false} SameDigests(h: Digest, log: seq<LogRow>)
    requires IsDigest(h) && ChainValid(h, Hashed(log)) && WellFormedLog(log)
    ensures forall k :: 0 <= k < |log| ==> (SameDigest(h, log, k) <==> StoredOrCollision(h, log, k))
  {
    forall k | 0 <= k < |log|
      ensures SameDigest(h, log, k) <==> StoredOrCollision(h, log, k)
    {
      assert WellFormed(log[k].hashed) && WellFormed(TableRow(log[k]));
      SameDigestMeans(h, log, k);
    }
  }

  /** For well-formed rows: a row is accepted exactly when its time and payload text are stored as they
      were hashed, or the two inputs are a collision of the digest. */
  lemma {:induction false} VerifiesWhenStoredAsHashed(h: Digest, steps: seq<Step>)
    requires IsDigest(h) && WellFormedLog(Run(h, EMPTY, steps).committed)
    ensures var log := Run(h, EMPTY, steps).committed;
            && (forall k :: 0 <= k < |log| ==> (LinkOk(h, Table(log), k) <==> StoredOrCollision(h, log, k)))
            && (ChainValid(h, Table(log)) <==> forall k :: 0 <= k < |log| ==> StoredOrCollision(h, log, k))
  {
    CommittedLogVerifies(h, steps);
    var log := Run(h, EMPTY, steps).committed;
    assert ChainValid(h, Hashed(log)) by {
      EveryRunIsGood(h, steps);
    }
    SameDigests(h, log);
  }

  /** One append whose time or payload is not stored as it was hashed: the log consisting of it is
      reported broken at its only row, or the digest has a collision. */
  lemma {:induction false} OneAppendFails(h: Digest, t: Tx, e: Entry, now: string, stored: Stored)
    requires IsDigest(h) && stored != Stored(now, e.payloadJSON)
    requires var row := MakeRow(h, 1, e, now, stored, GENESIS_HASH); WellFormed(row.hashed) && WellFormed(TableRow(row))
    ensures var log := Run(h, EMPTY, [Lock(t), ReadHead(t), Insert(t, e, now, stored), Commit(t)]).committed;
            && log == [MakeRow(h, 1, e, now, stored, GENESIS_HASH)]
            && (Verdict(h, Table(log), false, 1) || Collide(h, HashedInput(log, 0), StoredInput(log, 0)))
  {
    var row := MakeRow(h, 1, e, now, stored, GENESIS_HASH);
    var steps := [Lock(t), ReadHead(t), Insert(t, e, now, stored), Commit(t)];
    AppendAndCommit(h, t, e, now, stored);
    var log := [row];
    assert WellFormedLog(log);
    VerifiesWhenStoredAsHashed(h, steps);
    if !Collide(h, HashedInput(log, 0), StoredInput(log, 0)) {
      assert !StoredOrCollision(h, log, 0);
      assert FirstBroken(h, Table(log), 0) && Table(log)[0].id == 1;
    }
  }

  lemma {:induction false} AppendAndCommit(h: Digest, t: Tx, e: Entry, now: string, stored: Stored)
    ensures Run(h, EMPTY, [Lock(t), ReadHead(t), Insert(t, e, now, stored), Commit(t)]).committed
            == [MakeRow(h, 1, e, now, stored, GENESIS_HASH)]
  {
    var a, b, c, d := Lock(t), ReadHead(t), Insert(t, e, now, stored), Commit(t);
    RunThree(h, EMPTY, a, b, c);
    assert Front([a, b, c, d]) == [a, b, c];
    assert Visible(Apply(h, EMPTY, a), t) == [] && Table([]) == [];
    assert [] + [MakeRow(h, 1, e, now, stored, GENESIS_HASH)] == [MakeRow(h, 1, e, now, stored, GENESIS_HASH)];
  }

  /** A change of configuration, as the program writes it and as the database gives it back: nothing
      but a space is different, whatever the times are. */
  lemma {:induction false} ConfigChangeFails(h: Digest, t: Tx, e: Entry, now: string, stored: Stored)
    requires IsDigest(h)
    requires e.payloadJSON == "{\"keys_changed\":[\"k\"]}" && stored.payloadJSON == "{\"keys_changed\": [\"k\"]}"
    requires var row := MakeRow(h, 1, e, now, stored, GENESIS_HASH); WellFormed(row.hashed) && WellFormed(TableRow(row))
    ensures var log := Run(h, EMPTY, [Lock(t), ReadHead(t), Insert(t, e, now, stored), Commit(t)]).committed;
            && log == [MakeRow(h, 1, e, now, stored, GENESIS_HASH)]
            && (Verdict(h, Table(log), false, 1) || Collide(h, HashedInput(log, 0), StoredInput(log, 0)))
  {
    assert |e.payloadJSON| != |stored.payloadJSON|;
    OneAppendFails(h, t, e, now, stored);
  }

  /** Committed rows are never changed or removed. */
  lemma {:induction false} AppendOnly(h: Digest, s: LogState, steps: seq<Step>)
    ensures s.committed <= Run(h, s, steps).committed
  {
    if steps != [] {
      AppendOnly(h, s, Front(steps));
    }
  }

  // ---------------------------------------------------------------- the repository

  /** The table and the sessions open on it. */
  class AuditRepository {
    const h: Digest
    var committed: seq<LogRow>
    var lock: Option<Tx>
    var txs: map<Tx, TxState>
    var nextID: int

    ghost function View(): LogState
      reads this
    {
      LogState(committed, lock, txs, nextID)
    }

    constructor (h: Digest)
      ensures View() == EMPTY && this.h == h
    {
      this.h := h;
      committed, lock, txs, nextID := [], None, map[], 1;
    }

    /** Append inside transaction t.  It fails, where the program waits, when another transaction holds
        the lock; otherwise t gains one row chained to the newest row t can see. */
    method Append(t: Tx, e: Entry, now: string, stored: Stored) returns (ok: bool)
      requires t in txs ==> txs[t].phase == Idle
      modifies this
      ensures ok == (old(lock) == None || old(lock) == Some(t))
      ensures View() == if ok then Run(h, old(View()), [Lock(t), ReadHead(t), Insert(t, e, now, stored)])
                        else old(View())
      ensures ok ==> Visible(View(), t) == Visible(old(View()), t)
                       + [MakeRow(h, old(nextID), e, now, stored, HeadHash(Table(Visible(old(View()), t))))]
      ensures ok ==> lock == Some(t) && committed == old(committed) && nextID == old(nextID) + 1
      ensures ok ==> Visible(View(), t) != [] && CarriesEntry(Last(Visible(View(), t)), e, now, stored)
    {
      ghost var s0 := View();
      var pending := if t in txs then txs[t].pending else [];
      if lock != None && lock != Some(t) {
        return false;
      }
      lock := Some(t);
      var visible := committed + pending;
      var prevHash := if |visible| == 0 then GENESIS_HASH else visible[|visible| - 1].hashed.entryHash;
      HeadOfTable(visible);
      var row := MakeRow(h, nextID, e, now, stored, prevHash);
      txs := txs[t := TxState(Idle, pending + [row])];
      nextID := nextID + 1;
      AppendIsThreeSteps(h, s0, t, e, now, stored, row);
      assert Visible(View(), t) == Visible(s0, t) + [row];
      return true;
    }

    method Commit(t: Tx)
      requires t in txs ==> txs[t].phase == Idle
      modifies this
      ensures View() == Apply(h, old(View()), Step.Commit(t))
      ensures committed == old(committed) + At(old(View()), t).pending
      ensures lock != Some(t) && t !in txs
      ensures forall other :: other != t ==> At(View(), other) == At(old(View()), other)
      ensures lock == (if old(lock) == Some(t) then None else old(lock)) && nextID == old(nextID)
    {
      committed := committed + if t in txs then txs[t].pending else [];
      lock := if lock == Some(t) then None else lock;
      txs := txs - {t};
    }

    method Rollback(t: Tx)
      modifies this
      ensures View() == Apply(h, old(View()), Step.Rollback(t))
      ensures committed == old(committed) && lock != Some(t) && t !in txs
      ensures forall other :: other != t ==> At(View(), other) == At(old(View()), other)
      ensures lock == (if old(lock) == Some(t) then None else old(lock)) && nextID == old(nextID)
    {
      lock := if lock == Some(t) then None else lock;
      txs := txs - {t};
    }
  }

  /** An append that does not have to wait: lock, head and insert, one after the other. */
  lemma {:induction false} AppendIsThreeSteps(
    h: Digest, s: LogState, t: Tx, e: Entry, now: string, stored: Stored, row: LogRow)
    requires At(s, t).phase == Idle && (s.lock == None || s.lock == Some(t))
    requires row == MakeRow(h, s.nextID, e, now, stored, HeadHash(Table(Visible(s, t))))
    ensures Run(h, s, [Lock(t), ReadHead(t), Insert(t, e, now, stored)])
            == s.(lock := Some(t), txs := s.txs[t := TxState(Idle, At(s, t).pending + [row])], nextID := s.nextID + 1)
  {
    var s1 := Apply(h, s, Lock(t));
    assert At(s1, t) == TxState(Locked, At(s, t).pending) && Visible(s1, t) == Visible(s, t);
    var s2 := Apply(h, s1, ReadHead(t));
    RunThree(h, s, Lock(t), ReadHead(t), Insert(t, e, now, stored));
    assert s2.txs[t := TxState(Idle, At(s, t).pending + [row])] == s.txs[t := TxState(Idle, At(s, t).pending + [row])];
  }

  lemma {:induction false} RunThree(h: Digest, s: LogState, a: Step, b: Step, c: Step)
    ensures Run(h, s, [a, b, c]) == Apply(h, Apply(h, Apply(h, s, a), b), c)
  {
    var one, two, three := [a], [a, b], [a, b, c];
    assert Front(three) == two && Front(two) == one && Front(one) == [];
    assert Run(h, s, []) == s;
    assert Run(h, s, one) == Apply(h, s, a);
    assert Run(h, s, two) == Apply(h, Run(h, s, one), b);
  }

  // ---------------------------------------------------------------- paged streaming

  /** SELECT ... WHERE id > afterID ORDER BY id. */
  function RowsAfter(table: seq<AuditRow>, afterID: int): seq<AuditRow> {
    if table == [] then
      []
    else if table[0].id > afterID then
      [table[0]] + RowsAfter(table[1..], afterID)
    else
      RowsAfter(table[1..], afterID)
  }

  function IDBefore(table: seq<AuditRow>, n: nat): int
    requires n <= |table|
  {
    if n == 0 then 0 else table[n - 1].id
  }

  /** In an ordered table the rows after the n-th row's id are the rows from n on. */
  lemma {:induction false} RowsAfterIsSuffix(table: seq<AuditRow>, n: nat, afterID: int)
    requires n <= |table|
    requires forall i :: 0 <= i < n ==> table[i].id <= afterID
    requires forall i :: n <= i < |table| ==> afterID < table[i].id
    ensures RowsAfter(table, afterID) == table[n..]
  {
    if table != [] {
      RowsAfterIsSuffix(table[1..], if n == 0 then 0 else n - 1, afterID);
      assert table == [table[0]] + table[1..];
    }
  }

  lemma {:induction false} NextRows(table: seq<AuditRow>, delivered: seq<AuditRow>)
    requires Ordered(table) && delivered <= table
    ensures RowsAfter(table, IDBefore(delivered, |delivered|)) == table[|delivered|..]
  {
    RowsAfterIsSuffix(table, |delivered|, IDBefore(delivered, |delivered|));
  }

  /** The table as successive pages find it: it only ever grows at its end. */
  ghost predicate Growing(versions: seq<seq<AuditRow>>) {
    && versions != []
    && (forall i :: 0 <= i < |versions| ==> Ordered(versions[i]))
    && forall i, j :: 0 <= i <= j < |versions| ==> versions[i] <= versions[j]
  }

  function VersionAt(versions: seq<seq<AuditRow>>, page: nat): seq<AuditRow>
    requires versions != []
  {
    versions[if page < |versions| then page else |versions| - 1]
  }

  /** One page is delivered row by row; the id of its last row is where the next page begins. */
  method PushPage(page: seq<AuditRow>, before: seq<AuditRow>, afterID: int, v: ChainVerifier)
    returns (delivered: seq<AuditRow>, lastID: int)
    requires v.Valid() && v.pushed == before && afterID == IDBefore(before, |before|)
    modifies v
    ensures delivered == before + page && lastID == IDBefore(delivered, |delivered|)
    ensures v.Valid() && v.pushed == delivered
  {
    delivered, lastID := before, afterID;
    var batchCount := 0;
    while batchCount < |page|
      invariant 0 <= batchCount <= |page|
      invariant delivered == before + page[..batchCount]
      invariant lastID == IDBefore(delivered, |delivered|)
      invariant v.Valid() && v.pushed == delivered
    {
      var row := page[batchCount];
      lastID := row.id;
      batchCount := batchCount + 1;
      v.Push(row);
      delivered := delivered + [row];
    }
  }

  /** Reads the log in pages, pushing every row into v.  Other transactions may commit between
      pages: what is delivered is the table as the last page found it, every row once, in order. */
  method StreamAll(versions: seq<seq<AuditRow>>, pageSize: nat, v: ChainVerifier)
    returns (delivered: seq<AuditRow>, pages: nat)
    requires Growing(versions) && pageSize >= 1
    requires v.Valid() && v.pushed == []
    modifies v
    ensures pages >= 1 && delivered == VersionAt(versions, pages - 1)
    ensures v.Valid() && v.pushed == delivered
  {
    delivered, pages := [], 0;
    var afterID := 0;
    ghost var all := Last(versions);
    while true
      invariant delivered <= VersionAt(versions, pages)
      invariant afterID == IDBefore(delivered, |delivered|)
      invariant v.Valid() && v.pushed == delivered
      decreases |all| - |delivered|
    {
      ghost var table := VersionAt(versions, pages);
      ghost var start := |delivered|;
      assert table <= all;
      NextRows(table, delivered);
      var rows := RowsAfter(VersionAt(versions, pages), afterID);
      var page := if |rows| < pageSize then rows else rows[..pageSize];
      assert delivered + page == table[..start + |page|];
      delivered, afterID := PushPage(page, delivered, afterID, v);
      pages := pages + 1;
      if |page| < pageSize {
        assert delivered == table;
        return;
      }
      assert delivered <= table <= VersionAt(versions, pages);
    }
  }

  /** The verify endpoint: streaming and pushing gives the verdict for the table as last read. */
  method VerifyLog(h: Digest, versions: seq<seq<AuditRow>>, pageSize: nat)
    returns (valid: bool, firstBrokenID: int, pages: nat)
    requires Growing(versions) && pageSize >= 1
    ensures pages >= 1 && Verdict(h, VersionAt(versions, pages - 1), valid, firstBrokenID)
  {
    var v := new ChainVerifier(h);
    var delivered;
    delivered, pages := StreamAll(versions, pageSize, v);
    valid, firstBrokenID := v.Done();
  }

  /** On a table at rest, the streaming verifier and the batch verifier give the same answer. */
  method VerifyBothWays(h: Digest, table: seq<AuditRow>, pageSize: nat)
    returns (streamed: bool, streamedID: int, batch: bool, batchID: int)
    requires Ordered(table) && pageSize >= 1
    ensures streamed == batch && streamedID == batchID
    ensures Verdict(h, table, batch, batchID)
  {
    var pages;
    streamed, streamedID, pages := VerifyLog(h, [table], pageSize);
    batch, batchID := VerifyChain(h, table);
    VerdictUnique(h, table, streamed, streamedID, batch, batchID);
  }
}
