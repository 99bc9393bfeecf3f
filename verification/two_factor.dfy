/**
 The pending two-factor row: verification, resending, re-login and reset, in any interleaving.

 Verifying takes a lock on the row, resending a lock on the user, and each re-reads the row under
 its lock; removals take no lock.  Codes are compared as hashes.
 */
module TwoFactor {
  import opened Prelude

  type RowId = nat
  type User = nat
  type Time = int

  const OTP_TTL := 600
  const ATTEMPT_CAP := 5
  const RESEND_THROTTLE := 60
  const RESEND_DAILY_LIMIT := 10
  const DAY := 86400

  datatype Row = Row(
    user: User,
    otp: string,
    attempts: nat,
    lastResend: Option<Time>,
    resends: nat,
    windowStart: Option<Time>,
    expires: Time)

  datatype Verdict = Invalid | Wrong(remaining: nat) | TooManyAttempts | SessionIssued | RowGone

  datatype ResendVerdict = ResendInvalid | Throttled(availableAt: Time) | DailyCap | Resent

  /** A row as it is inserted after the password was right: it is good for ten minutes. */
  function NewRow(user: User, otp: string, issuedAt: Time): Row {
    Row(user, otp, 0, None, 0, None, issuedAt + OTP_TTL)
  }

  /** What verifying answers and makes of the row, given the row seen under the lock and the row as
      it is when the write happens. */
  function VerifyEffect(current: Option<Row>, seen: Row, otp: string, now: Time): (Verdict, Option<Row>) {
    if now > seen.expires then (Invalid, None)
    else if otp != seen.otp then
      if current.None? then (RowGone, None)
      else
        var attempts := current.value.attempts + 1;
        if attempts >= ATTEMPT_CAP then (TooManyAttempts, None)
        else (Wrong(ATTEMPT_CAP - attempts), Some(current.value.(attempts := attempts)))
    else (SessionIssued, None)
  }

  predicate WindowOver(seen: Row, now: Time) {
    seen.windowStart.None? || now - seen.windowStart.value > DAY
  }

  function ResendEffect(current: Option<Row>, seen: Row, otp: string, now: Time): (ResendVerdict, Option<Row>) {
    if now > seen.expires then (ResendInvalid, None)
    else if seen.lastResend.Some? && now - seen.lastResend.value < RESEND_THROTTLE then
      (Throttled(seen.lastResend.value + RESEND_THROTTLE), current)
    else
      var count := if WindowOver(seen, now) then 0 else seen.resends;
      if count >= RESEND_DAILY_LIMIT then (DailyCap, current)
      else
        var start := if WindowOver(seen, now) then Some(now) else seen.windowStart;
        (Resent,
         if current.None? then None
         else Some(current.value.(otp := otp, lastResend := Some(now), resends := count + 1, windowStart := start)))
  }

  function Lookup(rows: map<RowId, Row>, id: RowId): Option<Row> {
    if id in rows then Some(rows[id]) else None
  }

  function Write(rows: map<RowId, Row>, id: RowId, row: Option<Row>): map<RowId, Row> {
    if row.None? then rows - {id} else rows[id := row.value]
  }

  /** The row after a resend: the new code, the time, one more resend in the window of a day, or the first
      of a new one. */
  predicate SentAgain(before: Row, after: Row, otp: string, now: Time) {
    && after.otp == otp && after.lastResend == Some(now)
    && after.user == before.user && after.expires == before.expires && after.attempts == before.attempts
    && after.windowStart.Some?
    && if before.windowStart.Some? && now - before.windowStart.value <= 86400 then
         after.windowStart == before.windowStart && after.resends == before.resends + 1 <= 10
       else
         after.windowStart == Some(now) && after.resends == 1
  }

  /** The table and its operations when nobody else is using it. */
  class PendingTable {
    var rows: map<RowId, Row>

    constructor ()
      ensures rows == map[]
    {
      rows := map[];
    }

    method CreatePending(id: RowId, user: User, otp: string, now: Time)
      modifies this
      ensures id in rows && rows[id] == NewRow(user, otp, now)
      ensures forall other :: other != id ==>
                && (other in rows <==>
                      other in old(rows) && old(rows)[other].user != user && old(rows)[other].expires >= now - 3600)
                && (other in rows ==> rows[other] == old(rows)[other])
    {
      rows := map other | other in rows && rows[other].user != user :: rows[other];
      rows := map other | other in rows && rows[other].expires >= now - 3600 :: rows[other];
      rows := rows[id := NewRow(user, otp, now)];
    }

    method VerifyOTP(id: RowId, otp: string, now: Time) returns (verdict: Verdict)
      modifies this
      ensures id !in old(rows) ==> verdict == Invalid && rows == old(rows)
      ensures id in old(rows) ==>
                var (v, row) := VerifyEffect(Some(old(rows)[id]), old(rows)[id], otp, now);
                verdict == v && rows == Write(old(rows), id, row)
      ensures verdict == Invalid <==> id !in old(rows) || now > old(rows)[id].expires
      ensures id in old(rows) && now <= old(rows)[id].expires ==>
                var row := old(rows)[id];
                && (verdict == SessionIssued <==> otp == row.otp)
                && (verdict == TooManyAttempts <==> otp != row.otp && row.attempts >= 4)
                && (verdict.Wrong? <==> otp != row.otp && row.attempts < 4)
                && (verdict.Wrong? ==> verdict.remaining == 4 - row.attempts)
                && (verdict.Wrong? <==> id in rows)
                && (id in rows ==> rows[id] == row.(attempts := row.attempts + 1))
      ensures forall other :: other != id ==>
                (other in rows <==> other in old(rows)) && (other in rows ==> rows[other] == old(rows)[other])
    {
      if id !in rows {
        return Invalid;
      }
      var row := rows[id];
      if now > row.expires {
        rows := rows - {id};
        return Invalid;
      }
      if otp != row.otp {
        var count := row.attempts + 1;
        rows := rows[id := row.(attempts := count)];
        if count >= ATTEMPT_CAP {
          rows := rows - {id};
          return TooManyAttempts;
        }
        return Wrong(ATTEMPT_CAP - count);
      }
      rows := rows - {id};
      verdict := SessionIssued;
    }

    method ResendOTP(id: RowId, otp: string, now: Time) returns (verdict: ResendVerdict)
      modifies this
      ensures id !in old(rows) ==> verdict == ResendInvalid && rows == old(rows)
      ensures id in old(rows) ==>
                var (v, row) := ResendEffect(Some(old(rows)[id]), old(rows)[id], otp, now);
                verdict == v && rows == Write(old(rows), id, row)
      ensures verdict == ResendInvalid <==> id !in old(rows) || now > old(rows)[id].expires
      ensures verdict == ResendInvalid <==> id !in rows
      ensures id in rows ==>
                var row := old(rows)[id];
                && (verdict.Throttled? <==> row.lastResend.Some? && now < row.lastResend.value + 60)
                && (verdict.Throttled? ==> verdict.availableAt == row.lastResend.value + 60)
                && (verdict == DailyCap <==>
                      && !verdict.Throttled? && row.resends >= 10
                      && row.windowStart.Some? && now <= row.windowStart.value + 86400)
                && (if verdict == Resent then SentAgain(row, rows[id], otp, now) else rows[id] == row)
      ensures forall other :: other != id ==>
                (other in rows <==> other in old(rows)) && (other in rows ==> rows[other] == old(rows)[other])
    {
      if id !in rows {
        return ResendInvalid;
      }
      var row := rows[id];
      if now > row.expires {
        rows := rows - {id};
        return ResendInvalid;
      }
      if row.lastResend.Some? && now - row.lastResend.value < RESEND_THROTTLE {
        assert rows == rows[id := row];
        return Throttled(row.lastResend.value + RESEND_THROTTLE);
      }
      var count, windowStart := row.resends, row.windowStart;
      if windowStart.None? || now - windowStart.value > DAY {
        count, windowStart := 0, Some(now);
      }
      if count >= RESEND_DAILY_LIMIT {
        assert rows == rows[id := row];
        return DailyCap;
      }
      count := count + 1;
      rows := rows[id := row.(otp := otp, lastResend := Some(now), resends := count, windowStart := windowStart)];
      verdict := Resent;
    }
  }

  // ---------------------------------------------------------------- interleavings

  /** What has happened to a row since it was inserted.  lost counts the wrong-code verdicts that were
      given although their transaction did not commit. */
  datatype Ledger = Ledger(
    user: User, expires: Time, sessions: seq<Time>, wrongs: nat, lost: nat, resends: seq<Time>)

  /** A resend that holds the user's lock, with the row it has read. */
  datatype Resending = Resending(id: RowId, seen: Row, readAt: Time)

  datatype State = State(
    now: Time,
    rows: map<RowId, Row>,
    verifying: map<RowId, Row>,
    resending: map<User, Resending>,
    ledger: map<RowId, Ledger>)

  /** Insert is the last statement of a login, Remove any deletion: re-login, reset or pruning.  The
      clock is read at some time t between re-reading the row and committing.  A commit that fails
      is noticed after a right code and after a resend (the transaction is abandoned), but not after
      a wrong code. */
  datatype Step =
    | Tick(to: Time)
    | Insert(id: RowId, user: User, otp: string, issuedAt: Time)
    | Remove(id: RowId)
    | VerifyRead(id: RowId)
    | VerifyFinish(id: RowId, otp: string, t: Time)
    | VerifyUncommitted(id: RowId, otp: string, t: Time)
    | VerifyAbandon(id: RowId)
    | ResendRead(id: RowId)
    | ResendFinish(user: User, otp: string, t: Time)
    | ResendAbandon(user: User)

  function Counted(l: Ledger, verdict: Verdict, t: Time): Ledger {
    match verdict
    case Wrong(_) => l.(wrongs := l.wrongs + 1)
    case TooManyAttempts => l.(wrongs := l.wrongs + 1)
    case SessionIssued => l.(sessions := l.sessions + [t])
    case Invalid => l
    case RowGone => l
  }

  function FinishVerify(s: State, id: RowId, otp: string, t: Time): State
    requires id in s.verifying && id in s.ledger
  {
    var (verdict, row) := VerifyEffect(Lookup(s.rows, id), s.verifying[id], otp, t);
    s.(rows := Write(s.rows, id, row), verifying := s.verifying - {id},
       ledger := s.ledger[id := Counted(s.ledger[id], verdict, t)])
  }

  /** The verdict is given, and the transaction rolled back. */
  function LoseVerify(s: State, id: RowId, otp: string, t: Time): State
    requires id in s.verifying && id in s.ledger
  {
    var (verdict, _) := VerifyEffect(Lookup(s.rows, id), s.verifying[id], otp, t);
    var l := s.ledger[id];
    s.(verifying := s.verifying - {id},
       ledger := s.ledger[id := if verdict.Wrong? || verdict.TooManyAttempts? then l.(lost := l.lost + 1) else l])
  }

  function FinishResend(s: State, user: User, otp: string, t: Time): State
    requires user in s.resending && s.resending[user].id in s.ledger
  {
    var id, seen := s.resending[user].id, s.resending[user].seen;
    var (verdict, row) := ResendEffect(Lookup(s.rows, id), seen, otp, t);
    var l := s.ledger[id];
    s.(rows := Write(s.rows, id, row), resending := s.resending - {user},
       ledger := s.ledger[id := if verdict == Resent then l.(resends := l.resends + [t]) else l])
  }

  function Apply(s: State, step: Step): State {
    match step
    case Tick(to) => if to > s.now then s.(now := to) else s
    case Insert(id, user, otp, issuedAt) =>
      if id !in s.ledger && issuedAt <= s.now then
        s.(rows := s.rows[id := NewRow(user, otp, issuedAt)],
           ledger := s.ledger[id := Ledger(user, issuedAt + OTP_TTL, [], 0, 0, [])])
      else
        s
    case Remove(id) => s.(rows := s.rows - {id})
    case VerifyRead(id) =>
      if id in s.rows && id !in s.verifying then s.(verifying := s.verifying[id := s.rows[id]]) else s
    case VerifyFinish(id, otp, t) =>
      if id in s.verifying && id in s.ledger && t <= s.now then FinishVerify(s, id, otp, t) else s
    case VerifyUncommitted(id, otp, t) =>
      if id in s.verifying && id in s.ledger && t <= s.now then LoseVerify(s, id, otp, t) else s
    case VerifyAbandon(id) => s.(verifying := s.verifying - {id})
    case ResendRead(id) =>
      if id in s.rows && s.rows[id].user !in s.resending then
        s.(resending := s.resending[s.rows[id].user := Resending(id, s.rows[id], s.now)])
      else
        s
    case ResendFinish(user, otp, t) =>
      if user in s.resending && s.resending[user].id in s.ledger && s.resending[user].readAt <= t <= s.now then
        FinishResend(s, user, otp, t)
      else
        s
    case ResendAbandon(user) => s.(resending := s.resending - {user})
  }

  function Run(steps: seq<Step>): State {
    if steps == [] then State(0, map[], map[], map[], map[]) else Apply(Run(Front(steps)), Last(steps))
  }

  // ---------------------------------------------------------------- what every run keeps

  ghost predicate Spaced(times: seq<Time>) {
    forall i :: 0 < i < |times| ==> times[i] - times[i - 1] >= RESEND_THROTTLE
  }

  /** The row's resend fields say what the ledger says. */
  ghost predicate ResendMatches(row: Row, l: Ledger, now: Time) {
    && row.user == l.user && row.expires == l.expires
    && row.resends == |l.resends| <= RESEND_DAILY_LIMIT
    && Spaced(l.resends)
    && if l.resends == [] then row.lastResend == None && row.windowStart == None
       else
         && row.lastResend == Some(Last(l.resends)) && Last(l.resends) <= now
         && row.windowStart == Some(l.resends[0]) && l.resends[0] >= l.expires - OTP_TTL
  }

  ghost predicate LedgerInv(l: Ledger, now: Time) {
    && |l.sessions| <= 1 && (forall i :: 0 <= i < |l.sessions| ==> l.sessions[i] <= l.expires)
    && l.wrongs <= ATTEMPT_CAP
    && |l.resends| <= RESEND_DAILY_LIMIT && Spaced(l.resends)
    && (forall i :: 0 <= i < |l.resends| ==> l.resends[i] <= l.expires)
    && l.expires - OTP_TTL <= now
  }

  ghost predicate RowInv(s: State, id: RowId)
    requires id in s.rows
  {
    && id in s.ledger
    && s.ledger[id].sessions == []
    && s.ledger[id].wrongs == s.rows[id].attempts < ATTEMPT_CAP
    && ResendMatches(s.rows[id], s.ledger[id], s.now)
  }

  ghost predicate VerifyingInv(s: State, id: RowId)
    requires id in s.verifying
  {
    id in s.ledger && s.ledger[id].sessions == [] && s.verifying[id].expires == s.ledger[id].expires
  }

  ghost predicate ResendingInv(s: State, user: User)
    requires user in s.resending
  {
    var r := s.resending[user];
    && r.id in s.ledger && s.ledger[r.id].user == user && r.readAt <= s.now
    && s.ledger[r.id].expires - OTP_TTL <= r.readAt
    && ResendMatches(r.seen, s.ledger[r.id], r.readAt)
  }

  ghost predicate Inv(s: State) {
    && (forall id :: id in s.ledger ==> LedgerInv(s.ledger[id], s.now))
    && (forall id :: id in s.rows ==> RowInv(s, id))
    && (forall id :: id in s.verifying ==> VerifyingInv(s, id))
    && (forall user :: user in s.resending ==> ResendingInv(s, user))
  }

  lemma {:induction false} VerifyKeepsRow(s: State, id: RowId, otp: string, t: Time)
    requires Inv(s) && id in s.verifying
    ensures id in s.ledger
    ensures var s' := FinishVerify(s, id, otp, t);
            LedgerInv(s'.ledger[id], s'.now) && (id in s'.rows ==> RowInv(s', id))
  {
    assert VerifyingInv(s, id);
    assert LedgerInv(s.ledger[id], s.now);
    if id in s.rows {
      assert RowInv(s, id);
    }
  }

  /** Verifying an id changes only its row, its lock and its counts. */
  lemma {:induction false} VerifyKeepsInv(s: State, id: RowId, otp: string, t: Time)
    requires Inv(s) && id in s.verifying
    ensures id in s.ledger && Inv(FinishVerify(s, id, otp, t))
  {
    VerifyKeepsRow(s, id, otp, t);
    var s' := FinishVerify(s, id, otp, t);
    assert VerifyingInv(s, id);
    forall other | other in s'.rows && other != id
      ensures RowInv(s', other)
    {
      assert RowInv(s, other);
    }
    forall other | other in s'.verifying
      ensures VerifyingInv(s', other)
    {
      assert VerifyingInv(s, other);
    }
    forall user | user in s'.resending
      ensures ResendingInv(s', user)
    {
      assert ResendingInv(s, user);
    }
  }

  lemma {:induction false} LostVerifyKeepsInv(s: State, id: RowId, otp: string, t: Time)
    requires Inv(s) && id in s.verifying
    ensures id in s.ledger && Inv(LoseVerify(s, id, otp, t))
  {
    assert VerifyingInv(s, id);
    var s' := LoseVerify(s, id, otp, t);
    assert LedgerInv(s.ledger[id], s.now);
    forall other | other in s'.rows
      ensures RowInv(s', other)
    {
      assert RowInv(s, other);
    }
    forall other | other in s'.verifying
      ensures VerifyingInv(s', other)
    {
      assert VerifyingInv(s, other);
    }
    forall user | user in s'.resending
      ensures ResendingInv(s', user)
    {
      assert ResendingInv(s, user);
    }
  }

  /** A resend that goes out comes at least a minute after the last one, and is not the eleventh:
      within a row's ten minutes the daily window never starts again. */
  lemma {:induction false} ResendGoesOut(l: Ledger, seen: Row, current: Option<Row>, readAt: Time, otp: string, t: Time)
    requires ResendMatches(seen, l, readAt) && l.expires - OTP_TTL <= readAt <= t
    requires ResendEffect(current, seen, otp, t).0 == Resent
    ensures |l.resends| < RESEND_DAILY_LIMIT && Spaced(l.resends + [t]) && t <= l.expires
    ensures current.Some? ==>
              var (_, row) := ResendEffect(current, seen, otp, t);
              row.Some? && row.value == current.value.(
                otp := otp, lastResend := Some(t), resends := |l.resends| + 1,
                windowStart := Some((l.resends + [t])[0]))
  {
  }

  lemma {:induction false} ResendKeepsRow(s: State, user: User, otp: string, t: Time)
    requires Inv(s) && user in s.resending && s.resending[user].readAt <= t <= s.now
    ensures s.resending[user].id in s.ledger
    ensures var s', id := FinishResend(s, user, otp, t), s.resending[user].id;
            LedgerInv(s'.ledger[id], s'.now) && (id in s'.rows ==> RowInv(s', id))
  {
    assert ResendingInv(s, user);
    var r := s.resending[user];
    var l := s.ledger[r.id];
    assert LedgerInv(l, s.now);
    if r.id in s.rows {
      assert RowInv(s, r.id);
    }
    var (verdict, row) := ResendEffect(Lookup(s.rows, r.id), r.seen, otp, t);
    if verdict == Resent {
      ResendGoesOut(l, r.seen, Lookup(s.rows, r.id), r.readAt, otp, t);
      assert Last(l.resends + [t]) == t;
    }
  }

  lemma {:induction false} ResendKeepsInv(s: State, user: User, otp: string, t: Time)
    requires Inv(s) && user in s.resending && s.resending[user].readAt <= t <= s.now
    ensures s.resending[user].id in s.ledger && Inv(FinishResend(s, user, otp, t))
  {
    ResendKeepsRow(s, user, otp, t);
    var s', id := FinishResend(s, user, otp, t), s.resending[user].id;
    assert ResendingInv(s, user);
    forall other | other in s'.rows && other != id
      ensures RowInv(s', other)
    {
      assert RowInv(s, other);
    }
    forall other | other in s'.verifying
      ensures VerifyingInv(s', other)
    {
      assert VerifyingInv(s, other);
    }
    forall u | u in s'.resending
      ensures ResendingInv(s', u)
    {
      assert ResendingInv(s, u);
    }
  }

  lemma {:induction false} TickKeepsInv(s: State, to: Time)
    requires Inv(s)
    ensures Inv(Apply(s, Tick(to)))
  {
  }

  lemma {:induction false} InsertKeepsInv(s: State, id: RowId, user: User, otp: string, issuedAt: Time)
    requires Inv(s) && id !in s.ledger && issuedAt <= s.now
    ensures Inv(Apply(s, Insert(id, user, otp, issuedAt)))
  {
    var s' := Apply(s, Insert(id, user, otp, issuedAt));
    assert RowInv(s', id) && LedgerInv(s'.ledger[id], s'.now);
    forall other | other in s'.rows && other != id
      ensures RowInv(s', other)
    {
      assert RowInv(s, other);
    }
    forall other | other in s'.verifying
      ensures VerifyingInv(s', other)
    {
      assert VerifyingInv(s, other);
    }
    forall u | u in s'.resending
      ensures ResendingInv(s', u)
    {
      assert ResendingInv(s, u);
    }
  }

  /** Removals and abandoned transactions leave everything else as it was. */
  lemma {:induction false} DropKeepsInv(s: State, step: Step)
    requires Inv(s)
    requires step.Remove? || step.VerifyAbandon? || step.ResendAbandon?
    ensures Inv(Apply(s, step))
  {
  }

  lemma {:induction false} ReadKeepsInv(s: State, step: Step)
    requires Inv(s) && (step.VerifyRead? || step.ResendRead?) && Apply(s, step) != s
    ensures Inv(Apply(s, step))
  {
    var s', id := Apply(s, step), step.id;
    assert RowInv(s, id) && LedgerInv(s.ledger[id], s.now);
    assert forall other :: other in s'.rows ==> RowInv(s, other) && RowInv(s', other);
    forall other | other in s'.verifying
      ensures VerifyingInv(s', other)
    {
      if other in s.verifying {
        assert VerifyingInv(s, other);
      }
    }
    forall u | u in s'.resending
      ensures ResendingInv(s', u)
    {
      if u in s.resending {
        assert ResendingInv(s, u);
      }
    }
  }

  lemma {:induction false} ApplyKeepsInv(s: State, step: Step)
    requires Inv(s)
    ensures Inv(Apply(s, step))
  {
    if Apply(s, step) != s {
      match step
      case Tick(to) => TickKeepsInv(s, to);
      case Insert(id, user, otp, issuedAt) => InsertKeepsInv(s, id, user, otp, issuedAt);
      case VerifyFinish(id, otp, t) => VerifyKeepsInv(s, id, otp, t);
      case VerifyUncommitted(id, otp, t) => LostVerifyKeepsInv(s, id, otp, t);
      case ResendFinish(user, otp, t) => ResendKeepsInv(s, user, otp, t);
      case Remove(_) => DropKeepsInv(s, step);
      case VerifyAbandon(_) => DropKeepsInv(s, step);
      case ResendAbandon(_) => DropKeepsInv(s, step);
      case VerifyRead(_) => ReadKeepsInv(s, step);
      case ResendRead(_) => ReadKeepsInv(s, step);
    }
  }

  lemma {:induction false} RunKeepsInv(steps: seq<Step>)
    ensures Inv(Run(steps))
  {
    if steps != [] {
      RunKeepsInv(Front(steps));
      ApplyKeepsInv(Run(Front(steps)), Last(steps));
    }
  }

  /** For every run and every row that was ever inserted: at most one session, not after the expiry;
      at most five wrong-code verdicts, not counting the lost ones; at most ten resends, a minute or
      more apart; and as long as the row is there, fewer than five recorded failures, one for each
      verdict, and no session. */
  lemma {:induction false} EveryRowIsBounded(steps: seq<Step>, id: RowId)
    requires id in Run(steps).ledger
    ensures var s := Run(steps);
            var l := s.ledger[id];
            && |l.sessions| <= 1 && (forall i :: 0 <= i < |l.sessions| ==> l.sessions[i] <= l.expires)
            && l.wrongs <= 5
            && |l.resends| <= 10
            && (forall i, j :: 0 <= i < j < |l.resends| ==> l.resends[j] - l.resends[i] >= (j - i) * 60)
            && (id in s.rows ==>
                  && l.sessions == [] && s.rows[id].attempts == l.wrongs < 5
                  && s.rows[id].resends == |l.resends|)
  {
    RunKeepsInv(steps);
    var s := Run(steps);
    assert LedgerInv(s.ledger[id], s.now);
    forall i, j | 0 <= i < j < |s.ledger[id].resends|
      ensures s.ledger[id].resends[j] - s.ledger[id].resends[i] >= (j - i) * RESEND_THROTTLE
    {
      SpacedApart(s.ledger[id].resends, i, j);
    }
    if id in s.rows {
      assert RowInv(s, id);
    }
  }

  lemma {:induction false} SpacedApart(times: seq<Time>, i: nat, j: nat)
    requires Spaced(times) && i < j < |times|
    ensures times[j] - times[i] >= (j - i) * RESEND_THROTTLE
    decreases j
  {
    if i + 1 < j {
      SpacedApart(times, i, j - 1);
    }
  }

  /** How many verifications of a row answered although their transaction did not commit. */
  function Uncommitted(steps: seq<Step>, id: RowId): nat {
    if steps == [] then 0
    else
      var step := Last(steps);
      Uncommitted(Front(steps), id) + if step.VerifyUncommitted? && step.id == id then 1 else 0
  }

  lemma {:induction false} ApplyLoses(s: State, step: Step, id: RowId)
    requires id in Apply(s, step).ledger
    ensures Apply(s, step).ledger[id].lost
            <= (if id in s.ledger then s.ledger[id].lost else 0)
               + if step.VerifyUncommitted? && step.id == id then 1 else 0
  {
    if step.VerifyFinish? && Apply(s, step) != s {
      assert Apply(s, step).ledger.Keys == s.ledger.Keys + {step.id};
    }
  }

  lemma {:induction false} LostBounded(steps: seq<Step>, id: RowId)
    requires id in Run(steps).ledger
    ensures Run(steps).ledger[id].lost <= Uncommitted(steps, id)
  {
    if steps != [] {
      var before := Run(Front(steps));
      ApplyLoses(before, Last(steps), id);
      if id in before.ledger {
        LostBounded(Front(steps), id);
      }
    }
  }

  /** All the wrong-code answers a row ever gave, the lost ones included: at most five when every
      transaction commits, and otherwise at most one more for each that did not. */
  lemma {:induction false} GuessesBounded(steps: seq<Step>, id: RowId)
    requires id in Run(steps).ledger
    ensures var l := Run(steps).ledger[id];
            && l.wrongs + l.lost <= ATTEMPT_CAP + Uncommitted(steps, id)
            && (Uncommitted(steps, id) == 0 ==> l.wrongs + l.lost <= ATTEMPT_CAP)
  {
    LostBounded(steps, id);
    EveryRowIsBounded(steps, id);
  }

  /** A login, c wrong codes, and n more whose transactions all fail to commit. */
  function Guessing(c: nat, n: nat): seq<Step> {
    if n > 0 then Guessing(c, n - 1) + [VerifyRead(0)] + [VerifyUncommitted(0, "999999", 0)]
    else if c > 0 then Guessing(c - 1, 0) + [VerifyRead(0)] + [VerifyFinish(0, "999999", 0)]
    else [Insert(0, 0, "000000", 0)]
  }

  /** The row with c failures recorded, and n lost verdicts. */
  function Guessed(c: nat, n: nat): State {
    State(0, map[0 := GuessedRow(c)], map[], map[], map[0 := Ledger(0, OTP_TTL, [], c, n, [])])
  }

  function GuessedRow(c: nat): Row {
    NewRow(0, "000000", 0).(attempts := c)
  }

  lemma {:induction false} ReadGuessed(c: nat, n: nat)
    ensures Apply(Guessed(c, n), VerifyRead(0)) == Guessed(c, n).(verifying := map[0 := GuessedRow(c)])
    ensures Apply(Guessed(c, n), VerifyRead(0)).verifying - {0} == map[]
  {
  }

  lemma {:induction false} LoseOne(c: nat, n: nat)
    ensures Apply(Apply(Guessed(c, n), VerifyRead(0)), VerifyUncommitted(0, "999999", 0)) == Guessed(c, n + 1)
  {
    ReadGuessed(c, n);
    assert "999999"[0] != "000000"[0];
  }

  lemma {:induction false} CountOne(c: nat)
    requires c + 1 < ATTEMPT_CAP
    ensures Apply(Apply(Guessed(c, 0), VerifyRead(0)), VerifyFinish(0, "999999", 0)) == Guessed(c + 1, 0)
  {
    ReadGuessed(c, 0);
    assert "999999"[0] != "000000"[0];
  }

  lemma {:induction false} CountLast(n: nat)
    ensures var s := Apply(Apply(Guessed(ATTEMPT_CAP - 1, n), VerifyRead(0)), VerifyFinish(0, "999999", 0));
            0 in s.ledger && s.ledger[0].wrongs == ATTEMPT_CAP && s.ledger[0].lost == n
  {
    ReadGuessed(ATTEMPT_CAP - 1, n);
    assert "999999"[0] != "000000"[0];
  }

  lemma {:induction false} RunTwo(steps: seq<Step>, a: Step, b: Step)
    ensures Run(steps + [a] + [b]) == Apply(Apply(Run(steps), a), b)
    ensures a == VerifyRead(0) ==> Uncommitted(steps + [a] + [b], 0) == Uncommitted(steps, 0) + Uncommitted([b], 0)
  {
    assert Front(steps + [a] + [b]) == steps + [a] && Front(steps + [a]) == steps && Front([b]) == [];
    if a == VerifyRead(0) {
      assert Uncommitted(steps + [a], 0) == Uncommitted(steps, 0);
    }
  }

  lemma {:induction false} OneUncommitted(step: Step)
    ensures Uncommitted([step], 0) == if step.VerifyUncommitted? && step.id == 0 then 1 else 0
  {
    assert Front([step]) == [];
  }

  lemma {:induction false} GuessingRun(c: nat, n: nat)
    requires c < ATTEMPT_CAP
    ensures Run(Guessing(c, n)) == Guessed(c, n) && Uncommitted(Guessing(c, n), 0) == n
  {
    if n > 0 {
      GuessingRun(c, n - 1);
      LoseOne(c, n - 1);
      OneUncommitted(VerifyUncommitted(0, "999999", 0));
      RunTwo(Guessing(c, n - 1), VerifyRead(0), VerifyUncommitted(0, "999999", 0));
    } else if c > 0 {
      GuessingRun(c - 1, 0);
      CountOne(c - 1);
      OneUncommitted(VerifyFinish(0, "999999", 0));
      RunTwo(Guessing(c - 1, 0), VerifyRead(0), VerifyFinish(0, "999999", 0));
    } else {
      OneUncommitted(Insert(0, 0, "000000", 0));
      assert Front(Guessing(0, 0)) == [];
    }
  }

  /** The cap of five fails when commits fail: for every n there is a run in which one row answers n
      wrong codes and is still there with no failure recorded. */
  lemma {:induction false} LostGuessesUnbounded(n: nat)
    ensures Run(Guessing(0, n)) == Guessed(0, n) && Uncommitted(Guessing(0, n), 0) == n
  {
    GuessingRun(0, n);
  }

  /** Each commit that fails lets one more wrong code be answered: four that count, k that are lost, and
      one that counts and removes the row. */
  lemma {:induction false} GuessesReached(k: nat)
    ensures var steps := Guessing(ATTEMPT_CAP - 1, k) + [VerifyRead(0)] + [VerifyFinish(0, "999999", 0)];
            && 0 in Run(steps).ledger && Uncommitted(steps, 0) == k
            && Run(steps).ledger[0].wrongs + Run(steps).ledger[0].lost == ATTEMPT_CAP + k
  {
    GuessingRun(ATTEMPT_CAP - 1, k);
    CountLast(k);
    OneUncommitted(VerifyFinish(0, "999999", 0));
    RunTwo(Guessing(ATTEMPT_CAP - 1, k), VerifyRead(0), VerifyFinish(0, "999999", 0));
  }

  /** In this run the row, if at most k of its commits failed, answers at most n wrong codes. */
  ghost predicate GuessesWithin(steps: seq<Step>, id: RowId, k: nat, n: nat) {
    id in Run(steps).ledger && Uncommitted(steps, id) <= k ==>
      Run(steps).ledger[id].wrongs + Run(steps).ledger[id].lost <= n
  }

  /** With at most k failed commits, the number of wrong codes that a row can answer is bounded by n
      exactly from n = 5 + k on; so the cap of five holds if and only if no commit fails. */
  lemma {:induction false} CapExactly(k: nat, n: nat)
    ensures (forall steps: seq<Step>, id: RowId :: GuessesWithin(steps, id, k, n)) <==> n >= ATTEMPT_CAP + k
    ensures (forall steps: seq<Step>, id: RowId :: GuessesWithin(steps, id, k, ATTEMPT_CAP)) <==> k == 0
  {
    BoundExactly(k, n);
    BoundExactly(k, ATTEMPT_CAP);
  }

  lemma {:induction false} BoundExactly(k: nat, n: nat)
    ensures (forall steps: seq<Step>, id: RowId :: GuessesWithin(steps, id, k, n)) <==> n >= ATTEMPT_CAP + k
  {
    if n >= ATTEMPT_CAP + k {
      forall steps: seq<Step>, id: RowId
        ensures GuessesWithin(steps, id, k, n)
      {
        if id in Run(steps).ledger {
          GuessesBounded(steps, id);
        }
      }
    } else {
      GuessesReached(k);
      assert !GuessesWithin(Guessing(ATTEMPT_CAP - 1, k) + [VerifyRead(0)] + [VerifyFinish(0, "999999", 0)], 0, k, n);
    }
  }

  /** What a step adds to a row's ledger: a session exactly when a verification ends that was given the
      code of the row it has read, in time; a wrong code when it was given another one, the row being
      still there. */
  lemma {:induction false} CodesDecide(steps: seq<Step>, step: Step, id: RowId)
    requires id in Run(steps).ledger
    ensures var s, s' := Run(steps), Apply(Run(steps), step);
            && id in s'.ledger
            && s'.ledger[id].sessions == s.ledger[id].sessions
                 + (if Ends(s, step, id) && step.otp == s.verifying[id].otp then [step.t] else [])
            && s'.ledger[id].wrongs == s.ledger[id].wrongs
                 + (if Ends(s, step, id) && step.otp != s.verifying[id].otp && id in s.rows then 1 else 0)
            && s'.ledger[id].lost == s.ledger[id].lost
                 + (if Lapses(s, step, id) && step.otp != s.verifying[id].otp && id in s.rows then 1 else 0)
            && (step.VerifyUncommitted? ==> s'.rows == s.rows)
  {
    RunKeepsInv(steps);
    LedgerOf(Run(steps), step, id);
  }

  /** A verification of the row that holds its lock ends in time, and its transaction does not commit. */
  predicate Lapses(s: State, step: Step, id: RowId) {
    && step.VerifyUncommitted? && step.id == id && id in s.verifying
    && step.t <= s.now && step.t <= s.verifying[id].expires
  }

  /** A verification of the row that holds its lock ends, and commits, before the row's expiry. */
  predicate Ends(s: State, step: Step, id: RowId) {
    && step.VerifyFinish? && step.id == id && id in s.verifying
    && step.t <= s.now && step.t <= s.verifying[id].expires
  }

  lemma {:induction false} LedgerOf(s: State, step: Step, id: RowId)
    requires Inv(s) && id in s.ledger
    ensures var l, l' := s.ledger[id], Apply(s, step).ledger[id];
            && l'.sessions == l.sessions
                 + (if Ends(s, step, id) && step.otp == s.verifying[id].otp then [step.t] else [])
            && l'.wrongs == l.wrongs
                 + (if Ends(s, step, id) && step.otp != s.verifying[id].otp && id in s.rows then 1 else 0)
            && l'.lost == l.lost
                 + (if Lapses(s, step, id) && step.otp != s.verifying[id].otp && id in s.rows then 1 else 0)
            && (step.VerifyUncommitted? ==> Apply(s, step).rows == s.rows)
  {
    assert s.ledger[id].sessions + [] == s.ledger[id].sessions;
    if step.VerifyFinish? && step.id == id && id in s.verifying && step.t <= s.now {
      FinishCounts(s, id, step.otp, step.t);
    } else if step.VerifyUncommitted? && step.id == id && id in s.verifying && step.t <= s.now {
      LapseCounts(s, id, step.otp, step.t);
    } else {
      OtherLedgers(s, step, id);
    }
  }

  lemma {:induction false} OtherLedgers(s: State, step: Step, id: RowId)
    requires id in s.ledger
    requires step.VerifyFinish? || step.VerifyUncommitted? ==>
               !(step.id == id && id in s.verifying && step.t <= s.now)
    ensures var s' := Apply(s, step);
            && id in s'.ledger && s'.ledger[id].sessions == s.ledger[id].sessions
            && s'.ledger[id].wrongs == s.ledger[id].wrongs && s'.ledger[id].lost == s.ledger[id].lost
    ensures step.VerifyUncommitted? ==> Apply(s, step).rows == s.rows
  {
  }

  lemma {:induction false} LapseCounts(s: State, id: RowId, otp: string, t: Time)
    requires id in s.verifying && id in s.ledger
    ensures var s', l, seen := LoseVerify(s, id, otp, t), s.ledger[id], s.verifying[id];
            && s'.ledger[id] == l.(lost := l.lost +
                 if t <= seen.expires && otp != seen.otp && id in s.rows then 1 else 0)
            && s'.rows == s.rows
  {
  }

  lemma {:induction false} FinishCounts(s: State, id: RowId, otp: string, t: Time)
    requires id in s.verifying && id in s.ledger
    ensures var l, l', seen := s.ledger[id], FinishVerify(s, id, otp, t).ledger[id], s.verifying[id];
            && l'.sessions == l.sessions + (if t <= seen.expires && otp == seen.otp then [t] else [])
            && l'.wrongs == l.wrongs + (if t <= seen.expires && otp != seen.otp && id in s.rows then 1 else 0)
            && l'.lost == l.lost
  {
    assert s.ledger[id].sessions + [] == s.ledger[id].sessions;
  }

  /** What a verification has read was the row at an earlier moment. */
  lemma {:induction false} SeenWasThere(steps: seq<Step>, id: RowId) returns (k: nat)
    requires id in Run(steps).verifying
    ensures k <= |steps| && Lookup(Run(steps[..k]).rows, id) == Some(Run(steps).verifying[id])
  {
    var s := Run(Front(steps));
    if id in s.verifying && s.verifying[id] == Run(steps).verifying[id] {
      k := SeenWasThere(Front(steps), id);
      assert Front(steps)[..k] == steps[..k];
    } else {
      k := |steps|;
      assert steps[..k] == steps;
    }
  }

  /** When the row has been removed meanwhile, a right code still gives the session, a late answer is
      invalid, and a wrong code finds nothing to count it on. */
  lemma {:induction false} RemovedMeanwhile(seen: Row, otp: string, now: Time)
    ensures VerifyEffect(None, seen, otp, now)
            == (if now > seen.expires then Invalid else if otp == seen.otp then SessionIssued else RowGone, None)
  {
  }

  // ---------------------------------------------------------------- locks

  /** This step ends the verification that holds the row's lock. */
  predicate Unlocks(s: State, step: Step, id: RowId) {
    || step == VerifyAbandon(id)
    || (step.VerifyFinish? && step.id == id && step.t <= s.now)
    || (step.VerifyUncommitted? && step.id == id && step.t <= s.now)
  }

  /** The row's lock is taken by reading the row, when it is there and free, with the row as it is then; it
      is kept, with that row, until its verification ends. */
  lemma {:induction false} RowLockExactly(steps: seq<Step>, step: Step, id: RowId)
    ensures var s, s' := Run(steps), Apply(Run(steps), step);
            Lookup(s'.verifying, id) ==
            if id in s.verifying then (if Unlocks(s, step, id) then None else Some(s.verifying[id]))
            else if step == VerifyRead(id) then Lookup(s.rows, id)
            else None
  {
    RunKeepsInv(steps);
    RowLockStep(Run(steps), step, id);
  }

  lemma {:induction false} RowLockStep(s: State, step: Step, id: RowId)
    requires Inv(s)
    ensures Lookup(Apply(s, step).verifying, id) ==
            if id in s.verifying then (if Unlocks(s, step, id) then None else Some(s.verifying[id]))
            else if step == VerifyRead(id) then Lookup(s.rows, id)
            else None
  {
    if id in s.verifying {
      assert VerifyingInv(s, id);
    }
  }

  predicate UnlocksUser(s: State, step: Step, user: User)
    requires user in s.resending
  {
    || step == ResendAbandon(user)
    || (step.ResendFinish? && step.user == user && s.resending[user].readAt <= step.t <= s.now)
  }

  function ResendOf(resending: map<User, Resending>, user: User): Option<Resending> {
    if user in resending then Some(resending[user]) else None
  }

  /** And so is the user's lock by a resend. */
  lemma {:induction false} UserLockExactly(steps: seq<Step>, step: Step, user: User)
    ensures var s, s' := Run(steps), Apply(Run(steps), step);
            ResendOf(s'.resending, user) ==
            if user in s.resending then (if UnlocksUser(s, step, user) then None else Some(s.resending[user]))
            else if step.ResendRead? && step.id in s.rows && s.rows[step.id].user == user then
              Some(Resending(step.id, s.rows[step.id], s.now))
            else None
  {
    RunKeepsInv(steps);
    UserLockStep(Run(steps), step, user);
  }

  lemma {:induction false} UserLockStep(s: State, step: Step, user: User)
    requires Inv(s)
    ensures ResendOf(Apply(s, step).resending, user) ==
            if user in s.resending then (if UnlocksUser(s, step, user) then None else Some(s.resending[user]))
            else if step.ResendRead? && step.id in s.rows && s.rows[step.id].user == user then
              Some(Resending(step.id, s.rows[step.id], s.now))
            else None
  {
    if user in s.resending {
      assert ResendingInv(s, user);
    }
  }

  /** A row comes by its insertion alone, and goes by a removal, by a verification that succeeds, fails
      for the fifth time or comes too late, or by a resend that comes too late. */
  lemma {:induction false} RowsGoExactly(steps: seq<Step>, step: Step, id: RowId)
    ensures var s, s' := Run(steps), Apply(Run(steps), step);
            && (id in s'.rows && id !in s.rows ==>
                  step.Insert? && step.id == id && s'.rows[id] == NewRow(step.user, step.otp, step.issuedAt)
                  && s'.rows[id].expires == step.issuedAt + 600)
            && (id in s.rows ==> (id !in s'.rows <==> Goes(s, step, id)))
            && s'.now == if step.Tick? && step.to > s.now then step.to else s.now
  {
    RunKeepsInv(steps);
    var s := Run(steps);
    if id in s.rows {
      RowGoes(s, step, id);
    }
    if id !in s.rows && id in Apply(s, step).rows {
      RowComes(s, step, id);
    }
  }

  predicate Goes(s: State, step: Step, id: RowId)
    requires id in s.rows
  {
    || step == Remove(id)
    || (&& step.VerifyFinish? && step.id == id && id in s.verifying && step.t <= s.now
        && (step.t > s.rows[id].expires || step.otp == s.verifying[id].otp || s.rows[id].attempts >= 4))
    || (&& step.ResendFinish? && step.user in s.resending && s.resending[step.user].id == id
        && UnlocksUser(s, step, step.user) && step.t > s.rows[id].expires)
  }

  lemma {:induction false} RowComes(s: State, step: Step, id: RowId)
    requires id !in s.rows && id in Apply(s, step).rows
    ensures step.Insert? && step.id == id && Apply(s, step).rows[id] == NewRow(step.user, step.otp, step.issuedAt)
  {
  }

  lemma {:induction false} RowGoes(s: State, step: Step, id: RowId)
    requires Inv(s) && id in s.rows
    ensures id !in Apply(s, step).rows <==> Goes(s, step, id)
  {
    assert RowInv(s, id);
    if step.VerifyFinish? {
      if step.id in s.verifying {
        assert VerifyingInv(s, step.id);
        FinishRemoves(s, step.id, step.otp, step.t, id);
      }
    } else if step.ResendFinish? {
      if step.user in s.resending {
        assert ResendingInv(s, step.user);
        ResendRemoves(s, step.user, step.otp, step.t, id);
      }
    } else {
      OthersRemove(s, step, id);
    }
  }

  lemma {:induction false} OthersRemove(s: State, step: Step, id: RowId)
    requires id in s.rows && !step.VerifyFinish? && !step.ResendFinish?
    ensures id !in Apply(s, step).rows <==> step == Remove(id)
  {
  }

  lemma {:induction false} FinishRemoves(s: State, target: RowId, otp: string, t: Time, id: RowId)
    requires target in s.verifying && target in s.ledger && id in s.rows
    requires target == id ==> s.verifying[id].expires == s.rows[id].expires
    ensures id !in FinishVerify(s, target, otp, t).rows <==>
              target == id && (t > s.rows[id].expires || otp == s.verifying[id].otp || s.rows[id].attempts >= 4)
  {
  }

  lemma {:induction false} ResendRemoves(s: State, user: User, otp: string, t: Time, id: RowId)
    requires user in s.resending && s.resending[user].id in s.ledger && id in s.rows
    requires s.resending[user].id == id ==> s.resending[user].seen.expires == s.rows[id].expires
    ensures id !in FinishResend(s, user, otp, t).rows <==> s.resending[user].id == id && t > s.rows[id].expires
  {
  }

  /** Whatever happens, a row that stays keeps its user and expiry, and its failures never go back;
      only a verification adds one, and only a resend changes the code. */
  ghost predicate Aged(row: Row, row': Row, step: Step, id: RowId) {
    && row'.user == row.user && row'.expires == row.expires
    && row.attempts <= row'.attempts <= row.attempts + 1
    && (row'.attempts > row.attempts ==> step.VerifyFinish? && step.id == id && row'.otp == row.otp)
    && (row'.otp != row.otp || row'.resends != row.resends ==> step.ResendFinish? && step.user == row.user)
  }

  lemma {:induction false} RowsOnlyAge(steps: seq<Step>, step: Step, id: RowId)
    requires id in Run(steps).rows && id in Apply(Run(steps), step).rows
    ensures Aged(Run(steps).rows[id], Apply(Run(steps), step).rows[id], step, id)
  {
    RunKeepsInv(steps);
    var s := Run(steps);
    assert RowInv(s, id);
    if step.VerifyFinish? && Apply(s, step) != s {
      VerifyAges(s, step.id, step.otp, step.t, id);
    } else if step.ResendFinish? && Apply(s, step) != s {
      assert ResendingInv(s, step.user);
      ResendAges(s, step.user, step.otp, step.t, id);
    }
  }

  lemma {:induction false} VerifyAges(s: State, target: RowId, otp: string, t: Time, id: RowId)
    requires target in s.verifying && target in s.ledger
    requires id in s.rows && id in FinishVerify(s, target, otp, t).rows
    ensures Aged(s.rows[id], FinishVerify(s, target, otp, t).rows[id], VerifyFinish(target, otp, t), id)
  {
  }

  lemma {:induction false} ResendAges(s: State, user: User, otp: string, t: Time, id: RowId)
    requires user in s.resending && s.resending[user].id in s.ledger
    requires id in s.rows && id in FinishResend(s, user, otp, t).rows
    requires s.resending[user].id == id ==> s.rows[id].user == user
    ensures Aged(s.rows[id], FinishResend(s, user, otp, t).rows[id], ResendFinish(user, otp, t), id)
  {
  }
}
