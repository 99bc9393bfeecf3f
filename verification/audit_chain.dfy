/**
 The audit log's hash chain: the unseparated hash input, the two verifiers, and what a
 verified chain says about the rows in it.

 SHA-256 is an arbitrary function from text to text.  It is never assumed injective:
 where two logs disagree, a collision is computed from them.
 */
module AuditChain {
  import opened Prelude

  type Digest = string -> string

  function ZeroDigits(n: nat): (s: string)
    ensures |s| == n && forall i :: 0 <= i < n ==> s[i] == '0'
  {
    seq(n, _ => '0')
  }

  /** The sentinel previous hash of the first entry. */
  const GENESIS_HASH: string := ZeroDigits(64)

  /** A stored row.  Timestamps and UUIDs are held in the text form that is hashed. */
  datatype AuditRow = AuditRow(
    id: int,
    createdAt: string,
    adminID: string,
    action: string,
    targetType: string,
    targetID: Option<string>,
    payloadJSON: string,
    prevHash: string,
    entryHash: string)

  /** SHA-256 in hex: every digest has 64 characters. */
  ghost predicate IsDigest(h: Digest) {
    forall x :: |h(x)| == 64
  }

  function NullableUUID(id: Option<string>): string {
    match id
    case None => ""
    case Some(u) => u
  }

  /** What is fed to the hasher: six fields one after another, without a separator. */
  function HashInput(prevHash: string, row: AuditRow): string {
    prevHash + row.createdAt + row.adminID + row.action + NullableUUID(row.targetID) + row.payloadJSON
  }

  function ComputeHash(h: Digest, prevHash: string, row: AuditRow): string {
    h(HashInput(prevHash, row))
  }

  // ---------------------------------------------------------------- valid chains

  /** The hash that row k is chained to. */
  function PrevOf(rows: seq<AuditRow>, k: nat): string
    requires k <= |rows|
  {
    if k == 0 then GENESIS_HASH else rows[k - 1].entryHash
  }

  function HeadHash(rows: seq<AuditRow>): string {
    PrevOf(rows, |rows|)
  }

  predicate LinkOk(h: Digest, rows: seq<AuditRow>, k: nat)
    requires k < |rows|
  {
    rows[k].entryHash == ComputeHash(h, PrevOf(rows, k), rows[k])
  }

  ghost predicate ChainValid(h: Digest, rows: seq<AuditRow>) {
    forall k :: 0 <= k < |rows| ==> LinkOk(h, rows, k)
  }

  ghost predicate FirstBroken(h: Digest, rows: seq<AuditRow>, k: int) {
    && 0 <= k < |rows|
    && !LinkOk(h, rows, k)
    && forall j :: 0 <= j < k ==> LinkOk(h, rows, j)
  }

  /** The answer a verifier owes for `rows`. */
  ghost predicate Verdict(h: Digest, rows: seq<AuditRow>, valid: bool, firstBrokenID: int) {
    if ChainValid(h, rows) then
      valid && firstBrokenID == 0
    else
      !valid && exists k :: FirstBroken(h, rows, k) && firstBrokenID == rows[k].id
  }

  /** The batch verifier. */
  method VerifyChain(h: Digest, rows: seq<AuditRow>) returns (valid: bool, firstBrokenID: int)
    ensures Verdict(h, rows, valid, firstBrokenID)
  {
    var prevHash := GENESIS_HASH;
    for i := 0 to |rows|
      invariant prevHash == PrevOf(rows, i)
      invariant forall j :: 0 <= j < i ==> LinkOk(h, rows, j)
    {
      var row := rows[i];
      var expected := ComputeHash(h, prevHash, row);
      if expected != row.entryHash {
        assert FirstBroken(h, rows, i);
        return false, row.id;
      }
      prevHash := row.entryHash;
    }
    return true, 0;
  }

  /** A verdict is determined by the rows: the two verifiers cannot disagree. */
  lemma {:induction false} VerdictUnique(h: Digest, rows: seq<AuditRow>, v1: bool, id1: int, v2: bool, id2: int)
    requires Verdict(h, rows, v1, id1) && Verdict(h, rows, v2, id2)
    ensures v1 == v2 && id1 == id2
  {
  }

  /** The incremental verifier. */
  class ChainVerifier {
    const h: Digest
    var prevHash: string
    var broken: bool
    var brokenID: int
    ghost var pushed: seq<AuditRow>

    ghost predicate Valid()
      reads this
    {
      && (!broken ==> ChainValid(h, pushed) && prevHash == HeadHash(pushed))
      && (broken ==> exists k :: FirstBroken(h, pushed, k) && brokenID == pushed[k].id)
    }

    constructor (h: Digest)
      ensures Valid() && pushed == [] && this.h == h
    {
      this.h := h;
      prevHash, broken, brokenID := GENESIS_HASH, false, 0;
      pushed := [];
    }

    method Push(row: AuditRow)
      requires Valid()
      modifies this
      ensures Valid() && pushed == old(pushed) + [row]
    {
      ghost var before := pushed;
      pushed := pushed + [row];
      assert forall j :: 0 <= j < |before| ==> LinkOk(h, pushed, j) == LinkOk(h, before, j);
      if broken {
        ghost var k :| FirstBroken(h, before, k) && brokenID == before[k].id;
        assert FirstBroken(h, pushed, k);
        return;
      }
      var expected := ComputeHash(h, prevHash, row);
      if expected != row.entryHash {
        broken, brokenID := true, row.id;
        assert FirstBroken(h, pushed, |before|);
        return;
      }
      prevHash := row.entryHash;
    }

    method Done() returns (valid: bool, firstBrokenID: int)
      requires Valid()
      ensures Verdict(h, pushed, valid, firstBrokenID)
    {
      if broken {
        return false, brokenID;
      }
      return true, 0;
    }
  }

  /** Cutting rows off the end of a valid log leaves a valid log (and is not noticed). */
  lemma {:induction false} PrefixValid(h: Digest, rows: seq<AuditRow>, n: nat)
    requires ChainValid(h, rows) && n <= |rows|
    ensures ChainValid(h, rows[..n])
  {
    forall k | 0 <= k < n
      ensures LinkOk(h, rows[..n], k)
    {
      assert LinkOk(h, rows, k);
    }
  }

  lemma {:induction false} AppendValid(h: Digest, rows: seq<AuditRow>, row: AuditRow)
    requires ChainValid(h, rows)
    requires row.entryHash == ComputeHash(h, HeadHash(rows), row)
    ensures ChainValid(h, rows + [row])
  {
    forall k | 0 <= k < |rows| + 1
      ensures LinkOk(h, rows + [row], k)
    {
      if k < |rows| {
        assert LinkOk(h, rows, k);
      }
    }
  }

  /** Two rows with the same hashed fields. */
  predicate SameHashedFields(a: AuditRow, b: AuditRow) {
    && a.createdAt == b.createdAt
    && a.adminID == b.adminID
    && a.action == b.action
    && a.targetID == b.targetID
    && a.payloadJSON == b.payloadJSON
  }

  /** The verifiers look at no more than the hashed fields and the entry hashes: ids, target
      types and even the stored previous hashes can be rewritten unnoticed. */
  lemma {:induction false} UnhashedColumnsIgnored(h: Digest, a: seq<AuditRow>, b: seq<AuditRow>)
    requires |a| == |b|
    requires forall k :: 0 <= k < |a| ==> SameHashedFields(a[k], b[k]) && a[k].entryHash == b[k].entryHash
    ensures ChainValid(h, a) == ChainValid(h, b)
  {
    forall k | 0 <= k < |a|
      ensures LinkOk(h, a, k) == LinkOk(h, b, k)
    {
      assert PrevOf(a, k) == PrevOf(b, k);
    }
  }

  // ---------------------------------------------------------------- decoding the hash input

  /** The shapes that make the concatenation decodable: a UTC timestamp whose only `Z` is its
      last character, 36-character UUIDs, an action without `-` and `{`, and a JSON object. */
  predicate WellFormed(row: AuditRow) {
    && row.createdAt != [] && Last(row.createdAt) == 'Z' && 'Z' !in Front(row.createdAt)
    && |row.adminID| == 36
    && '-' !in row.action && '{' !in row.action
    && (row.targetID.Some? ==>
          |row.targetID.value| == 36 && '-' in row.targetID.value && '{' !in row.targetID.value)
    && row.payloadJSON != [] && row.payloadJSON[0] == '{'
  }

  /** The index of the first `c` in `s`, or |s|. */
  function FirstIndex(s: string, c: char): (i: nat)
    ensures i <= |s|
  {
    if s == [] || s[0] == c then
      0
    else
      1 + FirstIndex(s[1..], c)
  }

  lemma {:induction false} FirstIndexIs(s: string, c: char, i: nat)
    requires i < |s| && s[i] == c
    requires forall j :: 0 <= j < i ==> s[j] != c
    ensures FirstIndex(s, c) == i
  {
    if i > 0 {
      FirstIndexIs(s[1..], c, i - 1);
    }
  }

  datatype Decoded = Decoded(
    prevHash: string,
    createdAt: string,
    adminID: string,
    action: string,
    targetID: Option<string>,
    payloadJSON: string)

  /** Reads the six fields back out of a hash input. */
  function Decode(input: string): Decoded {
    var afterPrev := Drop(input, 64);
    var z := FirstIndex(afterPrev, 'Z') + 1;
    var afterTime := Drop(afterPrev, z);
    var tail := Drop(afterTime, 36);
    var brace := FirstIndex(tail, '{');
    var (action, targetID) := SplitTarget(tail[..brace]);
    Decoded(Take(input, 64), Take(afterPrev, z), Take(afterTime, 36), action, targetID, tail[brace..])
  }

  /** Only a UUID brings a `-`, and it is the last 36 characters. */
  function SplitTarget(mid: string): (string, Option<string>) {
    if '-' in mid && |mid| >= 36 then
      (mid[..|mid| - 36], Some(mid[|mid| - 36..]))
    else
      (mid, None)
  }

  function Take(s: string, n: nat): string {
    if n <= |s| then s[..n] else s
  }

  function Drop(s: string, n: nat): string {
    if n <= |s| then s[n..] else []
  }

  lemma {:induction false} TakeDrop(a: string, b: string)
    ensures Take(a + b, |a|) == a && Drop(a + b, |a|) == b
  {
  }

  lemma {:induction false} TimeEnd(time: string, after: string)
    requires time != [] && Last(time) == 'Z' && 'Z' !in Front(time)
    ensures FirstIndex(time + after, 'Z') + 1 == |time|
  {
    forall j | 0 <= j < |time| - 1
      ensures (time + after)[j] != 'Z'
    {
      assert Front(time)[j] == (time + after)[j];
    }
    FirstIndexIs(time + after, 'Z', |time| - 1);
  }

  lemma {:induction false} BraceIndex(mid: string, json: string)
    requires '{' !in mid && json != [] && json[0] == '{'
    ensures FirstIndex(mid + json, '{') == |mid|
  {
    forall j | 0 <= j < |mid|
      ensures (mid + json)[j] != '{'
    {
      assert mid[j] == (mid + json)[j];
    }
    FirstIndexIs(mid + json, '{', |mid|);
  }

  lemma {:induction false} SplitTargetCorrect(action: string, targetID: Option<string>)
    requires '-' !in action
    requires targetID.Some? ==> |targetID.value| == 36 && '-' in targetID.value
    ensures SplitTarget(action + NullableUUID(targetID)) == (action, targetID)
  {
    var mid := action + NullableUUID(targetID);
    if targetID.Some? {
      assert mid[..|mid| - 36] == action && mid[|mid| - 36..] == targetID.value;
    } else {
      assert mid == action;
    }
  }

  function DecodedRow(prevHash: string, row: AuditRow): Decoded {
    Decoded(prevHash, row.createdAt, row.adminID, row.action, row.targetID, row.payloadJSON)
  }

  /** Decoding undoes the concatenation. */
  lemma {:induction false} DecodeHashInput(prevHash: string, row: AuditRow)
    requires |prevHash| == 64 && WellFormed(row)
    ensures Decode(HashInput(prevHash, row)) == DecodedRow(prevHash, row)
  {
    var mid := row.action + NullableUUID(row.targetID);
    var tail := mid + row.payloadJSON;
    var afterTime := row.adminID + tail;
    var afterPrev := row.createdAt + afterTime;
    assert HashInput(prevHash, row) == prevHash + afterPrev;
    TakeDrop(prevHash, afterPrev);
    TimeEnd(row.createdAt, afterTime);
    TakeDrop(row.createdAt, afterTime);
    TakeDrop(row.adminID, tail);
    BraceIndex(mid, row.payloadJSON);
    assert tail[..|mid|] == mid && tail[|mid|..] == row.payloadJSON;
    SplitTargetCorrect(row.action, row.targetID);
  }

  /** The unseparated concatenation is uniquely decodable. */
  lemma {:induction false} HashInputInjective(p1: string, r1: AuditRow, p2: string, r2: AuditRow)
    requires |p1| == |p2| == 64 && WellFormed(r1) && WellFormed(r2)
    requires HashInput(p1, r1) == HashInput(p2, r2)
    ensures p1 == p2 && SameHashedFields(r1, r2)
  {
    DecodeHashInput(p1, r1);
    DecodeHashInput(p2, r2);
  }

  // ---------------------------------------------------------------- tamper evidence

  /** What comparing two logs with the same head hash yields. */
  datatype Evidence =
    | Agree
    | Collision(x: string, y: string)
    | GenesisPreimage(x: string)

  function LastInput(rows: seq<AuditRow>): string
    requires rows != []
  {
    HashInput(PrevOf(rows, |rows| - 1), Last(rows))
  }

  /** Walks two logs back from their heads until the hash inputs differ. */
  function Compare(a: seq<AuditRow>, b: seq<AuditRow>): Evidence {
    if a == [] && b == [] then
      Agree
    else if a == [] then
      GenesisPreimage(LastInput(b))
    else if b == [] then
      GenesisPreimage(LastInput(a))
    else if LastInput(a) != LastInput(b) then
      Collision(LastInput(a), LastInput(b))
    else
      Compare(Front(a), Front(b))
  }

  ghost predicate SoundEvidence(h: Digest, a: seq<AuditRow>, b: seq<AuditRow>, e: Evidence) {
    match e
    case Agree => |a| == |b| && forall k :: 0 <= k < |a| ==> SameHashedFields(a[k], b[k])
    case Collision(x, y) => x != y && h(x) == h(y)
    case GenesisPreimage(x) => h(x) == GENESIS_HASH
  }

  lemma {:induction false} PrevLength(h: Digest, rows: seq<AuditRow>, k: nat)
    requires IsDigest(h) && ChainValid(h, rows) && k <= |rows|
    ensures |PrevOf(rows, k)| == 64
  {
    if k > 0 {
      assert LinkOk(h, rows, k - 1);
    }
  }

  lemma {:induction false} HeadIsDigest(h: Digest, rows: seq<AuditRow>)
    requires ChainValid(h, rows) && rows != []
    ensures HeadHash(rows) == h(LastInput(rows))
  {
    assert LinkOk(h, rows, |rows| - 1);
  }

  ghost predicate AllWellFormed(rows: seq<AuditRow>) {
    forall k :: 0 <= k < |rows| ==> WellFormed(rows[k])
  }

  /** Two verified logs that end in the same entry hash agree on every hashed field of every
      row, or the comparison has found a digest collision or a preimage of the genesis value. */
  lemma {:induction false} TamperEvidence(h: Digest, a: seq<AuditRow>, b: seq<AuditRow>)
    requires IsDigest(h)
    requires ChainValid(h, a) && ChainValid(h, b)
    requires AllWellFormed(a) && AllWellFormed(b)
    requires HeadHash(a) == HeadHash(b)
    ensures SoundEvidence(h, a, b, Compare(a, b))
  {
    if a != [] {
      HeadIsDigest(h, a);
    }
    if b != [] {
      HeadIsDigest(h, b);
    }
    if a != [] && b != [] && LastInput(a) == LastInput(b) {
      SameLastRow(h, a, b);
      PrefixValid(h, a, |a| - 1);
      PrefixValid(h, b, |b| - 1);
      TamperEvidence(h, Front(a), Front(b));
      assert Compare(a, b) == Compare(Front(a), Front(b));
      ExtendEvidence(h, a, b, Compare(a, b));
    }
  }

  lemma {:induction false} SameLastRow(h: Digest, a: seq<AuditRow>, b: seq<AuditRow>)
    requires IsDigest(h) && ChainValid(h, a) && ChainValid(h, b)
    requires AllWellFormed(a) && AllWellFormed(b)
    requires a != [] && b != [] && LastInput(a) == LastInput(b)
    ensures SameHashedFields(Last(a), Last(b)) && HeadHash(Front(a)) == HeadHash(Front(b))
  {
    var p, q := PrevOf(a, |a| - 1), PrevOf(b, |b| - 1);
    assert |p| == |q| == 64 by {
      PrevLength(h, a, |a| - 1);
      PrevLength(h, b, |b| - 1);
    }
    assert WellFormed(a[|a| - 1]) && WellFormed(b[|b| - 1]);
    HashInputInjective(p, Last(a), q, Last(b));
    assert HeadHash(Front(a)) == p && HeadHash(Front(b)) == q;
  }

  lemma {:induction false} ExtendEvidence(h: Digest, a: seq<AuditRow>, b: seq<AuditRow>, e: Evidence)
    requires a != [] && b != [] && SameHashedFields(Last(a), Last(b))
    requires SoundEvidence(h, Front(a), Front(b), e)
    ensures SoundEvidence(h, a, b, e)
  {
  }

  /** Editing a hashed field of one row in place, stored hashes kept, is detected at that very
      row unless the edit is itself a collision. */
  lemma {:induction false} EditDetected(h: Digest, rows: seq<AuditRow>, k: nat, edited: AuditRow)
    requires IsDigest(h) && ChainValid(h, rows) && k < |rows|
    requires WellFormed(rows[k]) && WellFormed(edited)
    requires edited.entryHash == rows[k].entryHash && !SameHashedFields(edited, rows[k])
    ensures var x, y := HashInput(PrevOf(rows, k), rows[k]), HashInput(PrevOf(rows, k), edited);
            FirstBroken(h, rows[k := edited], k) || (x != y && h(x) == h(y))
  {
    var after := rows[k := edited];
    PrevLength(h, rows, k);
    if HashInput(PrevOf(rows, k), rows[k]) == HashInput(PrevOf(rows, k), edited) {
      HashInputInjective(PrevOf(rows, k), rows[k], PrevOf(rows, k), edited);
    }
    assert LinkOk(h, rows, k);
    forall j | 0 <= j < k
      ensures LinkOk(h, after, j)
    {
      assert LinkOk(h, rows, j);
    }
  }
}
