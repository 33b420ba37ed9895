/** The per-page lock lists of LockManager, as values: the lock record, what a
    transaction holds on a page, the ordered grant rules of lockPage, and the
    invariant every list keeps (all shared, or one exclusive; one record per
    transaction). */
module LockTables {
  import opened JavaLang
  import opened PageIds
  import opened TransactionIds

  /** Permissions.READ_ONLY / READ_WRITE. */
  datatype Permissions = ReadOnly | ReadWrite

  /** The Lock class: who holds which page, shared or exclusive. */
  datatype Lock = Lock(tid: TransactionId, pid: HeapPageId, exclusive: bool)

  /** The list stored for a page; a page with no entry has no locks. */
  function PageLocks(table: map<HeapPageId, seq<Lock>>, pid: HeapPageId): seq<Lock> {
    if pid in table then table[pid] else []
  }

  ghost predicate HasRecord(locks: seq<Lock>, tid: TransactionId) {
    exists i :: 0 <= i < |locks| && locks[i].tid == tid
  }

  /** What getLockHeldType reports: the kind of tid's first record, or null. */
  function HeldType(locks: seq<Lock>, tid: TransactionId): (r: Option<Permissions>)
    ensures r.None? <==> !HasRecord(locks, tid)
  {
    if |locks| == 0 then None
    else if locks[0].tid == tid then Some(if locks[0].exclusive then ReadWrite else ReadOnly)
    else
      var r := HeldType(locks[1..], tid);
      assert HasRecord(locks, tid) <==> HasRecord(locks[1..], tid) by {
        if HasRecord(locks, tid) {
          var i :| 0 <= i < |locks| && locks[i].tid == tid;
          assert locks[1..][i - 1] == locks[i];
        }
        if HasRecord(locks[1..], tid) {
          var i :| 0 <= i < |locks[1..]| && locks[1..][i].tid == tid;
          assert locks[i + 1] == locks[1..][i];
        }
      }
      r
  }

  predicate AnyExclusive(locks: seq<Lock>) {
    exists i :: 0 <= i < |locks| && locks[i].exclusive
  }

  /** The lock-table invariant for the list of page pid: every record names pid, no
      transaction has two records, and an exclusive record is the only record. */
  ghost predicate PageLocksOk(locks: seq<Lock>, pid: HeapPageId) {
    (forall i :: 0 <= i < |locks| ==> locks[i].pid == pid) &&
    (forall i, j :: 0 <= i < j < |locks| ==> locks[i].tid != locks[j].tid) &&
    (forall i :: 0 <= i < |locks| && locks[i].exclusive ==> |locks| == 1)
  }

  /** Any slice of a list that keeps the invariant keeps it too. */
  lemma SliceKeepsPageLocks(locks: seq<Lock>, pid: HeapPageId, lo: nat, hi: nat)
    requires PageLocksOk(locks, pid) && lo <= hi <= |locks|
    ensures PageLocksOk(locks[lo..hi], pid)
  {
    var s := locks[lo..hi];
    forall a, b | 0 <= a < b < |s|
      ensures s[a].tid != s[b].tid
    {
      assert s[a] == locks[lo + a] && s[b] == locks[lo + b];
    }
    if |locks| >= 2 {
      forall a | 0 <= a < |s|
        ensures !s[a].exclusive
      {
        assert s[a] == locks[lo + a];
      }
    }
  }

  /** Appending a record for pid of a transaction not yet in the list keeps the
      invariant, provided an exclusive record ends up alone. */
  lemma AppendKeepsPageLocks(locks: seq<Lock>, x: Lock, pid: HeapPageId)
    requires PageLocksOk(locks, pid) && x.pid == pid
    requires forall y :: y in locks ==> y.tid != x.tid
    requires |locks| > 0 ==> !x.exclusive && !AnyExclusive(locks)
    ensures PageLocksOk(locks + [x], pid)
  {
    var after := locks + [x];
    forall i, j | 0 <= i < j < |after|
      ensures after[i].tid != after[j].tid
    {
      if j == |locks| {
        assert after[i] == locks[i] && locks[i] in locks;
      } else {
        assert after[i] == locks[i] && after[j] == locks[j];
      }
    }
    if |locks| > 0 {
      forall i | 0 <= i < |after|
        ensures !after[i].exclusive
      {
        if i < |locks| {
          assert after[i] == locks[i];
        }
      }
    }
  }

  /** With at most one record per transaction, getLockHeldType reports that record. */
  lemma {:induction false} HeldTypeIsTheRecord(locks: seq<Lock>, pid: HeapPageId, i: nat)
    requires PageLocksOk(locks, pid) && i < |locks|
    ensures HeldType(locks, locks[i].tid) == Some(if locks[i].exclusive then ReadWrite else ReadOnly)
  {
    if i > 0 {
      assert locks[0].tid != locks[i].tid;
      var rest := locks[1..];
      SliceKeepsPageLocks(locks, pid, 1, |locks|);
      assert rest == locks[1..|locks|];
      assert rest[i - 1] == locks[i];
      HeldTypeIsTheRecord(rest, pid, i - 1);
    }
  }

  /** The permission held already satisfies the request: READ_WRITE always, and
      READ_ONLY for a shared request. */
  function Covers(held: Option<Permissions>, exclusive: bool): bool {
    held == Some(ReadWrite) || (!exclusive && held == Some(ReadOnly))
  }

  /** The branch lockPage takes, in the order its rules are tried. */
  datatype Decision =
    | AlreadyHeld   // tid holds READ_WRITE, or READ_ONLY and asks for shared
    | Upgrade       // tid is the only holder: its record becomes exclusive
    | Grant         // empty list, or a shared request beside shared holders
    | Deny          // wait-for edges are added and false is returned

  function Decide(locks: seq<Lock>, tid: TransactionId, exclusive: bool): Decision {
    if Covers(HeldType(locks, tid), exclusive) then AlreadyHeld
    else if |locks| == 0 then Grant
    else if |locks| == 1 && locks[0].tid == tid then Upgrade
    else if !exclusive && !AnyExclusive(locks) then Grant
    else Deny
  }

  /** The page's list after the decision is carried out. */
  function Apply(locks: seq<Lock>, d: Decision, tid: TransactionId, pid: HeapPageId, exclusive: bool): seq<Lock>
    requires d == Upgrade ==> |locks| == 1
  {
    match d
    case AlreadyHeld => locks
    case Deny => locks
    case Grant => locks + [Lock(tid, pid, exclusive)]
    case Upgrade => [locks[0].(exclusive := true)]
  }

  /** lockPage keeps the lock-table invariant of the page. */
  lemma DecideKeepsPageLocks(locks: seq<Lock>, tid: TransactionId, pid: HeapPageId, exclusive: bool)
    requires PageLocksOk(locks, pid)
    ensures var d := Decide(locks, tid, exclusive);
            (d == Upgrade ==> |locks| == 1) &&
            PageLocksOk(Apply(locks, d, tid, pid, exclusive), pid)
  {
    var d := Decide(locks, tid, exclusive);
    if d == Grant {
      var held := HeldType(locks, tid);
      if |locks| > 0 {
        assert !exclusive && !AnyExclusive(locks);
        assert held != Some(ReadOnly) && held != Some(ReadWrite);
      }
      match held {
        case None =>
        case Some(ReadOnly) => assert false;
        case Some(ReadWrite) => assert false;
      }
      forall y | y in locks
        ensures y.tid != tid
      {
        var k :| 0 <= k < |locks| && locks[k] == y;
      }
      AppendKeepsPageLocks(locks, Lock(tid, pid, exclusive), pid);
    }
  }

  /** A request is granted, in one of the three ways, unless it is denied; then tid
      holds a lock that covers the request. */
  lemma GrantedRequestIsHeld(locks: seq<Lock>, tid: TransactionId, pid: HeapPageId, exclusive: bool)
    requires PageLocksOk(locks, pid)
    requires Decide(locks, tid, exclusive) != Deny
    ensures Covers(HeldType(Apply(locks, Decide(locks, tid, exclusive), tid, pid, exclusive), tid), exclusive)
  {
    var d := Decide(locks, tid, exclusive);
    DecideKeepsPageLocks(locks, tid, pid, exclusive);
    var after := Apply(locks, d, tid, pid, exclusive);
    if d == Grant {
      HeldTypeIsTheRecord(after, pid, |locks|);
    } else if d == Upgrade {
      HeldTypeIsTheRecord(after, pid, 0);
    }
  }

  /** A shared request from a transaction holding nothing on the page is granted iff
      no record on the page is exclusive. */
  lemma SharedGrantedIffNoExclusive(locks: seq<Lock>, tid: TransactionId)
    requires !HasRecord(locks, tid)
    ensures Decide(locks, tid, false) == Grant <==> !AnyExclusive(locks)
    ensures Decide(locks, tid, false) == Grant || Decide(locks, tid, false) == Deny
  {
    if |locks| == 1 {
      assert locks[0].tid != tid;
    }
  }

  /** An exclusive request on a page another transaction holds a lock on is denied. */
  lemma ExclusiveBlockedByOtherHolder(locks: seq<Lock>, tid: TransactionId, pid: HeapPageId, i: nat)
    requires PageLocksOk(locks, pid)
    requires i < |locks| && locks[i].tid != tid
    ensures Decide(locks, tid, true) == Deny
  {
    if HasRecord(locks, tid) {
      var j :| 0 <= j < |locks| && locks[j].tid == tid;
      HeldTypeIsTheRecord(locks, pid, j);
      assert i != j;
    }
  }

  /** Only the sole holder of a shared lock asking for exclusive is upgraded, and the
      upgrade keeps the list at one record, now exclusive. */
  lemma UpgradeOnlyForSoleSharedHolder(locks: seq<Lock>, tid: TransactionId, exclusive: bool)
    requires Decide(locks, tid, exclusive) == Upgrade
    ensures exclusive && |locks| == 1 && locks[0].tid == tid && !locks[0].exclusive
  {
  }

  /** The holders a denied request waits for: every other record for an exclusive
      request, only the exclusive ones for a shared request. */
  ghost function BlockersOf(locks: seq<Lock>, tid: TransactionId, exclusive: bool): set<TransactionId> {
    set i | 0 <= i < |locks| && (exclusive || locks[i].exclusive) && locks[i].tid != tid :: locks[i].tid
  }

  /** A denied request always waits for somebody: the holders it conflicts with
      are other transactions, and there is at least one. */
  lemma DenyHasBlocker(locks: seq<Lock>, tid: TransactionId, pid: HeapPageId, exclusive: bool)
    requires PageLocksOk(locks, pid)
    requires Decide(locks, tid, exclusive) == Deny
    ensures BlockersOf(locks, tid, exclusive) != {}
  {
    if exclusive {
      if locks[0].tid != tid {
        assert locks[0].tid in BlockersOf(locks, tid, exclusive);
      } else {
        assert locks[1].tid in BlockersOf(locks, tid, exclusive);
      }
    } else {
      var k :| 0 <= k < |locks| && locks[k].exclusive;
      assert locks[k].tid in BlockersOf(locks, tid, exclusive);
    }
  }

  lemma BlockersPrefixStep(locks: seq<Lock>, tid: TransactionId, exclusive: bool, i: nat)
    requires i < |locks|
    ensures BlockersOf(locks[..i + 1], tid, exclusive) ==
            BlockersOf(locks[..i], tid, exclusive) +
            (if (exclusive || locks[i].exclusive) && locks[i].tid != tid then {locks[i].tid} else {})
  {
    var p, q := locks[..i], locks[..i + 1];
    forall t
      ensures t in BlockersOf(q, tid, exclusive) <==>
              t in BlockersOf(p, tid, exclusive) ||
              ((exclusive || locks[i].exclusive) && locks[i].tid != tid && t == locks[i].tid)
    {
      if t in BlockersOf(q, tid, exclusive) {
        var k :| 0 <= k < |q| && (exclusive || q[k].exclusive) && q[k].tid != tid && q[k].tid == t;
        if k < i {
          assert p[k] == q[k];
        }
      }
      if t in BlockersOf(p, tid, exclusive) {
        var k :| 0 <= k < |p| && (exclusive || p[k].exclusive) && p[k].tid != tid && p[k].tid == t;
        assert q[k] == p[k];
      }
      if (exclusive || locks[i].exclusive) && locks[i].tid != tid && t == locks[i].tid {
        assert q[i] == locks[i];
      }
    }
  }

  lemma BlockersOfPrefix(locks: seq<Lock>, tid: TransactionId, exclusive: bool, i: nat)
    requires i <= |locks|
    ensures BlockersOf(locks[..i], tid, exclusive) <= BlockersOf(locks, tid, exclusive)
  {
    forall t | t in BlockersOf(locks[..i], tid, exclusive)
      ensures t in BlockersOf(locks, tid, exclusive)
    {
      var k :| 0 <= k < i && (exclusive || locks[..i][k].exclusive) && locks[..i][k].tid != tid && locks[..i][k].tid == t;
      assert locks[k] == locks[..i][k];
    }
  }

  /** unlockPage's iterator loop: the list without tid's records, order kept. */
  function WithoutTid(locks: seq<Lock>, tid: TransactionId): (r: seq<Lock>)
    ensures |r| <= |locks|
  {
    if |locks| == 0 then []
    else WithoutTid(locks[..|locks| - 1], tid) +
         (if locks[|locks| - 1].tid != tid then [locks[|locks| - 1]] else [])
  }

  /** Removing tid's records keeps exactly the other records, in order, so the
      invariant still holds and tid holds nothing on the page. */
  lemma {:induction false} WithoutTidContents(locks: seq<Lock>, tid: TransactionId)
    ensures forall x :: x in WithoutTid(locks, tid) <==> x in locks && x.tid != tid
  {
    if |locks| > 0 {
      var init := locks[..|locks| - 1];
      WithoutTidContents(init, tid);
      assert locks == init + [locks[|locks| - 1]];
    }
  }

  /** The step of WithoutTidKeepsPageLocks: keeping the last record after some of
      the earlier ones keeps the invariant. */
  lemma KeepLastKeepsPageLocks(locks: seq<Lock>, kept: seq<Lock>, pid: HeapPageId)
    requires PageLocksOk(locks, pid) && |locks| > 0 && PageLocksOk(kept, pid)
    requires forall y :: y in kept ==> y in locks[..|locks| - 1]
    ensures PageLocksOk(kept + [locks[|locks| - 1]], pid)
  {
    var n := |locks| - 1;
    forall y | y in kept
      ensures y.tid != locks[n].tid
    {
      var k :| 0 <= k < n && locks[..n][k] == y;
      assert locks[k] == y;
    }
    if |kept| > 0 {
      assert kept[0] in locks[..n];
      assert |locks| >= 2;
      forall y | y in kept
        ensures !y.exclusive
      {
        var k :| 0 <= k < n && locks[..n][k] == y;
        assert locks[k] == y;
      }
    }
    AppendKeepsPageLocks(kept, locks[n], pid);
  }

  /** Removing tid's records leaves a list with no record of tid that still keeps
      the page invariant. */
  lemma {:induction false} WithoutTidKeepsPageLocks(locks: seq<Lock>, tid: TransactionId, pid: HeapPageId)
    requires PageLocksOk(locks, pid)
    ensures PageLocksOk(WithoutTid(locks, tid), pid)
    ensures !HasRecord(WithoutTid(locks, tid), tid)
  {
    var r := WithoutTid(locks, tid);
    WithoutTidContents(locks, tid);
    if |locks| > 0 {
      var n := |locks| - 1;
      SliceKeepsPageLocks(locks, pid, 0, n);
      assert locks[..n] == locks[0..n];
      WithoutTidKeepsPageLocks(locks[..n], tid, pid);
      WithoutTidContents(locks[..n], tid);
      if locks[n].tid != tid {
        KeepLastKeepsPageLocks(locks, WithoutTid(locks[..n], tid), pid);
      }
    }
    forall i | 0 <= i < |r|
      ensures r[i].tid != tid
    {
      assert r[i] in r;
    }
  }
}
