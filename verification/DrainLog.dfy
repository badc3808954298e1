/** The drain protocol seen through the controller's history: which notes it may leave, in which order. */
module DrainLog {
  import opened Columns

  /** What the controller did: queue an allocation and wait for peers, take a peer's snapshot
      acknowledgement, give up waiting, or commit the allocation and rewrite the peers' ranges. */
  datatype Note = Enqueued(fid: Fid, peers: set<Fid>) | Acked(peer: Fid) | TimedOut | Committed(fid: Fid, remapped: set<Fid>)

  /** Where a drain stands: `owed` are the peers still to acknowledge. */
  datatype Drain = Idle | Waiting(fid: Fid, peers: set<Fid>, owed: set<Fid>) | Broken

  function Advance(d: Drain, e: Note): Drain
  {
    match d
    case Idle => if e.Enqueued? then Waiting(e.fid, e.peers, e.peers) else Broken
    case Waiting(f, peers, owed) =>
      (match e
       case Acked(p) => if p in owed then Waiting(f, peers, owed - {p}) else Broken
       case TimedOut => Waiting(f, peers, {})
       case Committed(g, remapped) => if owed == {} && g == f && remapped == peers then Idle else Broken
       case Enqueued(_, _) => Broken)
    case Broken => Broken
  }

  /** Where the drain stands after a history. */
  function Replay(log: seq<Note>): Drain
  {
    if log == [] then Idle else Advance(Replay(log[..|log| - 1]), log[|log| - 1])
  }

  lemma ReplayNext(log: seq<Note>, e: Note)
    ensures Replay(log + [e]) == Advance(Replay(log), e)
  {
    assert (log + [e])[..|log|] == log;
  }

  predicate IsAck(log: seq<Note>, m: int, p: Fid)
  {
    0 <= m < |log| && log[m] == Acked(p)
  }

  predicate IsTimeout(log: seq<Note>, m: int)
  {
    0 <= m < |log| && log[m].TimedOut?
  }

  /** Between lo and hi no allocation is queued or committed. */
  ghost predicate Quiet(log: seq<Note>, lo: int, hi: int)
  {
    0 <= lo && hi <= |log| && forall m | lo < m < hi :: !log[m].Enqueued? && !log[m].Committed?
  }

  /** Between lo and hi peer p acknowledged. */
  ghost predicate AckedWithin(log: seq<Note>, lo: int, hi: int, p: Fid)
  {
    exists m :: lo < m < hi && IsAck(log, m, p)
  }

  ghost predicate TimedOutWithin(log: seq<Note>, lo: int, hi: int)
  {
    exists m :: lo < m < hi && IsTimeout(log, m)
  }

  /** All the peers acknowledged between lo and hi, or the controller gave up waiting. */
  ghost predicate Settled(log: seq<Note>, lo: int, hi: int, peers: set<Fid>)
  {
    TimedOutWithin(log, lo, hi) || forall p | p in peers :: AckedWithin(log, lo, hi, p)
  }

  /** The allocation queued at position j is the one waiting after the first n notes. */
  ghost predicate Pending(log: seq<Note>, j: int, n: nat, f: Fid, peers: set<Fid>, owed: set<Fid>)
  {
    && 0 <= j < n <= |log| && log[j] == Enqueued(f, peers) && Quiet(log, j, n)
    && Settled(log, j, n, peers - owed)
  }

  lemma PendingNext(log: seq<Note>, j: int, n: nat, f: Fid, peers: set<Fid>, owed: set<Fid>)
    requires n < |log| && Pending(log, j, n, f, peers, owed)
    requires log[n].Acked? || log[n].TimedOut?
    ensures Pending(log, j, n + 1, f, peers, if log[n].Acked? then owed - {log[n].peer} else {})
  {
    var n' := n + 1;
    if m :| j < m < n && IsTimeout(log, m) {
      assert TimedOutWithin(log, j, n') by { assert j < m < n' && IsTimeout(log, m); }
    } else if log[n].TimedOut? {
      assert TimedOutWithin(log, j, n') by { assert j < n < n' && IsTimeout(log, n); }
    } else {
      forall p | p in peers - (owed - {log[n].peer}) ensures AckedWithin(log, j, n', p) {
        if p == log[n].peer {
          assert j < n < n' && IsAck(log, n, p);
        } else {
          assert AckedWithin(log, j, n, p);
          var m :| j < m < n && IsAck(log, m, p);
          assert j < m < n' && IsAck(log, m, p);
        }
      }
    }
  }

  /** A waiting allocation was queued, and whoever no longer owes an acknowledgement has given it since,
      unless the controller gave up. */
  lemma {:induction false} WaitingSince(log: seq<Note>, n: nat)
    requires n <= |log| && Replay(log[..n]).Waiting?
    ensures var d := Replay(log[..n]); exists j :: Pending(log, j, n, d.fid, d.peers, d.owed)
    decreases n
  {
    var d := Replay(log[..n]);
    var k := n - 1;
    assert log[..n][..k] == log[..k];
    var before := Replay(log[..k]);
    if before.Idle? {
      assert d.peers - d.owed == {};
      assert Pending(log, k, n, d.fid, d.peers, d.owed);
    } else {
      WaitingSince(log, k);
      var j :| Pending(log, j, k, before.fid, before.peers, before.owed);
      PendingNext(log, j, k, before.fid, before.peers, before.owed);
      assert Pending(log, j, n, d.fid, d.peers, d.owed);
    }
  }

  lemma {:induction false} PrefixFine(log: seq<Note>, n: nat)
    requires Replay(log) != Broken && n <= |log|
    ensures Replay(log[..n]) != Broken
    decreases |log| - n
  {
    if n == |log| {
      assert log[..n] == log;
    } else {
      PrefixFine(log, n + 1);
      assert log[..n + 1][..n] == log[..n];
    }
  }

  /** The commit at k is that of the allocation queued at j, and every peer queued for it acknowledged in
      between or the controller gave up waiting. */
  ghost predicate Earned(log: seq<Note>, j: int, k: int)
  {
    && 0 <= j < k < |log| && log[k].Committed? && log[j] == Enqueued(log[k].fid, log[k].remapped)
    && Quiet(log, j, k) && Settled(log, j, k, log[k].remapped)
  }

  /** No commit without its queued allocation, and none before every peer has acknowledged since then or
      the wait has timed out. */
  lemma CommitEarned(log: seq<Note>, k: nat)
    requires Replay(log) != Broken && k < |log| && log[k].Committed?
    ensures exists j :: Earned(log, j, k)
  {
    PrefixFine(log, k + 1);
    assert log[..k + 1][..k] == log[..k];
    WaitingSince(log, k);
    var d := Replay(log[..k]);
    var j :| Pending(log, j, k, d.fid, d.peers, d.owed);
    assert d.peers - d.owed == d.peers;
    assert Earned(log, j, k);
  }

  /** After the first n notes the allocation queued at j is waiting, or was committed. */
  lemma {:induction false} QueuedFate(log: seq<Note>, j: nat, n: nat)
    requires Replay(log) != Broken && j < n <= |log| && log[j].Enqueued?
    ensures || (Quiet(log, j, n) && Replay(log[..n]).Waiting?
                && Replay(log[..n]).fid == log[j].fid && Replay(log[..n]).peers == log[j].peers)
            || exists k :: k < n && CommitOf(log, j, k)
    decreases n
  {
    PrefixFine(log, n);
    PrefixFine(log, n - 1);
    assert log[..n][..n - 1] == log[..n - 1];
    if n > j + 1 {
      QueuedFate(log, j, n - 1);
      if k :| k < n - 1 && CommitOf(log, j, k) {
        assert k < n && CommitOf(log, j, k);
      } else if log[n - 1].Committed? {
        assert CommitOf(log, j, n - 1);
      }
    }
  }

  /** The commit at k ends the wait queued at j. */
  ghost predicate CommitOf(log: seq<Note>, j: int, k: int)
  {
    0 <= j < k < |log| && Quiet(log, j, k) && log[j].Enqueued? && log[k] == Committed(log[j].fid, log[j].peers)
  }

  /** Once nothing is waiting, every queued allocation has been committed exactly once. */
  lemma CommittedOnce(log: seq<Note>, j: nat)
    requires Replay(log) == Idle && j < |log| && log[j].Enqueued?
    ensures exists k :: CommitOf(log, j, k)
    ensures forall k, k' :: CommitOf(log, j, k) && CommitOf(log, j, k') ==> k == k'
  {
    QueuedFate(log, j, |log|);
    assert log[..|log|] == log;
  }

  // ---- versions -------------------------------------------------------------------------

  predicate Rewrites(e: Note, f: Fid)
  {
    e.Committed? && (f == e.fid || f in e.remapped)
  }

  /** How many commits rewrote the ranges of program f. */
  function Version(log: seq<Note>, f: Fid): nat
  {
    if log == [] then 0 else Version(log[..|log| - 1], f) + if Rewrites(log[|log| - 1], f) then 1 else 0
  }

  lemma VersionNext(log: seq<Note>, e: Note, f: Fid)
    ensures Version(log + [e], f) == Version(log, f) + if Rewrites(e, f) then 1 else 0
  {
    assert (log + [e])[..|log|] == log;
  }

  /** Between two moments of a history a program's version never falls, and it rises exactly if a commit
      in between admitted or remapped the program: a client that sees its version unchanged has had no
      range rewritten. */
  lemma {:induction false} VersionRises(log: seq<Note>, j: nat, k: nat, f: Fid)
    requires j <= k <= |log|
    ensures Version(log[..j], f) <= Version(log[..k], f)
    ensures Version(log[..j], f) < Version(log[..k], f) <==> exists m :: j <= m < k && Rewrites(log[m], f)
    decreases k
  {
    if j < k {
      VersionRises(log, j, k - 1, f);
      assert log[..k] == log[..k - 1] + [log[k - 1]];
      VersionNext(log[..k - 1], log[k - 1], f);
    }
  }

  // ---- what a history says about the allocator ------------------------------------------

  /** An allocation is queued for a program, or committed. */
  datatype Mark = Queues(fid: Fid) | Commits(fid: Fid)

  /** The allocations a history queues and commits, in order. */
  function Marks(log: seq<Note>): seq<Mark>
  {
    if log == [] then [] else Marks(log[..|log| - 1]) + MarkOf(log[|log| - 1])
  }

  function MarkOf(e: Note): seq<Mark>
  {
    match e
    case Enqueued(f, _) => [Queues(f)]
    case Committed(f, _) => [Commits(f)]
    case _ => []
  }

  lemma MarksNext(log: seq<Note>, e: Note)
    ensures Marks(log + [e]) == Marks(log) + MarkOf(e)
  {
    assert (log + [e])[..|log|] == log;
  }

  /** Marks come in pairs: a program is queued, then the same one is committed. */
  ghost predicate Paired(marks: seq<Mark>)
  {
    forall k: nat | k < |marks| :: PairedAt(marks, k)
  }

  ghost predicate PairedAt(marks: seq<Mark>, k: nat)
    requires k < |marks|
  {
    if k % 2 == 0 then marks[k].Queues? else marks[k] == Commits(marks[k - 1].fid)
  }

  /** A history that keeps to the protocol queues and commits in pairs; the last one is open exactly while
      the drain waits. */
  lemma {:induction false} MarksPaired(log: seq<Note>)
    requires Replay(log) != Broken
    ensures Paired(Marks(log)) && (|Marks(log)| % 2 == 1 <==> Replay(log).Waiting?)
    ensures Replay(log).Waiting? ==> Marks(log) != [] && Marks(log)[|Marks(log)| - 1] == Queues(Replay(log).fid)
  {
    if log != [] {
      var front, e := log[..|log| - 1], log[|log| - 1];
      MarksPaired(front);
      assert log == front + [e];
      var marks := Marks(front) + MarkOf(e);
      forall k: nat | k < |marks| ensures PairedAt(marks, k) {
        if k < |Marks(front)| {
          assert PairedAt(Marks(front), k);
        }
      }
    }
  }
}
