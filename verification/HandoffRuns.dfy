/**
 Client and helper process together: two control channels between them, a server and
 a transport that may answer anything or nothing, and a helper that may die at any time.
 */
module HandoffRuns {
  import opened Prelude
  import opened HandoffTrace

  datatype Helper = Unborn | Checking | Waiting | Freed | Execed | Gone

  /** `verified` and `execs` are history: the helper's checks passed; how often it ran exec. */
  datatype System = System(
    log: seq<Event>,
    helper: Helper,
    toHelper: seq<ControlByte>,
    toClient: seq<ControlMessage>,
    verified: bool,
    execs: nat)

  ghost predicate Initial(s: System) {
    s == System([], Unborn, [], [], false, 0)
  }

  /** The client reads a message, the end of the stream, or an error of the socket. */
  ghost predicate Hears(s: System, t: System, m: ControlMessage) {
    match m
    case Broken => t.toClient == s.toClient
    case Closed => s.toClient == [] && t.toClient == [] && (s.helper.Execed? || s.helper.Gone?)
    case _ => s.toClient != [] && s.toClient[0] == m && t.toClient == s.toClient[1..]
  }

  /** What an event of the client does to the helper and to the channels. */
  ghost predicate Takes(s: System, t: System, e: Event) {
    && t.verified == s.verified && t.execs == s.execs
    && match e
       case Spawned(ok) =>
         t.helper == (if ok then Checking else Gone) && t.toHelper == s.toHelper && t.toClient == s.toClient
       case Heard(m) =>
         && t.helper == s.helper && t.toHelper == s.toHelper
         && Hears(s, t, m)
       case Wrote(octet, ok) =>
         && t.helper == s.helper && t.toClient == s.toClient
         && t.toHelper == s.toHelper + (if ok then [octet] else [])
       case Killed =>
         t.helper == Gone && t.toHelper == s.toHelper && t.toClient == s.toClient
       case _ =>
         t.helper == s.helper && t.toHelper == s.toHelper && t.toClient == s.toClient
  }

  /** The client shows the event `e`, and the rest of the system takes part in it. */
  ghost predicate ClientStep(s: System, t: System, e: Event) {
    && t.log == s.log + [e]
    && Replay(s.log).Some? && Advance(Replay(s.log).value, e).Some?
    && Takes(s, t, e)
  }

  /** `run_helper_inner`: check, report, wait for one byte, exec only on the release byte. */
  ghost predicate HelperStep(s: System, t: System) {
    && t.log == s.log
    && match s.helper
       case Checking =>
         && t.toHelper == s.toHelper && t.execs == s.execs
         && (|| (t.helper == Waiting && t.verified && t.toClient == s.toClient + [Ready])
             || (t.helper == Gone && t.verified == s.verified && t.toClient == s.toClient + [Error]))
       case Waiting =>
         && s.toHelper != [] && t.toHelper == s.toHelper[1..] && t.toClient == s.toClient
         && t.verified == s.verified && t.execs == s.execs
         && t.helper == if s.toHelper[0].Release? then Freed else Gone
       case Freed =>
         && t.toHelper == s.toHelper && t.verified == s.verified
         && (|| (t.helper == Execed && t.execs == s.execs + 1 && t.toClient == s.toClient)
             || (t.helper == Gone && t.execs == s.execs && t.toClient == s.toClient + [Error]))
       case _ => false
  }

  /** A signal, an error it does not report, or the end of the command takes the helper away. */
  ghost predicate HelperDies(s: System, t: System) {
    !s.helper.Unborn? && t == s.(helper := Gone)
  }

  ghost predicate Step(s: System, t: System) {
    (exists e :: ClientStep(s, t, e)) || HelperStep(s, t) || HelperDies(s, t)
  }

  ghost predicate IsRun(run: seq<System>) {
    && run != [] && Initial(run[0])
    && forall i :: 0 <= i < |run| - 1 ==> Step(run[i], run[i + 1])
  }

  // ---------------------------------------------------------------------- invariant

  ghost predicate Consistent(s: System) {
    && Replay(s.log).Some?
    && Fits(Replay(s.log).value, Releases(s.log) > 0, HeardReady(s.log), s)
  }

  /** Helper and channels, given what the client has done. */
  ghost predicate Fits(c: Client, released: bool, heard: bool, s: System) {
    && (Release in s.toHelper ==> released)
    && (s.helper.Freed? || s.helper.Execed? || s.execs > 0 ==> released)
    && s.execs <= 1
    && (s.helper.Execed? ==> s.execs > 0)
    && (s.execs > 0 ==> s.helper.Execed? || s.helper.Gone?)
    && (Ready in s.toClient || heard || s.helper.Waiting? || s.helper.Freed? || s.execs > 0 ==> s.verified)
    && (s.helper.Unborn? ==> !HasSpawned(s) && !Supervises(c))
    && (BeforeSpawn(c) ==> s.helper.Unborn? && s.execs == 0)
    && (c.Running? ==> s.helper.Execed? || s.helper.Gone?)
  }

  ghost predicate HasSpawned(s: System) {
    s.execs > 0 || s.verified || s.toHelper != [] || s.toClient != []
  }

  /** Control states from which a helper may still be spawned. */
  predicate BeforeSpawn(c: Client) {
    c.Idle? || c.AwaitGreeting? || c.Greeted? || c.AwaitPrepared? || c.Holding?
  }

  /** Control states in which the client has a helper to talk to. */
  predicate Supervises(c: Client) {
    !BeforeSpawn(c) && !c.Undoing? && !c.AwaitUndone? && !c.Finished?
  }

  lemma TakingKeepsFit(c: Client, next: Client, e: Event, released: bool, heard: bool, s: System, t: System)
    requires Fits(c, released, heard, s) && Advance(c, e) == Some(next) && Takes(s, t, e)
    ensures Fits(next, released || (e.Wrote? && e.octet.Release?), heard || e == Heard(Ready), t)
  {
    if e.Spawned? || e.Heard? || e.Wrote? || e.Killed? {
      ControlKeepsFit(c, next, e, released, heard, s, t);
    }
  }

  lemma ControlKeepsFit(c: Client, next: Client, e: Event, released: bool, heard: bool, s: System, t: System)
    requires Fits(c, released, heard, s) && Advance(c, e) == Some(next) && Takes(s, t, e)
    requires e.Spawned? || e.Heard? || e.Wrote? || e.Killed?
    ensures Fits(next, released || (e.Wrote? && e.octet.Release?), heard || e == Heard(Ready), t)
  {
  }

  lemma ClientKeepsConsistent(s: System, t: System, e: Event)
    requires Consistent(s) && ClientStep(s, t, e)
    ensures Consistent(t)
  {
    SummaryStep(s.log, e);
    ReplayStep(s.log, e);
    TakingKeepsFit(Replay(s.log).value, Replay(t.log).value, e, Releases(s.log) > 0, HeardReady(s.log), s, t);
  }

  lemma HelperKeepsConsistent(s: System, t: System)
    requires Consistent(s) && (HelperStep(s, t) || HelperDies(s, t))
    ensures Consistent(t)
  {
    HelperKeepsFit(Replay(s.log).value, Releases(s.log) > 0, HeardReady(s.log), s, t);
  }

  lemma HelperKeepsFit(c: Client, released: bool, heard: bool, s: System, t: System)
    requires Fits(c, released, heard, s) && (HelperStep(s, t) || HelperDies(s, t))
    ensures Fits(c, released, heard, t)
  {
  }

  lemma {:induction false} RunsAreConsistent(run: seq<System>, k: nat)
    requires IsRun(run) && k < |run|
    ensures Consistent(run[k])
  {
    if k > 0 {
      RunsAreConsistent(run, k - 1);
      var s, t := run[k - 1], run[k];
      assert Step(s, t);
      if HelperStep(s, t) || HelperDies(s, t) {
        HelperKeepsConsistent(s, t);
      } else {
        var e :| ClientStep(s, t, e);
        ClientKeepsConsistent(s, t, e);
      }
    }
  }

  // ----------------------------------------------------------- induction along a run

  /** What every step keeps holds on. */
  lemma {:induction false} Persists(run: seq<System>, holds: System -> bool, i: nat, k: nat)
    requires i <= k < |run| && holds(run[i])
    requires forall j :: i <= j < k && holds(run[j]) ==> holds(run[j + 1])
    ensures holds(run[k])
    decreases k
  {
    if i < k {
      Persists(run, holds, i, k - 1);
      assert holds(run[k - 1 + 1]);
    }
  }

  /** What begins to hold does so at some step. */
  lemma {:induction false} Begins(run: seq<System>, holds: System -> bool, i: nat, k: nat) returns (j: nat)
    requires i <= k < |run| && !holds(run[i]) && holds(run[k])
    ensures i <= j < k && !holds(run[j]) && holds(run[j + 1])
    decreases k
  {
    if holds(run[k - 1]) {
      j := Begins(run, holds, i, k - 1);
    } else {
      j := k - 1;
    }
  }

  // ------------------------------------------------------------------ main results

  /**
   Over every interleaving of replies, losses, timeouts, signals and helper steps, the
   helper runs exec at most once, and only once its own checks passed and the client
   sent one commit, was told with a receipt that this very transaction committed, wrote
   the release byte, and never asked for an abort.
   */
  lemma ExecNeedsConfirmedCommit(run: seq<System>, k: nat) returns (id: Id)
    requires IsRun(run) && k < |run| && run[k].execs > 0
    ensures run[k].execs == 1 && run[k].verified
    ensures Commits(run[k].log) == [id] && id in Confirmations(run[k].log)
    ensures Releases(run[k].log) == 1 && Undos(run[k].log) == 0
  {
    RunsAreConsistent(run, k);
    ClientIsOrderly(run[k].log);
    id := Commits(run[k].log)[0];
  }

  /** A commit is only ever sent while the helper, its checks passed, has reported ready. */
  lemma CommitNeedsVerifiedHelper(run: seq<System>, k: nat)
    requires IsRun(run) && k < |run| && Commits(run[k].log) != []
    ensures run[k].verified && HeardReady(run[k].log) && |Commits(run[k].log)| == 1
  {
    RunsAreConsistent(run, k);
    ClientIsOrderly(run[k].log);
    CommitFollowsReady(run[k].log);
  }

  lemma {:induction false} CommitFollowsReady(log: seq<Event>)
    requires Orderly(log) && Commits(log) != []
    ensures HeardReady(log)
    decreases |log|
  {
    var before := log[..|log| - 1];
    assert MayFollow(log[..|log| - 1], log[|log| - 1]);
    if Commits(before) != [] {
      forall i | 0 <= i < |before|
        ensures MayFollow(before[..i], before[i])
      {
        assert before[..i] == log[..i] && MayFollow(log[..i], log[i]);
      }
      CommitFollowsReady(before);
    }
  }

  /**
   A run in which no report confirms the commit writes no release byte and runs no
   exec; neither does one in which the client asked the server to abort.
   */
  lemma UnconfirmedRunsNeverExec(run: seq<System>, k: nat)
    requires IsRun(run) && k < |run|
    requires Confirmations(run[k].log) == {} || Undos(run[k].log) > 0
    ensures Releases(run[k].log) == 0 && run[k].execs == 0
    ensures !run[k].helper.Freed? && !run[k].helper.Execed? && Release !in run[k].toHelper
  {
    RunsAreConsistent(run, k);
    ClientIsOrderly(run[k].log);
  }

  lemma FinishedClientRests(s: System, t: System)
    requires Replay(s.log).Some? && Replay(s.log).value.Finished? && Step(s, t)
    ensures t.log == s.log
  {
    forall e
      ensures !ClientStep(s, t, e)
    {
    }
  }

  predicate HasFinished(log: seq<Event>) {
    Replay(log).Some? && Replay(log).value.Finished?
  }

  /** Once the client has finished, nothing it decided can change. */
  lemma FinishedIsFinal(run: seq<System>, k: nat, n: nat)
    requires IsRun(run) && k <= n < |run| && HasFinished(run[k].log)
    ensures run[n].log == run[k].log
  {
    var log := run[k].log;
    forall j | k <= j < n && run[j].log == log
      ensures run[j + 1].log == log
    {
      FinishedClientRests(run[j], run[j + 1]);
    }
    Persists(run, (s: System) => s.log == log, k, n);
  }

  /** A client that finished unconfirmed stays without exec however long the helper lives. */
  lemma FinishedUnconfirmedNeverExecs(run: seq<System>, k: nat, n: nat)
    requires IsRun(run) && k <= n < |run|
    requires Replay(run[k].log) == Some(Finished(false)) && Confirmations(run[k].log) == {}
    ensures run[n].execs == 0 && Releases(run[n].log) == 0
  {
    FinishedIsFinal(run, k, n);
    UnconfirmedRunsNeverExec(run, n);
  }

  // -------------------------------------------------- what a running client may conclude

  /** The helper is taken away after it reported ready and before it could exec. */
  ghost predicate Loses(s: System, t: System) {
    HelperDies(s, t) && (s.helper.Waiting? || s.helper.Freed?)
  }

  /** Control states from the helper's readiness to its exec. */
  predicate Relies(c: Client) {
    c.CanCommit? || c.AwaitCommit? || c.Polling? || c.AwaitResult? || c.CanRelease? || c.AwaitExec?
  }

  /** The helper can still exec, did so, or said that it cannot. */
  predicate IsAccountable(s: System) {
    s.helper.Waiting? || s.helper.Freed? || s.execs > 0 || Error in s.toClient
  }

  /** Helper and channels as long as the helper was not taken away too early. */
  ghost predicate IsTended(c: Client, s: System) {
    && (s.helper.Checking? ==> s.toClient == [])
    && (c.AwaitReady? && Ready in s.toClient ==> IsAccountable(s))
    && (Relies(c) ==> IsAccountable(s))
    && (c.AwaitReady? || Relies(c) ==> Abort !in s.toHelper)
    && (c.Running? ==> s.execs == 1)
  }

  lemma TakingKeepsTended(c: Client, next: Client, e: Event, released: bool, heard: bool, s: System, t: System)
    requires Fits(c, released, heard, s) && IsTended(c, s) && Advance(c, e) == Some(next) && Takes(s, t, e)
    ensures IsTended(next, t)
  {
  }

  lemma HelperKeepsTended(c: Client, released: bool, heard: bool, s: System, t: System)
    requires Fits(c, released, heard, s) && IsTended(c, s)
    requires HelperStep(s, t) || (HelperDies(s, t) && !Loses(s, t))
    ensures IsTended(c, t)
  {
  }

  lemma {:induction false} TendedRuns(run: seq<System>, k: nat)
    requires IsRun(run) && k < |run| && forall i :: 0 <= i < k ==> !Loses(run[i], run[i + 1])
    ensures Replay(run[k].log).Some? && IsTended(Replay(run[k].log).value, run[k])
  {
    if k > 0 {
      TendedRuns(run, k - 1);
      RunsAreConsistent(run, k - 1);
      assert !Loses(run[k - 1], run[k - 1 + 1]);
      TendedStep(run[k - 1], run[k]);
    }
  }

  lemma TendedStep(s: System, t: System)
    requires Consistent(s) && IsTended(Replay(s.log).value, s) && Step(s, t) && !Loses(s, t)
    ensures Replay(t.log).Some? && IsTended(Replay(t.log).value, t)
  {
    var c := Replay(s.log).value;
    if HelperStep(s, t) || HelperDies(s, t) {
      HelperKeepsTended(c, Releases(s.log) > 0, HeardReady(s.log), s, t);
    } else {
      var e :| ClientStep(s, t, e);
      ReplayStep(s.log, e);
      TakingKeepsTended(c, Advance(c, e).value, e, Releases(s.log) > 0, HeardReady(s.log), s, t);
    }
  }

  predicate IsGoneUnused(s: System) {
    s.helper.Gone? && s.execs == 0
  }

  lemma GoneStaysUnused(s: System, t: System)
    requires Consistent(s) && IsGoneUnused(s) && Step(s, t)
    ensures IsGoneUnused(t)
  {
    if !HelperStep(s, t) && !HelperDies(s, t) {
      var e :| ClientStep(s, t, e);
      assert !e.Spawned?;
    }
  }

  lemma LostIsUnused(run: seq<System>, i: nat, k: nat)
    requires IsRun(run) && i < k < |run| && Loses(run[i], run[i + 1])
    ensures IsGoneUnused(run[k])
  {
    RunsAreConsistent(run, i);
    forall j | i + 1 <= j < k && IsGoneUnused(run[j])
      ensures IsGoneUnused(run[j + 1])
    {
      RunsAreConsistent(run, j);
      GoneStaysUnused(run[j], run[j + 1]);
    }
    Persists(run, (s: System) => IsGoneUnused(s), i + 1, k);
  }

  /**
   A client that waits for the command has written the release byte of a confirmed
   commit, once, and its helper has execed or is gone. The command was really started
   if and only if the helper was not taken away between its readiness and its exec: a
   helper that fails to exec says so, one that is taken away only closes its socket.
   */
  lemma RunningMeansExecIff(run: seq<System>, k: nat, id: Id)
    requires IsRun(run) && k < |run| && Replay(run[k].log) == Some(Running(id))
    ensures run[k].helper.Execed? || run[k].helper.Gone?
    ensures CommitConfirmed(run[k].log, id) && Releases(run[k].log) == 1 && run[k].verified
    ensures run[k].execs == 1 <==> forall i :: 0 <= i < k ==> !Loses(run[i], run[i + 1])
  {
    RunsAreConsistent(run, k);
    ClientIsOrderly(run[k].log);
    CommitFollowsReady(run[k].log);
    if forall i :: 0 <= i < k ==> !Loses(run[i], run[i + 1]) {
      TendedRuns(run, k);
    } else {
      var i :| 0 <= i < k && Loses(run[i], run[i + 1]);
      LostIsUnused(run, i, k);
    }
  }

  ghost predicate WritesRelease(s: System, t: System) {
    exists ok :: t.log == s.log + [Wrote(Release, ok)]
  }

  predicate HasReleased(s: System) {
    Releases(s.log) > 0
  }

  lemma ReleaseStep(s: System, t: System)
    requires Step(s, t) && !HasReleased(s) && HasReleased(t)
    ensures WritesRelease(s, t)
  {
    if !HelperStep(s, t) && !HelperDies(s, t) {
      var e :| ClientStep(s, t, e);
      SummaryStep(s.log, e);
      assert e == Wrote(Release, e.ok);
    }
  }

  lemma ReleaseIsWritten(run: seq<System>, i: nat, k: nat) returns (j: nat)
    requires IsRun(run) && i <= k < |run| && !HasReleased(run[i]) && HasReleased(run[k])
    ensures i <= j < k && WritesRelease(run[j], run[j + 1])
  {
    j := Begins(run, (s: System) => HasReleased(s), i, k);
    ReleaseStep(run[j], run[j + 1]);
  }

  /**
   Where the helper is there to take the release byte and is not taken away between
   that byte and its exec, a client that waits for the command waits for one that was
   started.
   */
  lemma UndisturbedReleaseStarts(run: seq<System>, k: nat, id: Id)
    requires IsRun(run) && k < |run| && Replay(run[k].log) == Some(Running(id))
    requires forall i :: 0 <= i < k && WritesRelease(run[i], run[i + 1]) ==> !run[i].helper.Gone?
    requires forall i :: 0 <= i < k && Loses(run[i], run[i + 1]) ==> !HasReleased(run[i])
    ensures run[k].execs == 1
  {
    RunningMeansExecIff(run, k, id);
    forall i | 0 <= i < k
      ensures !Loses(run[i], run[i + 1])
    {
      if Loses(run[i], run[i + 1]) {
        LossPrecedesNoRelease(run, i, k);
      }
    }
  }

  /** After a loss nobody is there to take the release byte. */
  lemma LossPrecedesNoRelease(run: seq<System>, i: nat, k: nat)
    requires IsRun(run) && i < k < |run| && Loses(run[i], run[i + 1])
    requires !HasReleased(run[i]) && HasReleased(run[k])
    ensures exists j :: 0 <= j < k && WritesRelease(run[j], run[j + 1]) && run[j].helper.Gone?
  {
    DyingWritesNothing(run[i], run[i + 1]);
    var j := ReleaseIsWritten(run, i + 1, k);
    LostIsGone(run, i, j);
  }

  lemma LostIsGone(run: seq<System>, i: nat, j: nat)
    requires IsRun(run) && i < j < |run| && Loses(run[i], run[i + 1])
    ensures run[j].helper.Gone?
  {
    LostIsUnused(run, i, j);
  }

  lemma DyingWritesNothing(s: System, t: System)
    requires HelperDies(s, t)
    ensures t.log == s.log && !WritesRelease(s, t)
  {
    assert forall ok :: |s.log + [Wrote(Release, ok)]| == |s.log| + 1;
  }

  // ----------------------------------------------------------- a handoff that succeeds

  lemma RunGrows(run: seq<System>, t: System)
    requires IsRun(run) && Step(run[|run| - 1], t)
    ensures IsRun(run + [t])
  {
    var longer := run + [t];
    forall i | 0 <= i < |longer| - 1
      ensures Step(longer[i], longer[i + 1])
    {
      assert i < |run| - 1 ==> Step(run[i], run[i + 1]);
    }
  }

  /** A run that ends in a given system, with the client in a given control state. */
  ghost predicate IsReachable(s: System, c: Client) {
    Replay(s.log) == Some(c) && exists run :: IsRun(run) && run[|run| - 1] == s
  }

  lemma ClientMoves(s: System, c: Client, e: Event, t: System, next: Client)
    requires IsReachable(s, c) && Advance(c, e) == Some(next) && ClientStep(s, t, e)
    ensures IsReachable(t, next)
  {
    var run :| IsRun(run) && run[|run| - 1] == s;
    ReplayStep(s.log, e);
    RunGrows(run, t);
    assert (run + [t])[|run + [t]| - 1] == t;
  }

  lemma HelperMoves(s: System, c: Client, t: System)
    requires IsReachable(s, c) && HelperStep(s, t)
    ensures IsReachable(t, c)
  {
    var run :| IsRun(run) && run[|run| - 1] == s;
    RunGrows(run, t);
    assert (run + [t])[|run + [t]| - 1] == t;
  }

  lemma ServerIsGreeted() returns (s: System)
    ensures IsReachable(s, Greeted("snapshot")) && s == System(s.log, Unborn, [], [], false, 0)
  {
    var s0 := System([], Unborn, [], [], false, 0);
    assert IsReachable(s0, Idle) by {
      assert IsRun([s0]) && [s0][|[s0]| - 1] == s0;
    }
    var s1 := s0.(log := s0.log + [Sent(Hello)]);
    ClientMoves(s0, Idle, Sent(Hello), s1, AwaitGreeting);
    var greeting := Got(Greeting(true, true, true, "snapshot"));
    s := s1.(log := s1.log + [greeting]);
    ClientMoves(s1, AwaitGreeting, greeting, s, Greeted("snapshot"));
  }

  lemma TransactionIsPrepared(id: Id) returns (s: System)
    ensures IsReachable(s, Holding(id)) && s == System(s.log, Unborn, [], [], false, 0)
  {
    var s2 := ServerIsGreeted();
    var s3 := s2.(log := s2.log + [Sent(PrepareExec)]);
    ClientMoves(s2, Greeted("snapshot"), Sent(PrepareExec), s3, AwaitPrepared("snapshot"));
    var offer := Got(Prepared(id, true, "snapshot"));
    s := s3.(log := s3.log + [offer]);
    ClientMoves(s3, AwaitPrepared("snapshot"), offer, s, Holding(id));
  }

  lemma HelperIsReady(id: Id) returns (s: System)
    ensures IsReachable(s, CanCommit(id)) && s == System(s.log, Waiting, [], [], true, 0)
  {
    var s0 := TransactionIsPrepared(id);
    var s1 := s0.(log := s0.log + [Spawned(true)], helper := Checking);
    ClientMoves(s0, Holding(id), Spawned(true), s1, AwaitReady(id));
    var s2 := s1.(helper := Waiting, verified := true, toClient := [Ready]);
    HelperMoves(s1, AwaitReady(id), s2);
    s := s2.(log := s2.log + [Heard(Ready)], toClient := []);
    ClientMoves(s2, AwaitReady(id), Heard(Ready), s, CanCommit(id));
  }

  lemma CommitIsConfirmed(id: Id) returns (s: System)
    ensures IsReachable(s, CanRelease(id)) && s == System(s.log, Waiting, [], [], true, 0)
  {
    var s0 := HelperIsReady(id);
    var s1 := s0.(log := s0.log + [Sent(CommitExec(id))]);
    ClientMoves(s0, CanCommit(id), Sent(CommitExec(id)), s1, AwaitCommit(id));
    var report := Got(Report(id, Committed, Some("receipt"), None));
    s := s1.(log := s1.log + [report]);
    ClientMoves(s1, AwaitCommit(id), report, s, CanRelease(id));
  }

  /** The safety results are not empty: for every transaction some run reaches exec. */
  lemma ExecIsReachable(id: Id)
    ensures exists s: System :: IsReachable(s, AwaitExec(id)) && s.execs == 1
  {
    var s0 := CommitIsConfirmed(id);
    var s1 := s0.(log := s0.log + [Wrote(Release, true)], toHelper := [Release]);
    ClientMoves(s0, CanRelease(id), Wrote(Release, true), s1, AwaitExec(id));
    var s2 := s1.(helper := Freed, toHelper := []);
    HelperMoves(s1, AwaitExec(id), s2);
    var s3 := s2.(helper := Execed, execs := 1);
    HelperMoves(s2, AwaitExec(id), s3);
    assert IsReachable(s3, AwaitExec(id));
  }

  lemma HelperIsTakenAway(s: System, c: Client)
    requires IsReachable(s, c) && !s.helper.Unborn?
    ensures IsReachable(s.(helper := Gone), c)
  {
    var t := s.(helper := Gone);
    var run :| IsRun(run) && run[|run| - 1] == s;
    RunGrows(run, t);
    assert (run + [t])[|run + [t]| - 1] == t;
  }

  /** The client may wait for a command that was never started: its helper died in time. */
  lemma RunningWithoutExec(id: Id)
    ensures exists s: System :: IsReachable(s, Running(id)) && s.execs == 0 && s.helper.Gone?
  {
    var s0 := CommitIsConfirmed(id);
    var s1 := s0.(log := s0.log + [Wrote(Release, true)], toHelper := [Release]);
    ClientMoves(s0, CanRelease(id), Wrote(Release, true), s1, AwaitExec(id));
    HelperIsTakenAway(s1, AwaitExec(id));
    var s2 := s1.(helper := Gone);
    var s3 := s2.(log := s2.log + [Heard(Closed)]);
    ClientMoves(s2, AwaitExec(id), Heard(Closed), s3, Running(id));
    assert IsReachable(s3, Running(id));
  }
}
