/**
 The client procedures (`prepare_until`, `commit_until`, `poll_exec_result`) and the
 `exec` command that drives them together with the preflight helper. The server is a
 script of replies that ends when the deadline passes.
 */
module HandoffClient {
  import opened Prelude
  import opened HandoffTrace

  /** Answers from outside other than the replies of the server. */
  datatype Surroundings = Surroundings(
    argvValid: bool,
    messageValid: bool,
    spawns: bool,
    readiness: ControlMessage,
    releases: bool,
    abortWritten: bool,
    afterRelease: ControlMessage,
    reaped: bool)

  function Next(replies: seq<Reply>): Reply {
    if replies == [] then Lost else replies[0]
  }

  function Rest(replies: seq<Reply>): seq<Reply> {
    if replies == [] then [] else replies[1..]
  }

  // ------------------------------------------------------------ outcomes of a commit

  function PollOutcome(id: Id, replies: seq<Reply>): Result<string, ClientError> {
    if replies == [] then Err(OutcomeIsUnknown)
    else match PollVerdict(id, replies[0])
      case Confirmed(receipt) => Ok(receipt)
      case Rejected(error) => Err(error)
      case Undecided => PollOutcome(id, replies[1..])
  }

  function CommitOutcome(id: Id, replies: seq<Reply>): Result<string, ClientError> {
    match CommitVerdict(id, Next(replies))
    case Confirmed(receipt) => Ok(receipt)
    case Rejected(error) => Err(error)
    case Undecided => PollOutcome(id, Rest(replies))
  }

  predicate Confirms(reply: Reply, id: Id, receipt: string) {
    reply.Report? && reply.id == id && reply.state.Committed? && reply.receipt == Some(receipt)
  }

  /** The transaction is reported as still under way. */
  predicate StillOpen(reply: Reply, id: Id) {
    reply.Report? && reply.id == id && (reply.state.Open? || reply.state.Committing?)
  }

  /** The answer to the commit request leaves the outcome to be asked for. */
  predicate LeavesOpen(reply: Reply, id: Id) {
    StillOpen(reply, id) || reply.Lost? || reply.Garbled? || (reply.Refused? && reply.error.unknownTransaction)
  }

  ghost predicate PollConfirmedAt(replies: seq<Reply>, id: Id, receipt: string, k: nat) {
    && k < |replies| && Confirms(replies[k], id, receipt)
    && forall j :: 0 <= j < k ==> StillOpen(replies[j], id)
  }

  lemma {:induction false} PollSucceedsIff(id: Id, replies: seq<Reply>, receipt: string)
    ensures PollOutcome(id, replies) == Ok(receipt) <==> exists k: nat :: PollConfirmedAt(replies, id, receipt, k)
    decreases |replies|
  {
    if replies != [] {
      var rest := replies[1..];
      PollSucceedsIff(id, rest, receipt);
      if StillOpen(replies[0], id) {
        forall k: nat | PollConfirmedAt(replies, id, receipt, k)
          ensures exists r: nat :: PollConfirmedAt(rest, id, receipt, r)
        {
          assert k > 0;
          assert PollConfirmedAt(rest, id, receipt, k - 1);
        }
        forall r: nat | PollConfirmedAt(rest, id, receipt, r)
          ensures PollConfirmedAt(replies, id, receipt, r + 1)
        {
          forall j | 0 <= j < r + 1
            ensures StillOpen(replies[j], id)
          {
            assert j > 0 ==> replies[j] == rest[j - 1];
          }
        }
      } else {
        assert Confirms(replies[0], id, receipt) ==> PollConfirmedAt(replies, id, receipt, 0);
      }
    }
  }

  /**
   A commit returns a receipt exactly when the first reply that settles the matter
   reports this transaction committed with that receipt; the reply to the commit
   itself may be lost, garbled or unaware of the transaction, a reply to a poll may not.
   */
  lemma CommitSucceedsIff(id: Id, replies: seq<Reply>, receipt: string)
    ensures CommitOutcome(id, replies) == Ok(receipt) <==>
              && replies != []
              && (|| Confirms(replies[0], id, receipt)
                  || (LeavesOpen(replies[0], id) && exists k: nat :: PollConfirmedAt(replies[1..], id, receipt, k)))
  {
    PollSucceedsIff(id, Rest(replies), receipt);
  }

  // ------------------------------------------------------------------- traces and scripts

  /** What a procedure shows, and what it leaves of the script. */
  datatype Course = Course(events: seq<Event>, rest: seq<Reply>)

  function Ahead(events: seq<Event>, c: Course): Course {
    Course(events + c.events, c.rest)
  }

  function Exchange(request: Request, replies: seq<Reply>): seq<Event> {
    [Sent(request), Got(Next(replies))]
  }

  function PollCourse(id: Id, replies: seq<Reply>): Course {
    if replies == [] then Course([Expired], [])
    else if PollVerdict(id, replies[0]).Undecided? then
      Ahead(Exchange(GetExecResult(id), replies), PollCourse(id, replies[1..]))
    else Course(Exchange(GetExecResult(id), replies), replies[1..])
  }

  function CommitCourse(id: Id, replies: seq<Reply>): Course {
    var first := Exchange(CommitExec(id), replies);
    if CommitVerdict(id, Next(replies)).Undecided? then Ahead(first, PollCourse(id, Rest(replies)))
    else Course(first, Rest(replies))
  }

  function HandBackCourse(id: Id, replies: seq<Reply>): Course {
    Course(Exchange(AbortExec(id), replies), Rest(replies))
  }

  /** The helper is told to stop and killed; the server is asked to abort exactly when `undo` says so. */
  function StopCourse(s: Surroundings, id: Id, undo: bool, replies: seq<Reply>): Course {
    var stopped := [Wrote(Abort, s.abortWritten), Killed];
    if undo then Ahead(stopped, HandBackCourse(id, replies)) else Course(stopped, replies)
  }

  // ------------------------------------------------------------- outcomes of a preparation

  /** A held transaction, if any, and the course to it. */
  datatype Preparation = Preparation(held: Option<Id>, course: Course)

  function After(events: seq<Event>, p: Preparation): Preparation {
    p.(course := Ahead(events, p.course))
  }

  function Rounds(s: Surroundings, replies: seq<Reply>): (r: Preparation)
    decreases |replies|
  {
    if replies == [] then Preparation(None, Course([Expired], []))
    else
      var greeting, greeted := Exchange(Hello, replies), AfterGreeting(replies[0]);
      if greeted.Idle? then After(greeting, Rounds(s, replies[1..]))
      else if !greeted.Greeted? then Preparation(None, Course(greeting, replies[1..]))
      else if !s.messageValid then Preparation(None, Course(greeting + [Unfit], replies[1..]))
      else After(greeting, Asked(s, greeted.snapshot, replies[1..]))
  }

  function Asked(s: Surroundings, snapshot: string, replies: seq<Reply>): (r: Preparation)
    decreases |replies|, 1
  {
    var asking, after := Exchange(PrepareExec, replies), AfterPrepare(snapshot, Next(replies));
    if after.Idle? && replies != [] then After(asking, Rounds(s, Rest(replies)))
    else if after.Holding? then Preparation(Some(after.id), Course(asking, Rest(replies)))
    else if after.Undoing? then Preparation(None, Ahead(asking, HandBackCourse(after.id, Rest(replies))))
    else Preparation(None, Course(asking, Rest(replies)))
  }

  function Preparing(s: Surroundings, replies: seq<Reply>): Preparation {
    if s.argvValid then Rounds(s, replies) else Preparation(None, Course([Unfit], replies))
  }

  /** A server that is ready, compatible and takes the inputs. */
  predicate Welcomes(reply: Reply) {
    reply.Greeting? && reply.ready && reply.compatible && reply.inputsAllowed
  }

  predicate RefusesForNow(reply: Reply) {
    reply.Refused? && reply.error.retryable
  }

  /** The first `k` replies are rounds that end in an invitation to try again. */
  ghost predicate TriesAgain(replies: seq<Reply>, k: nat) {
    || k == 0
    || (k <= |replies| && (RefusesForNow(replies[0]) || (replies[0].Greeting? && !replies[0].ready))
        && TriesAgain(replies[1..], k - 1))
    || (2 <= k <= |replies| && Welcomes(replies[0]) && RefusesForNow(replies[1]) && TriesAgain(replies[2..], k - 2))
  }

  /** After such rounds the server welcomes the client and prepares the transaction on that snapshot. */
  ghost predicate OffersAt(replies: seq<Reply>, id: Id, k: nat) {
    && TriesAgain(replies, k) && k + 1 < |replies|
    && Welcomes(replies[k]) && replies[k + 1] == Reply.Prepared(id, true, replies[k].snapshot)
  }

  ghost predicate IsOffered(replies: seq<Reply>, id: Id) {
    exists k: nat :: OffersAt(replies, id, k)
  }

  lemma OfferAfterOne(replies: seq<Reply>, id: Id)
    requires replies != [] && (RefusesForNow(replies[0]) || (replies[0].Greeting? && !replies[0].ready))
    ensures IsOffered(replies, id) <==> IsOffered(replies[1..], id)
  {
    forall k: nat | OffersAt(replies, id, k)
      ensures IsOffered(replies[1..], id)
    {
      assert OffersAt(replies[1..], id, k - 1);
    }
    forall k: nat | OffersAt(replies[1..], id, k)
      ensures IsOffered(replies, id)
    {
      assert OffersAt(replies, id, k + 1);
    }
  }

  lemma OfferAfterTwo(replies: seq<Reply>, id: Id)
    requires |replies| >= 2 && Welcomes(replies[0]) && RefusesForNow(replies[1])
    ensures IsOffered(replies, id) <==> IsOffered(replies[2..], id)
  {
    forall k: nat | OffersAt(replies, id, k)
      ensures IsOffered(replies[2..], id)
    {
      assert OffersAt(replies[2..], id, k - 2);
    }
    forall k: nat | OffersAt(replies[2..], id, k)
      ensures IsOffered(replies, id)
    {
      assert OffersAt(replies, id, k + 2);
    }
  }

  /** Anything else settles the preparation at once. */
  lemma OfferIsNow(replies: seq<Reply>, id: Id)
    requires replies != [] && !RefusesForNow(replies[0]) && !(replies[0].Greeting? && !replies[0].ready)
    requires !(|replies| >= 2 && Welcomes(replies[0]) && RefusesForNow(replies[1]))
    ensures IsOffered(replies, id) <==> OffersAt(replies, id, 0)
  {
    forall k: nat | OffersAt(replies, id, k)
      ensures k == 0
    {
    }
  }

  /**
   A preparation holds a transaction exactly when, after rounds the server lets the client
   repeat, the server welcomes the client and prepares that transaction on the snapshot of
   its welcome.
   */
  lemma {:induction false} PrepareSucceedsIff(s: Surroundings, replies: seq<Reply>, id: Id)
    ensures Rounds(s, replies).held == Some(id) <==> s.messageValid && IsOffered(replies, id)
    decreases |replies|
  {
    if replies != [] {
      var greeted := AfterGreeting(replies[0]);
      if greeted.Idle? {
        OfferAfterOne(replies, id);
        PrepareSucceedsIff(s, replies[1..], id);
      } else if greeted.Greeted? && s.messageValid && |replies| >= 2 && RefusesForNow(replies[1]) {
        assert replies[1..][1..] == replies[2..];
        OfferAfterTwo(replies, id);
        PrepareSucceedsIff(s, replies[2..], id);
      } else {
        SettledAtOnce(s, replies, id);
      }
    }
  }

  lemma SettledAtOnce(s: Surroundings, replies: seq<Reply>, id: Id)
    requires replies != [] && !AfterGreeting(replies[0]).Idle?
    requires !(AfterGreeting(replies[0]).Greeted? && s.messageValid && |replies| >= 2 && RefusesForNow(replies[1]))
    ensures Rounds(s, replies).held == Some(id) <==> s.messageValid && IsOffered(replies, id)
  {
    if s.messageValid {
      OfferIsNow(replies, id);
    }
  }

  // ------------------------------------------------------------------ the whole command

  function ReleaseCourse(s: Surroundings, id: Id, replies: seq<Reply>): Course {
    if !s.releases then Ahead([Wrote(Release, false)], StopCourse(s, id, false, replies))
    else Ahead([Wrote(Release, true)], AwaitCourse(s, id, replies))
  }

  function AwaitCourse(s: Surroundings, id: Id, replies: seq<Reply>): Course {
    if !s.afterRelease.Closed? then Ahead([Heard(s.afterRelease)], StopCourse(s, id, false, replies))
    else Course([Heard(s.afterRelease), Reaped(s.reaped)], replies)
  }

  function HelperCourse(s: Surroundings, id: Id, replies: seq<Reply>): Course {
    if !s.readiness.Ready? then Ahead([Heard(s.readiness)], StopCourse(s, id, true, replies))
    else
      var commit := CommitCourse(id, replies);
      Ahead([Heard(s.readiness)] + commit.events,
            if CommitOutcome(id, replies).Ok? then ReleaseCourse(s, id, commit.rest)
            else StopCourse(s, id, true, commit.rest))
  }

  function ExecCourse(s: Surroundings, replies: seq<Reply>): Course {
    var p := Preparing(s, replies);
    if p.held.None? then p.course
    else Ahead(p.course.events + [Spawned(s.spawns)],
               if s.spawns then HelperCourse(s, p.held.value, p.course.rest) else HandBackCourse(p.held.value, p.course.rest))
  }

  /** Everything that has to go well. */
  predicate ExecSucceeds(s: Surroundings, replies: seq<Reply>) {
    var p := Preparing(s, replies);
    && p.held.Some? && s.spawns && s.readiness.Ready?
    && CommitOutcome(p.held.value, p.course.rest).Ok?
    && s.releases && s.afterRelease.Closed? && s.reaped
  }

  // ------------------------------------------------------------------- the procedures

  class Session {
    var log: seq<Event>
    var replies: seq<Reply>

    constructor (script: seq<Reply>)
      ensures log == [] && replies == script
    {
      log := [];
      replies := script;
    }

    /** The session has gone on by this course. */
    twostate predicate Goes(c: Course)
      reads this
    {
      log == old(log) + c.events && replies == c.rest
    }

    method Record(e: Event)
      requires Replay(log).Some? && Advance(Replay(log).value, e).Some?
      modifies this`log
      ensures Replay(log) == Advance(old(Replay(log)).value, e)
      ensures log == old(log) + [e]
    {
      ReplayStep(log, e);
      log := log + [e];
    }

    /** One request on its own connection, and the reply to it. */
    method Request(request: Request, ghost waiting: Client) returns (reply: Reply)
      requires Replay(log).Some? && Advance(Replay(log).value, Sent(request)) == Some(waiting)
      requires forall r :: Advance(waiting, Got(r)).Some?
      modifies this
      ensures reply == Next(old(replies)) && Replay(log) == Advance(waiting, Got(reply))
      ensures log == old(log) + Exchange(request, old(replies)) && replies == Rest(old(replies))
    {
      Record(Sent(request));
      reply := Next(replies);
      replies := Rest(replies);
      Record(Got(reply));
    }

    method CommitUntil(id: Id) returns (r: Result<string, ClientError>)
      requires Replay(log) == Some(CanCommit(id))
      modifies this
      ensures Replay(log) == Some(if r.Ok? then CanRelease(id) else Stopping(id, true))
      ensures r == CommitOutcome(id, old(replies))
      ensures Goes(CommitCourse(id, old(replies)))
    {
      ghost var before, script := log, replies;
      var first := Request(CommitExec(id), AwaitCommit(id));
      match CommitVerdict(id, first)
      case Confirmed(receipt) => return Ok(receipt);
      case Rejected(error) => return Err(error);
      case Undecided =>
        r := PollExecResult(id);
        AppendAssociates(before, Exchange(CommitExec(id), script), PollCourse(id, Rest(script)).events);
    }

    method PollExecResult(id: Id) returns (r: Result<string, ClientError>)
      requires Replay(log) == Some(Polling(id))
      modifies this
      ensures Replay(log) == Some(if r.Ok? then CanRelease(id) else Stopping(id, true))
      ensures r == PollOutcome(id, old(replies))
      ensures Goes(PollCourse(id, old(replies)))
    {
      while replies != []
        invariant Replay(log) == Some(Polling(id))
        invariant PollOutcome(id, replies) == PollOutcome(id, old(replies))
        invariant log + PollCourse(id, replies).events == old(log) + PollCourse(id, old(replies)).events
        invariant PollCourse(id, replies).rest == PollCourse(id, old(replies)).rest
        decreases |replies|
      {
        ghost var before, script := log, replies;
        var reply := Request(GetExecResult(id), AwaitResult(id));
        var verdict := PollVerdict(id, reply);
        if verdict.Confirmed? {
          return Ok(verdict.receipt);
        }
        if verdict.Rejected? {
          return Err(verdict.error);
        }
        AppendAssociates(before, Exchange(GetExecResult(id), script), PollCourse(id, replies).events);
      }
      Record(Expired);
      return Err(OutcomeIsUnknown);
    }

    /** The retry loop: it ends with a held transaction or with nothing left to undo. */
    method PrepareUntil(s: Surroundings) returns (r: Option<Id>)
      requires Replay(log) == Some(Idle)
      modifies this
      ensures Replay(log) == Some(if r.Some? then Holding(r.value) else Finished(false))
      ensures r == Preparing(s, old(replies)).held
      ensures Goes(Preparing(s, old(replies)).course)
    {
      if !s.argvValid {
        Record(Unfit);
        return None;
      }
      while replies != []
        invariant Replay(log) == Some(Idle)
        invariant ContinuesTo(s, log, replies, old(log), old(replies))
        decreases |replies|
      {
        ghost var before, script := log, replies;
        var retry;
        r, retry := PrepareOnce(s);
        if !retry {
          return;
        }
        Continues(s, log, replies, before, script, old(log), old(replies));
      }
      Record(Expired);
      return None;
    }

    /** One round: a settled preparation, or the whole of it continues from here. */
    method PrepareOnce(s: Surroundings) returns (r: Option<Id>, retry: bool)
      requires Replay(log) == Some(Idle) && replies != []
      modifies this
      ensures |replies| < |old(replies)|
      ensures Replay(log) == Some(if retry then Idle else if r.Some? then Holding(r.value) else Finished(false))
      ensures retry ==> ContinuesTo(s, log, replies, old(log), old(replies))
      ensures !retry ==> r == Rounds(s, old(replies)).held && Goes(Rounds(s, old(replies)).course)
    {
      ghost var before, script := log, replies;
      var greeting := Request(Hello, AwaitGreeting);
      var greeted := AfterGreeting(greeting);
      if !greeted.Greeted? {
        AppendAssociates(before, Exchange(Hello, script), Rounds(s, replies).course.events);
        return None, greeted.Idle?;
      }
      if !s.messageValid {
        Record(Unfit);
        AppendAssociates(before, Exchange(Hello, script), [Unfit]);
        return None, false;
      }
      ghost var asked := Asked(s, greeted.snapshot, replies);
      r, retry := AskToPrepare(s, greeted.snapshot);
      AppendAssociates(before, Exchange(Hello, script), asked.course.events);
    }

    /** The request itself; an unusable transaction is handed back to the server. */
    method AskToPrepare(s: Surroundings, snapshot: string) returns (r: Option<Id>, retry: bool)
      requires Replay(log) == Some(Greeted(snapshot))
      modifies this
      ensures |replies| <= |old(replies)|
      ensures Replay(log) == Some(if retry then Idle else if r.Some? then Holding(r.value) else Finished(false))
      ensures retry ==>
                var whole := Asked(s, snapshot, old(replies));
                && log + Rounds(s, replies).course.events == old(log) + whole.course.events
                && Rounds(s, replies).course.rest == whole.course.rest && Rounds(s, replies).held == whole.held
      ensures !retry ==> r == Asked(s, snapshot, old(replies)).held && Goes(Asked(s, snapshot, old(replies)).course)
    {
      ghost var before, script := log, replies;
      var answer := Request(PrepareExec, AwaitPrepared(snapshot));
      var after := AfterPrepare(snapshot, answer);
      if after.Holding? {
        return Some(after.id), false;
      }
      if after.Undoing? {
        ghost var back := HandBackCourse(after.id, replies);
        HandBack(after.id);
        AppendAssociates(before, Exchange(PrepareExec, script), back.events);
        return None, false;
      }
      AppendAssociates(before, Exchange(PrepareExec, script), Rounds(s, replies).course.events);
      return None, after.Idle?;
    }

    /** One abort request, whatever the answer. */
    method HandBack(id: Id)
      requires Replay(log) == Some(Undoing(id))
      modifies this
      ensures Replay(log) == Some(Finished(false)) && Goes(HandBackCourse(id, old(replies)))
      ensures |replies| <= |old(replies)|
    {
      var _ := Request(AbortExec(id), AwaitUndone(id));
    }

    /** Stops the helper, and asks the server to abort exactly when the commit was not confirmed. */
    method Stop(s: Surroundings, id: Id, undo: bool)
      requires Replay(log) == Some(Stopping(id, undo))
      modifies this
      ensures Replay(log) == Some(Finished(false)) && Goes(StopCourse(s, id, undo, old(replies)))
    {
      ghost var before, script := log, replies;
      Kill(s, id, undo);
      if undo {
        HandBack(id);
        AppendAssociates(before, [Wrote(Abort, s.abortWritten), Killed], HandBackCourse(id, script).events);
      }
    }

    method Kill(s: Surroundings, ghost id: Id, ghost undo: bool)
      requires Replay(log) == Some(Stopping(id, undo))
      modifies this`log
      ensures Replay(log) == Some(if undo then Undoing(id) else Finished(false))
      ensures log == old(log) + [Wrote(Abort, s.abortWritten), Killed]
    {
      Record(Wrote(Abort, s.abortWritten));
      Record(Killed);
    }

    /**
     The `exec` command: prepare, preflight, commit, release. What it shows and how it
     ends is determined by the script and the surroundings: it succeeds if and only if
     everything goes well. Its trace is one of the automaton, hence orderly.
     */
    method Exec(s: Surroundings) returns (succeeded: bool)
      requires log == []
      modifies this
      ensures succeeded <==> ExecSucceeds(s, old(replies))
      ensures log == ExecCourse(s, old(replies)).events && replies == ExecCourse(s, old(replies)).rest
      ensures Replay(log) == Some(Finished(succeeded))
      ensures Orderly(log) && |Commits(log)| <= 1 && Releases(log) <= 1
      ensures Releases(log) == 1 ==> |Commits(log)| == 1 && CommitConfirmed(log, Commits(log)[0])
      ensures succeeded ==> Releases(log) == 1
    {
      succeeded := Drive(s);
      assert [] + ExecCourse(s, old(replies)).events == ExecCourse(s, old(replies)).events;
      ClientIsOrderly(log);
    }

    method Drive(s: Surroundings) returns (succeeded: bool)
      requires log == []
      modifies this
      ensures Replay(log) == Some(Finished(succeeded))
      ensures succeeded <==> ExecSucceeds(s, old(replies))
      ensures Goes(ExecCourse(s, old(replies)))
    {
      ghost var before, p := log, Preparing(s, replies);
      var prepared := PrepareUntil(s);
      if prepared.None? {
        return false;
      }
      var id := prepared.value;
      Record(Spawned(s.spawns));
      AppendAssociates(before, p.course.events, [Spawned(s.spawns)]);
      if !s.spawns {
        HandBack(id);
        AppendAssociates(before, p.course.events + [Spawned(s.spawns)], HandBackCourse(id, p.course.rest).events);
        return false;
      }
      succeeded := DriveHelper(s, id);
      AppendAssociates(before, p.course.events + [Spawned(s.spawns)], HelperCourse(s, id, p.course.rest).events);
    }

    /** From a spawned helper on: readiness, then commit, then release. */
    method DriveHelper(s: Surroundings, id: Id) returns (succeeded: bool)
      requires Replay(log) == Some(AwaitReady(id))
      modifies this
      ensures Replay(log) == Some(Finished(succeeded))
      ensures succeeded <==>
                && s.readiness.Ready? && CommitOutcome(id, old(replies)).Ok?
                && s.releases && s.afterRelease.Closed? && s.reaped
      ensures Goes(HelperCourse(s, id, old(replies)))
    {
      ghost var before, script := log, replies;
      ghost var heard := [Heard(s.readiness)];
      Record(Heard(s.readiness));
      if !s.readiness.Ready? {
        Stop(s, id, true);
        AppendAssociates(before, heard, StopCourse(s, id, true, script).events);
        return false;
      }
      ghost var commit := CommitCourse(id, script);
      var committed := CommitUntil(id);
      AppendAssociates(before, heard, commit.events);
      if committed.Err? {
        Stop(s, id, true);
        AppendAssociates(before, heard + commit.events, StopCourse(s, id, true, commit.rest).events);
        return false;
      }
      succeeded := ReleaseHelper(s, id);
      AppendAssociates(before, heard + commit.events, ReleaseCourse(s, id, commit.rest).events);
    }

    /** After a confirmed commit nothing is undone on the server any more. */
    method ReleaseHelper(s: Surroundings, id: Id) returns (succeeded: bool)
      requires Replay(log) == Some(CanRelease(id))
      modifies this
      ensures Replay(log) == Some(Finished(succeeded))
      ensures succeeded <==> s.releases && s.afterRelease.Closed? && s.reaped
      ensures Goes(ReleaseCourse(s, id, old(replies)))
    {
      ghost var before, script := log, replies;
      Record(Wrote(Release, s.releases));
      if !s.releases {
        Stop(s, id, false);
        AppendAssociates(before, [Wrote(Release, false)], StopCourse(s, id, false, script).events);
        return false;
      }
      succeeded := AwaitCommand(s, id);
      AppendAssociates(before, [Wrote(Release, true)], AwaitCourse(s, id, script).events);
    }

    method AwaitCommand(s: Surroundings, id: Id) returns (succeeded: bool)
      requires Replay(log) == Some(AwaitExec(id))
      modifies this
      ensures Replay(log) == Some(Finished(succeeded))
      ensures succeeded <==> s.afterRelease.Closed? && s.reaped
      ensures Goes(AwaitCourse(s, id, old(replies)))
    {
      ghost var before, script := log, replies;
      Record(Heard(s.afterRelease));
      if !s.afterRelease.Closed? {
        Stop(s, id, false);
        AppendAssociates(before, [Heard(s.afterRelease)], StopCourse(s, id, false, script).events);
        return false;
      }
      Record(Reaped(s.reaped));
      return s.reaped;
    }
  }

  /** What is left of a preparation, from this log and script, completes the one from that log and script. */
  ghost predicate ContinuesTo(s: Surroundings, log: seq<Event>, replies: seq<Reply>, before: seq<Event>, script: seq<Reply>) {
    var here, whole := Rounds(s, replies), Rounds(s, script);
    && log + here.course.events == before + whole.course.events
    && here.course.rest == whole.course.rest && here.held == whole.held
  }

  lemma Continues(s: Surroundings, log: seq<Event>, replies: seq<Reply>, before: seq<Event>, script: seq<Reply>,
                  start: seq<Event>, all: seq<Reply>)
    requires ContinuesTo(s, log, replies, before, script) && ContinuesTo(s, before, script, start, all)
    ensures ContinuesTo(s, log, replies, start, all)
  {
  }
}
