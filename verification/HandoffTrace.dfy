/**
 The client side of a handoff as an automaton over the events it can observe:
 requests, replies, control messages, control bytes and the passing of the deadline.
 A monitor, written without the automaton, says what an orderly handoff is.
 */
module HandoffTrace {
  import opened Prelude

  type Id = string

  datatype Request = Hello | PrepareExec | CommitExec(id: Id) | GetExecResult(id: Id) | AbortExec(id: Id)

  datatype TransactionState = Open | Committing | Committed | Failed | OutcomeUnknown | Aborted

  /** An error of the server: of its class only `unknown_transaction` matters here. */
  datatype BackendError = BackendError(unknownTransaction: bool, retryable: bool)

  datatype Reply =
    | Lost                                      // no connection, no answer, or too late
    | Garbled                                   // an answer outside the protocol
    | Refused(error: BackendError)
    | Greeting(ready: bool, compatible: bool, inputsAllowed: bool, snapshot: string)
    | Prepared(id: Id, valid: bool, snapshot: string)
    | Report(id: Id, state: TransactionState, receipt: Option<string>, failure: Option<BackendError>)
    | Other

  datatype ControlMessage = Ready | Error | Closed | Broken

  datatype ControlByte = Release | Abort

  datatype Event =
    | Sent(request: Request)
    | Got(reply: Reply)
    | Unfit                                     // the request itself fails validation
    | Expired                                   // a loop found its deadline passed
    | Spawned(ok: bool)
    | Heard(message: ControlMessage)
    | Wrote(octet: ControlByte, ok: bool)
    | Killed
    | Reaped(ok: bool)

  datatype ClientError = Backend(error: BackendError) | UnexpectedResponse | OutcomeIsUnknown | TimedOut | Connection | Protocol

  // ----------------------------------------------------------------- reading replies

  datatype Verdict = Confirmed(receipt: string) | Rejected(error: ClientError) | Undecided

  /** The client's own errors are never worth repeating. */
  const LOCAL_ERROR := BackendError(false, false)

  /** `commit_result_if_done`: a failure passes on the server's error, if it came with one. */
  function ReportVerdict(state: TransactionState, receipt: Option<string>, failure: Option<BackendError>): Verdict {
    match state
    case Committed => if receipt.Some? then Confirmed(receipt.value) else Rejected(UnexpectedResponse)
    case Failed => Rejected(Backend(if failure.Some? then failure.value else LOCAL_ERROR))
    case OutcomeUnknown => Rejected(OutcomeIsUnknown)
    case Open => Undecided
    case Committing => Undecided
    case Aborted => Rejected(Backend(LOCAL_ERROR))
  }

  /** What the answer to `CommitExec(id)` settles. */
  function CommitVerdict(id: Id, reply: Reply): Verdict {
    match reply
    case Report(other, state, receipt, failure) =>
      if other == id then ReportVerdict(state, receipt, failure) else Rejected(UnexpectedResponse)
    case Refused(error) => if error.unknownTransaction then Undecided else Rejected(Backend(error))
    case Lost => Undecided
    case Garbled => Undecided
    case _ => Rejected(UnexpectedResponse)
  }

  /** What the answer to `GetExecResult(id)` settles. */
  function PollVerdict(id: Id, reply: Reply): Verdict {
    match reply
    case Report(other, state, receipt, failure) =>
      if other == id then ReportVerdict(state, receipt, failure) else Rejected(UnexpectedResponse)
    case Refused(error) => Rejected(if error.unknownTransaction then OutcomeIsUnknown else Backend(error))
    case Lost => Rejected(OutcomeIsUnknown)
    case Garbled => Rejected(Protocol)
    case _ => Rejected(UnexpectedResponse)
  }

  // ------------------------------------------------------------------- the automaton

  datatype Client =
    | Idle
    | AwaitGreeting
    | Greeted(snapshot: string)
    | AwaitPrepared(snapshot: string)
    | Holding(id: Id)
    | AwaitReady(id: Id)
    | CanCommit(id: Id)
    | AwaitCommit(id: Id)
    | Polling(id: Id)
    | AwaitResult(id: Id)
    | CanRelease(id: Id)
    | AwaitExec(id: Id)
    | Running(id: Id)
    | Stopping(id: Id, undo: bool)
    | Killing(id: Id, undo: bool)
    | Undoing(id: Id)
    | AwaitUndone(id: Id)
    | Finished(succeeded: bool)

  function AfterVerdict(id: Id, v: Verdict): Client {
    match v
    case Confirmed(_) => CanRelease(id)
    case Rejected(_) => Stopping(id, true)
    case Undecided => Polling(id)
  }

  function AfterGreeting(reply: Reply): Client {
    match reply
    case Refused(error) => if error.retryable then Idle else Finished(false)
    case Greeting(ready, compatible, inputsAllowed, snapshot) =>
      if !ready then Idle
      else if compatible && inputsAllowed then Greeted(snapshot)
      else Finished(false)
    case _ => Finished(false)
  }

  function AfterPrepare(snapshot: string, reply: Reply): Client {
    match reply
    case Refused(error) => if error.retryable then Idle else Finished(false)
    case Prepared(id, valid, actual) =>
      if valid && actual == snapshot then Holding(id)
      else if id != "" then Undoing(id)
      else Finished(false)
    case _ => Finished(false)
  }

  /** The next control state, or nothing where the client never shows this event. */
  function Advance(c: Client, e: Event): Option<Client> {
    match c
    case Idle =>
      if e == Sent(Hello) then Some(AwaitGreeting)
      else if e.Unfit? || e.Expired? then Some(Finished(false))
      else None
    case AwaitGreeting => if e.Got? then Some(AfterGreeting(e.reply)) else None
    case Greeted(snapshot) =>
      if e == Sent(PrepareExec) then Some(AwaitPrepared(snapshot))
      else if e.Unfit? then Some(Finished(false))
      else None
    case AwaitPrepared(snapshot) => if e.Got? then Some(AfterPrepare(snapshot, e.reply)) else None
    case Holding(id) => if e.Spawned? then Some(if e.ok then AwaitReady(id) else Undoing(id)) else None
    case AwaitReady(id) => if e.Heard? then Some(if e.message.Ready? then CanCommit(id) else Stopping(id, true)) else None
    case CanCommit(id) => if e == Sent(CommitExec(id)) then Some(AwaitCommit(id)) else None
    case AwaitCommit(id) => if e.Got? then Some(AfterVerdict(id, CommitVerdict(id, e.reply))) else None
    case Polling(id) =>
      if e == Sent(GetExecResult(id)) then Some(AwaitResult(id))
      else if e.Expired? then Some(Stopping(id, true))
      else None
    case AwaitResult(id) => if e.Got? then Some(AfterVerdict(id, PollVerdict(id, e.reply))) else None
    case CanRelease(id) =>
      if e.Wrote? && e.octet.Release? then Some(if e.ok then AwaitExec(id) else Stopping(id, false)) else None
    case AwaitExec(id) => if e.Heard? then Some(if e.message.Closed? then Running(id) else Stopping(id, false)) else None
    case Running(_) => if e.Reaped? then Some(Finished(e.ok)) else None
    case Stopping(id, undo) => if e.Wrote? && e.octet.Abort? then Some(Killing(id, undo)) else None
    case Killing(id, undo) => if e.Killed? then Some(if undo then Undoing(id) else Finished(false)) else None
    case Undoing(id) => if e == Sent(AbortExec(id)) then Some(AwaitUndone(id)) else None
    case AwaitUndone(_) => if e.Got? then Some(Finished(false)) else None
    case Finished(_) => None
  }

  /** The control state after a trace of events. */
  function Replay(log: seq<Event>): Option<Client> {
    if log == [] then Some(Idle)
    else match Replay(log[..|log| - 1])
      case None => None
      case Some(c) => Advance(c, log[|log| - 1])
  }

  lemma ReplayStep(log: seq<Event>, e: Event)
    ensures Replay(log + [e]) == if Replay(log).Some? then Advance(Replay(log).value, e) else None
  {
    assert (log + [e])[..|log|] == log;
  }

  // ---------------------------------------------------------------------- the monitor

  /** A valid prepared transaction. */
  predicate IsOffer(e: Event) {
    e.Got? && e.reply.Prepared? && e.reply.valid
  }

  /** A report that a transaction is committed, with its receipt. */
  predicate IsReceipt(e: Event) {
    e.Got? && e.reply.Report? && e.reply.state.Committed? && e.reply.receipt.Some?
  }

  /** The transactions a `CommitExec` was sent for, in order, repetitions included. */
  function Commits(log: seq<Event>): seq<Id> {
    if log == [] then []
    else Commits(log[..|log| - 1])
         + if log[|log| - 1].Sent? && log[|log| - 1].request.CommitExec? then [log[|log| - 1].request.id] else []
  }

  /** A server that is ready, speaks with the same limits and takes the request's inputs. */
  predicate IsWelcome(e: Event) {
    e.Got? && e.reply.Greeting? && e.reply.ready && e.reply.compatible && e.reply.inputsAllowed
  }

  /** The snapshot the server last greeted with. */
  function Snapshot(log: seq<Event>): Option<string> {
    if log == [] then None
    else if IsWelcome(log[|log| - 1]) then Some(log[|log| - 1].reply.snapshot)
    else Snapshot(log[..|log| - 1])
  }

  /** The valid transactions the server prepared, for the snapshot it had greeted with. */
  function Offers(log: seq<Event>): set<Id> {
    if log == [] then {}
    else Offers(log[..|log| - 1])
         + if IsOffer(log[|log| - 1]) && Snapshot(log[..|log| - 1]) == Some(log[|log| - 1].reply.snapshot)
           then {log[|log| - 1].reply.id} else {}
  }

  /** The transactions reported committed, with a receipt, after their commit was sent. */
  function Confirmations(log: seq<Event>): set<Id> {
    if log == [] then {}
    else Confirmations(log[..|log| - 1])
         + if IsReceipt(log[|log| - 1]) && log[|log| - 1].reply.id in Commits(log[..|log| - 1])
           then {log[|log| - 1].reply.id} else {}
  }

  function HeardReady(log: seq<Event>): bool {
    log != [] && (HeardReady(log[..|log| - 1]) || log[|log| - 1] == Heard(Ready))
  }

  /** A prepare request is out that the server did not refuse as safe to repeat. */
  predicate Dispatched(log: seq<Event>) {
    && log != []
    && (|| log[|log| - 1] == Sent(PrepareExec)
        || (Dispatched(log[..|log| - 1]) && !IsSafeRefusal(log[|log| - 1])))
  }

  predicate IsSafeRefusal(e: Event) {
    e.Got? && e.reply.Refused? && e.reply.error.retryable
  }

  /** How often the client tried to write the release byte. */
  function Releases(log: seq<Event>): nat {
    if log == [] then 0
    else Releases(log[..|log| - 1]) + if log[|log| - 1].Wrote? && log[|log| - 1].octet.Release? then 1 else 0
  }

  /** How often the client asked the server to abort. */
  function Undos(log: seq<Event>): nat {
    if log == [] then 0
    else Undos(log[..|log| - 1]) + if log[|log| - 1].Sent? && log[|log| - 1].request.AbortExec? then 1 else 0
  }

  /** What must have happened before an event, whatever the client's control state is. */
  ghost predicate MayFollow(before: seq<Event>, e: Event) {
    if e.Sent? && e.request.CommitExec? then
      Commits(before) == [] && e.request.id in Offers(before) && HeardReady(before)
    else if e == Sent(Hello) then
      !Dispatched(before)
    else if e == Sent(PrepareExec) then
      !Dispatched(before) && before != [] && IsWelcome(before[|before| - 1])
    else if e.Sent? && e.request.AbortExec? then
      Releases(before) == 0
    else if e.Wrote? && e.octet.Release? then
      && Releases(before) == 0 && Undos(before) == 0
      && |Commits(before)| == 1 && Commits(before)[0] in Confirmations(before)
    else true
  }

  ghost predicate Orderly(log: seq<Event>) {
    forall k :: 0 <= k < |log| ==> MayFollow(log[..k], log[k])
  }

  // --------------------------------------------------------- the automaton is orderly

  predicate Uncommitted(log: seq<Event>) {
    Commits(log) == [] && Releases(log) == 0
  }

  predicate Offered(log: seq<Event>, id: Id) {
    Uncommitted(log) && id in Offers(log) && Undos(log) == 0
  }

  predicate CommitSent(log: seq<Event>, id: Id) {
    Commits(log) == [id] && Releases(log) == 0 && Undos(log) == 0
  }

  predicate CommitConfirmed(log: seq<Event>, id: Id) {
    Commits(log) == [id] && id in Confirmations(log) && Undos(log) == 0
  }

  /** What the history of the client is, by control state. */
  predicate History(c: Client, log: seq<Event>) {
    match c
    case Idle => Uncommitted(log) && Undos(log) == 0 && !Dispatched(log)
    case AwaitGreeting => Uncommitted(log) && Undos(log) == 0 && !Dispatched(log)
    case Greeted(snapshot) =>
      && Uncommitted(log) && Undos(log) == 0 && !Dispatched(log)
      && Snapshot(log) == Some(snapshot) && log != [] && IsWelcome(log[|log| - 1])
    case AwaitPrepared(snapshot) => Uncommitted(log) && Undos(log) == 0 && Snapshot(log) == Some(snapshot)
    case Holding(id) => Offered(log, id)
    case AwaitReady(id) => Offered(log, id)
    case CanCommit(id) => Offered(log, id) && HeardReady(log)
    case AwaitCommit(id) => CommitSent(log, id)
    case Polling(id) => CommitSent(log, id)
    case AwaitResult(id) => CommitSent(log, id)
    case CanRelease(id) => CommitConfirmed(log, id) && Releases(log) == 0
    case AwaitExec(id) => CommitConfirmed(log, id) && Releases(log) == 1
    case Running(id) => CommitConfirmed(log, id) && Releases(log) == 1
    case Stopping(id, undo) => StoppingHistory(log, id, undo)
    case Killing(id, undo) => StoppingHistory(log, id, undo)
    case Undoing(id) => Releases(log) == 0 && |Commits(log)| <= 1 && Undos(log) == 0
    case AwaitUndone(id) => Releases(log) == 0 && |Commits(log)| <= 1 && Undos(log) == 1
    case Finished(succeeded) =>
      && |Commits(log)| <= 1 && Undos(log) <= 1
      && (succeeded ==> Releases(log) == 1)
      && (Releases(log) > 0 ==> |Commits(log)| == 1 && CommitConfirmed(log, Commits(log)[0]) && Releases(log) == 1)
  }

  predicate StoppingHistory(log: seq<Event>, id: Id, undo: bool) {
    if undo then Releases(log) == 0 && |Commits(log)| <= 1 && Undos(log) == 0
    else CommitConfirmed(log, id) && Releases(log) == 1
  }

  /** How the summaries grow by one event. */
  lemma SummaryStep(log: seq<Event>, e: Event)
    ensures Commits(log + [e]) == Commits(log) + if e.Sent? && e.request.CommitExec? then [e.request.id] else []
    ensures Releases(log + [e]) == Releases(log) + if e.Wrote? && e.octet.Release? then 1 else 0
    ensures Undos(log + [e]) == Undos(log) + if e.Sent? && e.request.AbortExec? then 1 else 0
    ensures HeardReady(log + [e]) == (HeardReady(log) || e == Heard(Ready))
    ensures Confirmations(log) <= Confirmations(log + [e]) && Offers(log) <= Offers(log + [e])
  {
    assert (log + [e])[..|log|] == log;
  }

  predicate IsPreparing(c: Client) {
    c.Idle? || c.AwaitGreeting? || c.Greeted? || c.AwaitPrepared?
  }

  predicate AwaitsVerdict(c: Client) {
    c.AwaitCommit? || c.AwaitResult?
  }

  lemma PreparingStep(log: seq<Event>, e: Event, c: Client, next: Client)
    requires IsPreparing(c) && History(c, log) && Advance(c, e) == Some(next)
    ensures History(next, log + [e]) && MayFollow(log, e)
  {
    SummaryStep(log, e);
    assert (log + [e])[..|log|] == log;
  }

  lemma ConfirmationIsReceipt(id: Id, reply: Reply)
    ensures CommitVerdict(id, reply).Confirmed? || PollVerdict(id, reply).Confirmed? ==>
              IsReceipt(Got(reply)) && reply.id == id
  {
  }

  lemma VerdictStep(log: seq<Event>, reply: Reply, id: Id, v: Verdict)
    requires CommitSent(log, id) && (v.Confirmed? ==> IsReceipt(Got(reply)) && reply.id == id)
    ensures History(AfterVerdict(id, v), log + [Got(reply)])
  {
    SummaryStep(log, Got(reply));
    assert (log + [Got(reply)])[..|log|] == log;
  }

  lemma AwaitingStep(log: seq<Event>, e: Event, c: Client, next: Client)
    requires AwaitsVerdict(c) && History(c, log) && Advance(c, e) == Some(next)
    ensures History(next, log + [e]) && MayFollow(log, e)
  {
    ConfirmationIsReceipt(c.id, e.reply);
    VerdictStep(log, e.reply, c.id, if c.AwaitCommit? then CommitVerdict(c.id, e.reply) else PollVerdict(c.id, e.reply));
  }

  lemma OtherStep(log: seq<Event>, e: Event, c: Client, next: Client)
    requires !IsPreparing(c) && !AwaitsVerdict(c) && History(c, log) && Advance(c, e) == Some(next)
    ensures History(next, log + [e]) && MayFollow(log, e)
  {
    SummaryStep(log, e);
  }

  lemma HistoryStep(log: seq<Event>, e: Event, c: Client, next: Client)
    requires History(c, log) && Advance(c, e) == Some(next)
    ensures History(next, log + [e]) && MayFollow(log, e)
  {
    if IsPreparing(c) {
      PreparingStep(log, e, c, next);
    } else if AwaitsVerdict(c) {
      AwaitingStep(log, e, c, next);
    } else {
      OtherStep(log, e, c, next);
    }
  }

  /** Whatever the server, the helper and the clock do, the client's trace is orderly. */
  lemma {:induction false} ClientIsOrderly(log: seq<Event>)
    requires Replay(log).Some?
    ensures History(Replay(log).value, log) && Orderly(log)
    decreases |log|
  {
    if log != [] {
      var before, e := log[..|log| - 1], log[|log| - 1];
      assert log == before + [e];
      ClientIsOrderly(before);
      HistoryStep(before, e, Replay(before).value, Replay(log).value);
      forall k | 0 <= k < |log|
        ensures MayFollow(log[..k], log[k])
      {
        assert k < |before| ==> log[..k] == before[..k] && log[k] == before[k];
      }
    }
  }

  // ------------------------------------------------------------- orderly, by position

  /** A commit confirmation found in the summary stands at a position of the trace. */
  lemma {:induction false} ConfirmationAt(log: seq<Event>, id: Id) returns (i: nat, j: nat)
    requires id in Confirmations(log)
    ensures i < j < |log| && log[i] == Sent(CommitExec(id))
    ensures IsReceipt(log[j]) && log[j].reply.id == id
    decreases |log|
  {
    var before := log[..|log| - 1];
    if id in Confirmations(before) {
      i, j := ConfirmationAt(before, id);
    } else {
      i := CommitAt(before, id);
      j := |log| - 1;
    }
  }

  lemma {:induction false} CommitAt(log: seq<Event>, id: Id) returns (i: nat)
    requires id in Commits(log)
    ensures i < |log| && log[i] == Sent(CommitExec(id))
    decreases |log|
  {
    var before := log[..|log| - 1];
    if id in Commits(before) {
      i := CommitAt(before, id);
    } else {
      i := |log| - 1;
    }
  }

  /**
   Read off the positions of a trace: a release byte is written only after a report
   that the transaction is committed, with a receipt, which answers an earlier commit.
   */
  lemma ReleaseComesAfterConfirmation(log: seq<Event>, k: nat) returns (i: nat, j: nat, id: Id)
    requires Replay(log).Some? && k < |log| && log[k].Wrote? && log[k].octet.Release?
    ensures i < j < k && log[i] == Sent(CommitExec(id))
    ensures IsReceipt(log[j]) && log[j].reply.id == id
  {
    ClientIsOrderly(log);
    assert MayFollow(log[..k], log[k]);
    id := Commits(log[..k])[0];
    i, j := ConfirmationAt(log[..k], id);
  }

  /** A prepare request is repeated only after a refusal that makes repeating it safe. */
  lemma PrepareIsRepeatedSafely(log: seq<Event>, i: nat, k: nat)
    requires Replay(log).Some? && i < k < |log| && log[i] == Sent(PrepareExec) && log[k] == Sent(PrepareExec)
    ensures exists j :: i < j < k && IsSafeRefusal(log[j])
  {
    ClientIsOrderly(log);
    assert MayFollow(log[..k], log[k]);
    DispatchedUntilRefused(log[..k], i);
  }

  lemma {:induction false} DispatchedUntilRefused(log: seq<Event>, i: nat)
    requires i < |log| && log[i] == Sent(PrepareExec)
    ensures Dispatched(log) || exists j :: i < j < |log| && IsSafeRefusal(log[j])
    decreases |log|
  {
    if i < |log| - 1 {
      var before := log[..|log| - 1];
      DispatchedUntilRefused(before, i);
      if !Dispatched(before) {
        var j :| i < j < |before| && IsSafeRefusal(before[j]);
        assert IsSafeRefusal(log[j]);
      }
    }
  }

  lemma {:induction false} CommitsCount(log: seq<Event>, i: nat, k: nat, id: Id, other: Id)
    requires i < k < |log| && log[i] == Sent(CommitExec(id)) && log[k] == Sent(CommitExec(other))
    ensures |Commits(log)| >= 2
    decreases |log|
  {
    var before := log[..|log| - 1];
    if k < |log| - 1 {
      CommitsCount(before, i, k, id, other);
    } else {
      CommitIsCounted(before, i, id);
    }
  }

  lemma {:induction false} CommitIsCounted(log: seq<Event>, i: nat, id: Id)
    requires i < |log| && log[i] == Sent(CommitExec(id))
    ensures |Commits(log)| >= 1
    decreases |log|
  {
    if i < |log| - 1 {
      CommitIsCounted(log[..|log| - 1], i, id);
    }
  }

  /** No trace sends `CommitExec` twice, for the same transaction or another. */
  lemma CommitIsSentOnce(log: seq<Event>, i: nat, k: nat, id: Id, other: Id)
    requires Replay(log).Some?
    requires i < |log| && k < |log| && log[i] == Sent(CommitExec(id)) && log[k] == Sent(CommitExec(other))
    ensures i == k
  {
    ClientIsOrderly(log);
    if i < k {
      CommitsCount(log, i, k, id, other);
    } else if k < i {
      CommitsCount(log, k, i, other, id);
    }
  }
}
