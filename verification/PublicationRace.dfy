/** Publishing one event through two lanes that share a pending set: a primary lane, and a
    fallback lane started by a timer or by the primary running dry. Between two awaits
    the code runs to completion, so each stretch between awaits is one step. */
module PublicationRace {
  import opened Positions

  datatype Batch = Batch(relays: seq<int>, receivers: set<int>)

  /** Where a lane waits. `Between` is just after a launch, before the next batch is asked
      for; `Opening` is the fallback's connectivity check before its first batch; `Joining`
      is the primary waiting for the fallback it started, perhaps with an error to throw. */
  datatype Lane =
    | Idle | Sending(batch: Batch) | Reporting | Checking | Opening(batch: Batch) | Between
    | Joining(threw: bool) | Over
  {
    predicate Waits() { Sending? || Reporting? || Checking? || Opening? || Between? }
  }

  datatype Verdict = Success | GivenUp | Rejected

  datatype State = State(
    receivers: set<int>, pending: set<int>,
    triedBefore: set<int>, tried: set<int>, sends: seq<int>, won: seq<Batch>,
    primary: Lane, fallback: Lane,
    primaryRunning: bool, fallbackRunning: bool, fallbackScheduled: bool, armed: bool,
    done: bool, blocked: bool, offline: bool, aborted: bool,
    verdicts: seq<Verdict>)

  /** What a lane gets when it asks for its next batch. */
  datatype Offer = NoBatch | Given(batch: Batch) | Throws

  datatype SendResult = Sent | NotSent | PreparationFailed

  /** What happens next. The parameters are the answers of the outside world: whether the
      attempt is still current, which batch a lane gets, what a send or a check says. */
  datatype Step =
    | Answer(onPrimary: bool, result: SendResult)
    | Report(onPrimary: bool, allReplaceable: bool)
    | Online(onPrimary: bool, connected: bool, current: bool)
    | Next(onPrimary: bool, current: bool, batch: Offer, other: Offer)
    | Timer(current: bool, batch: Offer)
    | Joined
    | Abort

  // ------------------------------------------------------------- the functions

  /** finish and fail: only the first call settles. */
  function Settle(s: State, verdict: Verdict): State {
    if s.done then s else s.(done := true, armed := false, verdicts := s.verdicts + [verdict])
  }

  function Check(s: State): State {
    if s.done then s
    else if s.pending == {} then Settle(s, Success)
    else if !s.primaryRunning && !s.fallbackRunning && !s.fallbackScheduled then Settle(s, GivenUp)
    else s
  }

  /** The relays of a batch that have not been tried, each once. */
  function Untried(relays: seq<int>, tried: set<int>): (r: seq<int>)
    ensures forall i :: 0 <= i < |r| ==> r[i] !in tried && r[i] in relays
    ensures forall i, j :: 0 <= i < j < |r| ==> r[i] != r[j]
    ensures forall x :: x in relays ==> x in tried || x in r
  {
    if relays == [] then []
    else if relays[0] in tried then Untried(relays[1..], tried)
    else
      var rest := Untried(relays[1..], tried + {relays[0]});
      assert forall i :: 0 <= i < |rest| ==> rest[i] !in tried && rest[i] != relays[0];
      [relays[0]] + rest
  }

  function SetLane(s: State, onPrimary: bool, lane: Lane): State {
    if onPrimary then s.(primary := lane) else s.(fallback := lane)
  }

  function LaneOf(s: State, onPrimary: bool): Lane {
    if onPrimary then s.primary else s.fallback
  }

  predicate Stopped(s: State, current: bool) {
    s.done || s.blocked || s.offline || s.aborted || !current
  }

  /** launch, up to its first await. */
  function Launch(s: State, onPrimary: bool, batch: Batch): State {
    var relays := Untried(batch.relays, s.tried);
    if relays == [] then SetLane(s, onPrimary, Between)
    else SetLane(s.(tried := s.tried + (set x | x in relays), sends := s.sends + relays), onPrimary, Sending(batch))
  }

  /** The head of a lane's loop, with the batch it was given. */
  function LoopHead(s: State, onPrimary: bool, batch: Offer, current: bool, other: Offer): State {
    if batch.Throws? then Throw(s, onPrimary, current, other)
    else if batch.NoBatch? || Stopped(s, current) then Leave(s, onPrimary, current, other)
    else Launch(s, onPrimary, batch.batch)
  }

  /** An error in a lane runs the finally block first, and rejects unless that settled. */
  function Throw(s: State, onPrimary: bool, current: bool, other: Offer): State {
    var t := Leave(s, onPrimary, current, other);
    if onPrimary && t.primary.Joining? then t.(primary := Joining(true)) else Settle(t, Rejected)
  }

  /** The finally block of a lane. */
  function Leave(s: State, onPrimary: bool, current: bool, other: Offer): State {
    if onPrimary then LeavePrimary(s, current, other) else LeaveFallback(s)
  }

  function LeaveFallback(s: State): State {
    Check(s.(fallback := Over, fallbackRunning := false))
  }

  /** fallback, up to its first await. */
  function StartFallback(s: State, current: bool, batch: Offer): State {
    if s.done || s.fallbackRunning || !s.fallbackScheduled then s
    else
      var t := s.(armed := false, fallbackScheduled := false, fallbackRunning := true);
      if s.blocked || s.offline || s.pending == {} || s.aborted || !current || batch.NoBatch? then LeaveFallback(t)
      else if batch.Throws? then Settle(LeaveFallback(t), Rejected)
      else t.(fallback := Opening(batch.batch))
  }

  /** Running dry before the deadline starts the fallback at once. */
  function LeavePrimary(s: State, current: bool, batch: Offer): State {
    var t := s.(primaryRunning := false, primary := Over);
    if !s.done && s.fallbackScheduled then
      if !s.blocked && !s.offline && !s.aborted && current then
        var u := StartFallback(t, current, batch);
        if u.fallback.Opening? then u.(primary := Joining(false)) else Check(u)
      else Check(t.(armed := false, fallbackScheduled := false))
    else Check(t)
  }

  // ------------------------------------------------------------------- the run

  predicate Enabled(s: State, step: Step) {
    match step
    case Answer(onPrimary, result) => LaneOf(s, onPrimary).Sending?
    case Report(onPrimary, allReplaceable) => LaneOf(s, onPrimary).Reporting?
    case Online(onPrimary, connected, current) =>
      LaneOf(s, onPrimary).Checking? || (!onPrimary && s.fallback.Opening?)
    case Next(onPrimary, current, batch, other) => LaneOf(s, onPrimary).Between?
    case Timer(current, batch) => s.armed
    case Joined => s.primary.Joining? && s.fallback.Over?
    case Abort => !s.aborted
  }

  function Apply(s: State, step: Step): State
    requires Enabled(s, step)
  {
    match step
    case Answer(onPrimary, result) =>
      var lane := LaneOf(s, onPrimary);
      (match result
       case PreparationFailed => SetLane(Settle(s, Rejected), onPrimary, Between)
       case NotSent => SetLane(s, onPrimary, Reporting)
       case Sent =>
         var t := s.(won := s.won + [lane.batch],
           pending := if s.done then s.pending else s.pending - lane.batch.receivers);
         SetLane(Check(t), onPrimary, Between))
    case Report(onPrimary, allReplaceable) =>
      if s.done then SetLane(s, onPrimary, Between)
      else if !allReplaceable then SetLane(s.(blocked := true), onPrimary, Between)
      else SetLane(s, onPrimary, Checking)
    case Online(onPrimary, connected, current) =>
      var live := !s.done && !s.aborted && current;
      var t := if live && !connected then s.(offline := true) else s;
      if LaneOf(s, onPrimary).Checking? then SetLane(t, onPrimary, Between)
      else if live && connected then LoopHead(t, false, Given(s.fallback.batch), current, NoBatch)
      else LeaveFallback(t)
    case Next(onPrimary, current, batch, other) => LoopHead(s, onPrimary, batch, current, other)
    case Timer(current, batch) => StartFallback(s.(armed := false), current, batch)
    case Joined =>
      var t := Check(s.(primary := Over));
      if s.primary.threw then Settle(t, Rejected) else t
    case Abort => Settle(s.(aborted := true), GivenUp)
  }

  /** The call itself: nothing is sent when the attempt is no longer current. */
  function Start(receivers: set<int>, tried: set<int>, aborted: bool, current: bool,
                 first: Offer, other: Offer): State {
    var s := State(receivers, receivers, tried, tried, [], [], Idle, Idle, true, false, true, true,
                   false, false, false, aborted, []);
    if aborted || !current then Settle(s.(primary := Over, armed := false), GivenUp)
    else LoopHead(s, true, first, current, other)
  }

  function Run(s: State, steps: seq<Step>): State
    requires Possible(s, steps)
    decreases |steps|
  {
    if steps == [] then s else Run(Apply(s, steps[0]), steps[1..])
  }

  predicate Possible(s: State, steps: seq<Step>)
    decreases |steps|
  {
    steps == [] || (Enabled(s, steps[0]) && Possible(Apply(s, steps[0]), steps[1..]))
  }

  // -------------------------------------------------------------- the invariant

  ghost predicate Won(s: State, r: int) {
    exists i :: 0 <= i < |s.won| && r in s.won[i].receivers
  }

  /** Each relay is sent to at most once, and never when it had been tried before. */
  ghost predicate SendsOnce(s: State) {
    && (forall i, j :: 0 <= i < j < |s.sends| ==> s.sends[i] != s.sends[j])
    && (forall i :: 0 <= i < |s.sends| ==> s.sends[i] !in s.triedBefore)
    && (forall x :: x in s.tried <==> x in s.triedBefore || x in s.sends)
  }

  /** Until the race settles, the flags agree with where the lanes are. */
  predicate Flags(s: State) {
    && (s.primaryRunning <==> s.primary.Waits()) && !s.primary.Opening?
    && (s.fallbackRunning <==> s.fallback.Waits())
    && (s.fallbackScheduled ==> s.fallback.Idle? && s.armed)
    && (s.primary.Joining? ==> !s.fallbackScheduled && !s.fallback.Idle?)
  }

  /** Coverage and the verdict. */
  ghost predicate Core(s: State) {
    && SendsOnce(s)
    && |s.verdicts| == (if s.done then 1 else 0)
    && (forall r :: r in s.receivers ==> r in s.pending || Won(s, r))
    && (s.done && s.verdicts[0] == Success ==> s.pending == {})
  }

  /** Everything every interleaving keeps. */
  ghost predicate Inv(s: State) {
    && Core(s) && (s.aborted ==> s.done)
    && (!s.done ==> Flags(s) && (s.primaryRunning || s.fallbackRunning || s.fallbackScheduled))
  }

  /** Fields other than coverage, sends and verdicts do not matter to Core. */
  lemma CoreSame(s: State, t: State)
    requires Core(s)
    requires t.receivers == s.receivers && t.pending == s.pending && t.won == s.won && t.sends == s.sends
    requires t.triedBefore == s.triedBefore && t.tried == s.tried && t.done == s.done && t.verdicts == s.verdicts
    ensures Core(t)
  {
  }

  lemma CheckInv(s: State)
    requires Core(s) && (s.aborted ==> s.done) && (!s.done ==> Flags(s))
    ensures Inv(Check(s))
  {
  }

  /** What a launch records keeps every relay sent to at most once. */
  lemma LaunchSendsOnce(s: State, relays: seq<int>)
    requires SendsOnce(s)
    requires forall i :: 0 <= i < |relays| ==> relays[i] !in s.tried
    requires forall i, j :: 0 <= i < j < |relays| ==> relays[i] != relays[j]
    ensures SendsOnce(s.(tried := s.tried + (set x | x in relays), sends := s.sends + relays))
  {
    var t := s.(tried := s.tried + (set x | x in relays), sends := s.sends + relays);
    forall i, j | 0 <= i < j < |t.sends| ensures t.sends[i] != t.sends[j] {
      if i < |s.sends| <= j { assert s.sends[i] in s.sends;
        assert t.sends[j] in relays && t.sends[j] == relays[j - |s.sends|]; }
    }
  }

  lemma LaunchInv(s: State, onPrimary: bool, batch: Batch)
    requires Core(s) && !s.aborted && !s.done
    requires if onPrimary then s.primaryRunning && Flags(s.(primary := Between))
      else s.fallbackRunning && Flags(s.(fallback := Between))
    ensures Inv(Launch(s, onPrimary, batch))
  {
    var relays := Untried(batch.relays, s.tried);
    if relays == [] {
      LaneWaits(s, s, onPrimary, Between);
    } else {
      LaunchSendsOnce(s, relays);
      var t := s.(tried := s.tried + (set x | x in relays), sends := s.sends + relays);
      assert Core(t) by { assert forall r :: r in s.receivers ==> r in s.pending || Won(t, r) == Won(s, r); }
      LaneWaits(s, t, onPrimary, Sending(batch));
    }
  }

  /** A running lane may wait in any place of its own. */
  lemma LaneWaits(s: State, t: State, onPrimary: bool, lane: Lane)
    requires Core(t) && !t.aborted && !t.done && lane.Waits() && !lane.Opening?
    requires t == s.(tried := t.tried, sends := t.sends)
    requires if onPrimary then s.primaryRunning && Flags(s.(primary := Between))
      else s.fallbackRunning && Flags(s.(fallback := Between))
    ensures Inv(SetLane(t, onPrimary, lane))
  {
    CoreSame(t, SetLane(t, onPrimary, lane));
  }

  lemma LeaveFallbackInv(s: State)
    requires Core(s) && (s.aborted ==> s.done)
    requires !s.done ==> Flags(s.(fallback := Over, fallbackRunning := false))
    ensures Inv(LeaveFallback(s))
  {
    CoreSame(s, s.(fallback := Over, fallbackRunning := false));
    CheckInv(s.(fallback := Over, fallbackRunning := false));
  }

  lemma LeavePrimaryInv(s: State, current: bool, batch: Offer)
    requires Core(s) && (s.aborted ==> s.done)
    requires !s.done ==> Flags(s.(primaryRunning := false, primary := Over))
    ensures Inv(LeavePrimary(s, current, batch))
  {
    var t := s.(primaryRunning := false, primary := Over);
    CoreSame(s, t);
    CheckInv(t);
    CoreSame(t, t.(armed := false, fallbackScheduled := false));
    CheckInv(t.(armed := false, fallbackScheduled := false));
    if !s.done && s.fallbackScheduled {
      var u := StartFallback(t, current, batch);
      if u.fallback.Opening? { CoreSame(u, u.(primary := Joining(false))); } else { CheckInv(u); }
    }
  }

  lemma ThrowInv(s: State, onPrimary: bool, current: bool, other: Offer)
    requires Inv(Leave(s, onPrimary, current, other))
    ensures Inv(Throw(s, onPrimary, current, other))
  {
    var t := Leave(s, onPrimary, current, other);
    if onPrimary && t.primary.Joining? { CoreSame(t, t.(primary := Joining(true))); }
  }

  lemma LoopHeadInv(s: State, onPrimary: bool, batch: Offer, current: bool, other: Offer)
    requires Core(s) && (s.aborted ==> s.done)
    requires !s.done ==> if onPrimary then s.primaryRunning && Flags(s.(primary := Between))
      else s.fallbackRunning && Flags(s.(fallback := Between))
    ensures Inv(LoopHead(s, onPrimary, batch, current, other))
  {
    if batch.Throws? || batch.NoBatch? || Stopped(s, current) {
      if onPrimary { LeavePrimaryInv(s, current, other); } else { LeaveFallbackInv(s); }
      if batch.Throws? { ThrowInv(s, onPrimary, current, other); }
    } else {
      LaunchInv(s, onPrimary, batch.batch);
    }
  }

  /** No step, whatever the world answers, breaks the invariant. */
  lemma StepInv(s: State, step: Step)
    requires Inv(s) && Enabled(s, step)
    ensures Inv(Apply(s, step))
  {
    match step {
      case Answer(onPrimary, result) => AnswerInv(s, onPrimary, result);
      case Report(onPrimary, allReplaceable) => ReportInv(s, onPrimary, allReplaceable);
      case Online(onPrimary, connected, current) => OnlineInv(s, onPrimary, connected, current);
      case Next(onPrimary, current, batch, other) => LoopHeadInv(s, onPrimary, batch, current, other);
      case Timer(current, batch) => TimerInv(s, current, batch);
      case Joined =>
        CoreSame(s, s.(primary := Over));
        CheckInv(s.(primary := Over));
      case Abort =>
        CoreSame(s, s.(aborted := true));
    }
  }

  lemma ReportInv(s: State, onPrimary: bool, allReplaceable: bool)
    requires Inv(s) && LaneOf(s, onPrimary).Reporting?
    ensures Inv(Apply(s, Report(onPrimary, allReplaceable)))
  {
    CoreSame(s, Apply(s, Report(onPrimary, allReplaceable)));
  }

  lemma OnlineInv(s: State, onPrimary: bool, connected: bool, current: bool)
    requires Inv(s) && Enabled(s, Online(onPrimary, connected, current))
    ensures Inv(Apply(s, Online(onPrimary, connected, current)))
  {
    var live := !s.done && !s.aborted && current;
    var t := if live && !connected then s.(offline := true) else s;
    CoreSame(s, t);
    assert !s.done ==> Flags(t);
    if LaneOf(s, onPrimary).Checking? { CoreSame(t, SetLane(t, onPrimary, Between)); }
    else if live && connected { LoopHeadInv(t, false, Given(s.fallback.batch), current, NoBatch); }
    else { LeaveFallbackInv(t); }
  }

  lemma TimerInv(s: State, current: bool, batch: Offer)
    requires Inv(s) && s.armed
    ensures Inv(Apply(s, Timer(current, batch)))
  {
    CoreSame(s, s.(armed := false));
  }

  lemma AnswerInv(s: State, onPrimary: bool, result: SendResult)
    requires Inv(s) && LaneOf(s, onPrimary).Sending?
    ensures Inv(Apply(s, Answer(onPrimary, result)))
  {
    match result {
      case PreparationFailed =>
        CoreSame(Settle(s, Rejected), SetLane(Settle(s, Rejected), onPrimary, Between));
      case NotSent => CoreSame(s, SetLane(s, onPrimary, Reporting));
      case Sent => SentInv(s, onPrimary);
    }
  }

  /** A successful send covers the receivers of its batch. */
  lemma SentInv(s: State, onPrimary: bool)
    requires Inv(s) && LaneOf(s, onPrimary).Sending?
    ensures Inv(Apply(s, Answer(onPrimary, Sent)))
  {
    var batch := LaneOf(s, onPrimary).batch;
    var t := s.(won := s.won + [batch], pending := if s.done then s.pending else s.pending - batch.receivers);
    forall r | r in t.receivers ensures r in t.pending || Won(t, r) {
      if r !in s.pending {
        var i :| 0 <= i < |s.won| && r in s.won[i].receivers;
        assert r in t.won[i].receivers;
      } else if r in batch.receivers {
        assert r in t.won[|s.won|].receivers;
      }
    }
    CheckInv(t);
    CoreSame(Check(t), SetLane(Check(t), onPrimary, Between));
  }

  /** In every interleaving: each relay is tried at most once, the outcome settles at most
      once, and success means every receiver was in a batch whose send succeeded. */
  lemma {:induction false} RunInv(s: State, steps: seq<Step>)
    requires Inv(s) && Possible(s, steps)
    ensures Inv(Run(s, steps))
    decreases |steps|
  {
    if steps != [] {
      StepInv(s, steps[0]);
      RunInv(Apply(s, steps[0]), steps[1..]);
    }
  }

  lemma StartInv(receivers: set<int>, tried: set<int>, aborted: bool, current: bool,
                 first: Offer, other: Offer)
    ensures Inv(Start(receivers, tried, aborted, current, first, other))
  {
    var s := State(receivers, receivers, tried, tried, [], [], Idle, Idle, true, false, true, true,
                   false, false, false, aborted, []);
    assert Core(s);
    if aborted || !current {
      CoreSame(s, s.(primary := Over, armed := false));
    } else {
      LoopHeadInv(s, true, first, current, other);
    }
  }

  /** An unsettled race always has a step of its own to take, whatever the world's answer
      will be: nobody has to abort it. */
  lemma UnsettledCanStep(s: State) returns (step: Step)
    requires Inv(s) && !s.done
    ensures Enabled(s, step) && step != Abort
  {
    if s.fallbackScheduled {
      step := Timer(true, NoBatch);
    } else {
      var onPrimary := s.primaryRunning;
      var lane := LaneOf(s, onPrimary);
      step := if lane.Sending? then Answer(onPrimary, Sent)
      else if lane.Reporting? then Report(onPrimary, true)
      else if lane.Between? then Next(onPrimary, true, NoBatch, NoBatch)
      else Online(onPrimary, true, true);
    }
  }

  /** Left alone, the race stays as it is: no lane and no timer has anything to do. */
  ghost predicate Quiescent(s: State) {
    forall step :: step != Abort ==> !Enabled(s, step)
  }

  /** A race in which nothing more can happen has settled, aborted or not. */
  lemma QuiescentIsSettled(s: State)
    requires Inv(s) && Quiescent(s)
    ensures s.done && |s.verdicts| == 1
  {
    if !s.done {
      var step := UnsettledCanStep(s);
    }
  }

  /** A race that is blocked by a permanent failure, offline, aborted or settled. */
  predicate Halted(s: State) { s.done || s.blocked || s.offline || s.aborted }

  /** Nothing more was sent, and a verdict stands. */
  predicate Quiet(s: State, t: State) {
    t.sends == s.sends && (s.done ==> t.done && t.verdicts == s.verdicts)
  }

  lemma HaltedLoop(s: State, onPrimary: bool, batch: Offer, current: bool, other: Offer)
    requires Halted(s)
    ensures Quiet(s, LoopHead(s, onPrimary, batch, current, other))
  {
    assert Stopped(s, current);
    HaltedLeave(s, onPrimary, current, other);
    if batch.Throws? { ThrowQuiet(s, onPrimary, current, other); }
  }

  lemma HaltedLeave(s: State, onPrimary: bool, current: bool, other: Offer)
    requires Halted(s)
    ensures Quiet(s, Leave(s, onPrimary, current, other))
  {
    if onPrimary { LeaveQuiet(s, current, other); } else { CheckQuiet(s.(fallback := Over, fallbackRunning := false)); }
  }

  lemma ThrowQuiet(s: State, onPrimary: bool, current: bool, other: Offer)
    requires Quiet(s, Leave(s, onPrimary, current, other))
    ensures Quiet(s, Throw(s, onPrimary, current, other))
  {
  }

  /** The end of the primary lane starts nothing in a halted race. */
  lemma LeaveQuiet(s: State, current: bool, other: Offer)
    requires Halted(s)
    ensures Quiet(s, LeavePrimary(s, current, other))
  {
    var t := s.(primaryRunning := false, primary := Over);
    CheckQuiet(t);
    CheckQuiet(t.(armed := false, fallbackScheduled := false));
    if !s.done && s.fallbackScheduled && !s.blocked && !s.offline && !s.aborted && current { assert false; }
  }

  lemma HaltedOnline(s: State, onPrimary: bool, connected: bool, current: bool)
    requires Halted(s) && Enabled(s, Online(onPrimary, connected, current))
    ensures Quiet(s, Apply(s, Online(onPrimary, connected, current)))
  {
    if !LaneOf(s, onPrimary).Checking? { HaltedLoop(s, false, Given(s.fallback.batch), current, NoBatch); }
  }

  lemma CheckQuiet(s: State)
    ensures Quiet(s, Check(s))
  {
  }

  lemma HaltedAnswer(s: State, onPrimary: bool, result: SendResult)
    requires LaneOf(s, onPrimary).Sending?
    ensures Quiet(s, Apply(s, Answer(onPrimary, result)))
  {
    match result {
      case PreparationFailed => assert Quiet(s, Settle(s, Rejected));
      case NotSent =>
      case Sent => HaltedSent(s, onPrimary);
    }
  }

  lemma HaltedSent(s: State, onPrimary: bool)
    requires LaneOf(s, onPrimary).Sending?
    ensures Quiet(s, Apply(s, Answer(onPrimary, Sent)))
  {
    var batch := LaneOf(s, onPrimary).batch;
    CheckQuiet(s.(won := s.won + [batch], pending := if s.done then s.pending else s.pending - batch.receivers));
  }

  /** One lane's permanent failure, a lost connection, an abort or a verdict silences both
      lanes: no step of a halted race sends anything, and a verdict stands. */
  lemma HaltedSendsNothing(s: State, step: Step)
    requires Halted(s) && Enabled(s, step)
    ensures Quiet(s, Apply(s, step))
  {
    match step {
      case Next(onPrimary, current, batch, other) => HaltedLoop(s, onPrimary, batch, current, other);
      case Online(onPrimary, connected, current) => HaltedOnline(s, onPrimary, connected, current);
      case Answer(onPrimary, result) => HaltedAnswer(s, onPrimary, result);
      case Report(onPrimary, allReplaceable) =>
      case Timer(current, batch) => HaltedTimer(s, current, batch);
      case Joined => CheckQuiet(s.(primary := Over));
      case Abort =>
    }
  }

  lemma HaltedTimer(s: State, current: bool, batch: Offer)
    requires Halted(s) && s.armed
    ensures Quiet(s, Apply(s, Timer(current, batch)))
  {
    CheckQuiet(s.(armed := false, fallbackScheduled := false, fallbackRunning := false, fallback := Over));
  }

  /** What halts a race: an abort, a failure that no other relay can make up for, a send that
      cannot be prepared, and a check that finds no connection while the attempt is current. */
  lemma HaltingSteps(s: State, step: Step)
    requires Enabled(s, step)
    requires step.Abort? || (step.Report? && !step.allReplaceable) || (step.Answer? && step.result.PreparationFailed?)
      || (step.Online? && !step.connected && step.current)
    ensures Halted(Apply(s, step))
  {
  }

  /** From then on nothing is sent, whatever else happens. */
  lemma {:induction false} HaltedRun(s: State, steps: seq<Step>)
    requires Halted(s) && Possible(s, steps)
    ensures Run(s, steps).sends == s.sends && Halted(Run(s, steps))
    decreases |steps|
  {
    if steps != [] {
      HaltedSendsNothing(s, steps[0]);
      if !steps[0].Abort? { StepPasses(s, steps[0]); }
      HaltedRun(Apply(s, steps[0]), steps[1..]);
    }
  }

  /** A send that succeeds settles the race, as a success, exactly when nobody else is pending. */
  lemma SentSettles(s: State, onPrimary: bool)
    requires Inv(s) && !s.done && LaneOf(s, onPrimary).Sending?
    ensures var t := Apply(s, Answer(onPrimary, Sent));
      && (t.done <==> s.pending <= LaneOf(s, onPrimary).batch.receivers) && (t.done ==> t.verdicts == [Success])
      && t.pending == s.pending - LaneOf(s, onPrimary).batch.receivers
  {
    var receivers := LaneOf(s, onPrimary).batch.receivers;
    assert s.verdicts == [] && [] + [Success] == [Success];
    NothingLeft(s.pending, receivers);
  }

  lemma NothingLeft(a: set<int>, b: set<int>)
    ensures a - b == {} <==> a <= b
  {
    if a - b == {} {
      forall x | x in a ensures x in b { assert x !in a - b; }
    }
  }

  // ------------------------------------------------------ how a race is settled

  /** Both lanes are over, no fallback is to come, and somebody is not covered. */
  predicate Dry(s: State) {
    !s.primaryRunning && !s.fallbackRunning && !s.fallbackScheduled && s.pending != {}
  }

  /** The step brings an error: a send that cannot be prepared, or a lane without an answer. */
  predicate Fails(step: Step) {
    || (step.Answer? && step.result.PreparationFailed?)
    || (step.Next? && (step.batch.Throws? || step.other.Throws?))
    || (step.Timer? && step.batch.Throws?)
  }

  /** What a settled race owes its verdict to. */
  predicate Earned(t: State, aborted: bool, failed: bool) {
    t.done && |t.verdicts| == 1 ==>
      match t.verdicts[0]
      case Success => t.pending == {}
      case GivenUp => aborted || Dry(t)
      case Rejected => failed
  }

  lemma CheckEarned(s: State, failed: bool)
    requires !s.done && s.verdicts == []
    ensures Earned(Check(s), false, failed)
  {
  }

  lemma LeaveEarned(s: State, onPrimary: bool, current: bool, other: Offer)
    requires !s.done && s.verdicts == []
    ensures Earned(Leave(s, onPrimary, current, other), false, other.Throws?)
  {
    if onPrimary {
      var t := s.(primaryRunning := false, primary := Over);
      CheckEarned(t, other.Throws?);
      CheckEarned(t.(armed := false, fallbackScheduled := false), other.Throws?);
      if s.fallbackScheduled && !s.blocked && !s.offline && !s.aborted && current {
        StartEarned(t, current, other);
        var u := StartFallback(t, current, other);
        if !u.done { CheckEarned(u, other.Throws?); }
      }
    } else {
      CheckEarned(s.(fallback := Over, fallbackRunning := false), false);
    }
  }

  lemma StartEarned(s: State, current: bool, batch: Offer)
    requires !s.done && s.verdicts == []
    ensures Earned(StartFallback(s, current, batch), false, batch.Throws?)
  {
    var t := s.(armed := false, fallbackScheduled := false, fallbackRunning := true);
    CheckEarned(t.(fallback := Over, fallbackRunning := false), batch.Throws?);
  }

  lemma LoopEarned(s: State, onPrimary: bool, batch: Offer, current: bool, other: Offer)
    requires !s.done && s.verdicts == []
    ensures Earned(LoopHead(s, onPrimary, batch, current, other), false, batch.Throws? || other.Throws?)
  {
    LeaveEarned(s, onPrimary, current, other);
  }

  lemma AnswerEarned(s: State, onPrimary: bool, result: SendResult)
    requires !s.done && s.verdicts == [] && LaneOf(s, onPrimary).Sending?
    ensures Earned(Apply(s, Answer(onPrimary, result)), false, result.PreparationFailed?)
  {
    if result.Sent? {
      var batch := LaneOf(s, onPrimary).batch;
      CheckEarned(s.(won := s.won + [batch], pending := s.pending - batch.receivers), false);
    }
  }

  lemma OnlineEarned(s: State, onPrimary: bool, connected: bool, current: bool)
    requires !s.done && s.verdicts == [] && Enabled(s, Online(onPrimary, connected, current))
    ensures Earned(Apply(s, Online(onPrimary, connected, current)), false, false)
  {
    var t := if !s.aborted && current && !connected then s.(offline := true) else s;
    if !LaneOf(s, onPrimary).Checking? {
      LoopEarned(t, false, Given(s.fallback.batch), current, NoBatch);
      LeaveEarned(t, false, current, NoBatch);
    }
  }

  /** Success is due to coverage, giving up to an abort or to a race run dry, and a rejection
      to an error, or to one that the primary held back for the fallback. */
  lemma VerdictIsEarned(s: State, step: Step)
    requires Inv(s) && !s.done && Enabled(s, step)
    ensures Earned(Apply(s, step), step.Abort?, Fails(step) || s.primary == Joining(true))
  {
    assert s.verdicts == [];
    match step {
      case Answer(onPrimary, result) => AnswerEarned(s, onPrimary, result);
      case Report(onPrimary, allReplaceable) =>
      case Online(onPrimary, connected, current) => OnlineEarned(s, onPrimary, connected, current);
      case Next(onPrimary, current, batch, other) => LoopEarned(s, onPrimary, batch, current, other);
      case Timer(current, batch) => StartEarned(s.(armed := false), current, batch);
      case Joined => CheckEarned(s.(primary := Over), false);
      case Abort =>
    }
  }

  /** Whoever brought an error so far, the verdict is earned, and no error is held back
      that nobody brought. */
  predicate Owes(s: State, aborted: bool, failed: bool) {
    Earned(s, aborted, failed) && (s.primary == Joining(true) ==> failed)
  }

  /** A stretch without an abort: what a settled race has come to stays so, and the primary
      holds an error back only when somebody brought one. */
  predicate Passes(s: State, t: State, failed: bool) {
    && t.aborted == s.aborted && t.triedBefore == s.triedBefore && (s.done ==> Stays(s, t))
    && (s.blocked ==> t.blocked) && (s.offline ==> t.offline)
    && (t.primary == Joining(true) ==> s.primary == Joining(true) || failed)
  }

  predicate Stays(s: State, t: State) {
    t.done && t.verdicts == s.verdicts && t.pending == s.pending && (Dry(s) ==> Dry(t))
  }

  lemma CheckPasses(s: State)
    ensures Passes(s, Check(s), false)
  {
  }

  lemma StartPasses(s: State, current: bool, batch: Offer)
    ensures Passes(s, StartFallback(s, current, batch), false)
  {
    CheckPasses(s.(armed := false, fallbackScheduled := false, fallback := Over, fallbackRunning := false));
  }

  lemma LeavePasses(s: State, onPrimary: bool, current: bool, other: Offer)
    ensures Passes(s, Leave(s, onPrimary, current, other), false)
  {
    if onPrimary {
      var t := s.(primaryRunning := false, primary := Over);
      CheckPasses(t);
      CheckPasses(t.(armed := false, fallbackScheduled := false));
      if !s.done { StartPasses(t, current, other); CheckPasses(StartFallback(t, current, other)); }
    } else {
      CheckPasses(s.(fallback := Over, fallbackRunning := false));
    }
  }

  lemma LoopPasses(s: State, onPrimary: bool, batch: Offer, current: bool, other: Offer)
    ensures Passes(s, LoopHead(s, onPrimary, batch, current, other), batch.Throws?)
  {
    LeavePasses(s, onPrimary, current, other);
    if batch.Throws? { ThrowPasses(s, onPrimary, current, other); }
  }

  lemma ThrowPasses(s: State, onPrimary: bool, current: bool, other: Offer)
    requires Passes(s, Leave(s, onPrimary, current, other), false)
    ensures Passes(s, Throw(s, onPrimary, current, other), true)
  {
  }

  lemma AnswerPasses(s: State, onPrimary: bool, result: SendResult)
    requires LaneOf(s, onPrimary).Sending?
    ensures Passes(s, Apply(s, Answer(onPrimary, result)), false)
  {
    match result {
      case PreparationFailed => LanePasses(s, Settle(s, Rejected), onPrimary, Between);
      case NotSent => LanePasses(s, s, onPrimary, Reporting);
      case Sent =>
        var batch := LaneOf(s, onPrimary).batch;
        var t := s.(won := s.won + [batch], pending := if s.done then s.pending else s.pending - batch.receivers);
        CheckPasses(t);
        LanePasses(s, Check(t), onPrimary, Between);
    }
  }

  lemma LanePasses(s: State, t: State, onPrimary: bool, lane: Lane)
    requires Passes(s, t, false) && !lane.Joining?
    ensures Passes(s, SetLane(t, onPrimary, lane), false)
  {
  }

  lemma OnlinePasses(s: State, onPrimary: bool, connected: bool, current: bool)
    requires Enabled(s, Online(onPrimary, connected, current))
    ensures Passes(s, Apply(s, Online(onPrimary, connected, current)), false)
  {
    var t := if !s.done && !s.aborted && current && !connected then s.(offline := true) else s;
    if !LaneOf(s, onPrimary).Checking? {
      LoopPasses(t, false, Given(s.fallback.batch), current, NoBatch);
      LeavePasses(t, false, current, NoBatch);
    }
  }

  lemma ReportPasses(s: State, onPrimary: bool, allReplaceable: bool)
    requires LaneOf(s, onPrimary).Reporting?
    ensures Passes(s, Apply(s, Report(onPrimary, allReplaceable)), false)
  {
  }

  lemma StepPasses(s: State, step: Step)
    requires Enabled(s, step) && !step.Abort?
    ensures Passes(s, Apply(s, step), Fails(step))
  {
    match step {
      case Answer(onPrimary, result) => AnswerPasses(s, onPrimary, result);
      case Report(onPrimary, allReplaceable) => ReportPasses(s, onPrimary, allReplaceable);
      case Online(onPrimary, connected, current) => OnlinePasses(s, onPrimary, connected, current);
      case Next(onPrimary, current, batch, other) => LoopPasses(s, onPrimary, batch, current, other);
      case Timer(current, batch) => StartPasses(s.(armed := false), current, batch);
      case Joined => CheckPasses(s.(primary := Over));
    }
  }

  lemma OwesStep(s: State, step: Step, withdrawn: bool, failed: bool)
    requires Inv(s) && Enabled(s, step) && Owes(s, s.aborted || withdrawn, failed)
    ensures Owes(Apply(s, step), Apply(s, step).aborted || withdrawn, failed || Fails(step))
  {
    if step.Abort? {
      if !s.done { VerdictIsEarned(s, step); }
    } else {
      StepPasses(s, step);
      if !s.done { VerdictIsEarned(s, step); }
    }
  }

  predicate SomeFails(steps: seq<Step>) {
    exists step :: step in steps && Fails(step)
  }

  lemma {:induction false} RunOwes(s: State, steps: seq<Step>, withdrawn: bool, failed: bool)
    requires Inv(s) && Possible(s, steps) && Owes(s, s.aborted || withdrawn, failed)
    ensures Owes(Run(s, steps), Run(s, steps).aborted || withdrawn, failed || SomeFails(steps))
    decreases |steps|
  {
    if steps != [] {
      StepInv(s, steps[0]);
      OwesStep(s, steps[0], withdrawn, failed);
      RunOwes(Apply(s, steps[0]), steps[1..], withdrawn, failed || Fails(steps[0]));
      assert SomeFails(steps) <==> Fails(steps[0]) || SomeFails(steps[1..]) by {
        assert steps == [steps[0]] + steps[1..];
      }
    }
  }

  lemma StartOwes(receivers: set<int>, tried: set<int>, aborted: bool, current: bool, first: Offer, other: Offer)
    ensures Owes(Start(receivers, tried, aborted, current, first, other), aborted || !current,
      first.Throws? || other.Throws?)
  {
    var s := State(receivers, receivers, tried, tried, [], [], Idle, Idle, true, false, true, true,
                   false, false, false, aborted, []);
    if !aborted && current { LoopEarned(s, true, first, current, other); }
  }

  // ---------------------------------------------------------- every batch is tried

  /** Nothing gets in the way: no abort, no error, only failures that another relay can make
      up for, a connection whenever it is checked, and an attempt that stays current. */
  predicate Calm(step: Step) {
    match step
    case Answer(onPrimary, result) => !result.PreparationFailed?
    case Report(onPrimary, allReplaceable) => allReplaceable
    case Online(onPrimary, connected, current) => connected && current
    case Next(onPrimary, current, batch, other) => current && !batch.Throws? && !other.Throws?
    case Timer(current, batch) => current && !batch.Throws?
    case Joined => true
    case Abort => false
  }

  /** What a step offers to a lane. The fallback is first asked for by the timer, or by the
      primary when it gets no further batch before that. */
  function Offered(onPrimary: bool, started: bool, step: Step): seq<Offer> {
    if step.Next? && step.onPrimary == onPrimary then [step.batch]
    else if onPrimary || started then []
    else if step.Timer? then [step.batch]
    else if step.Next? && step.batch.NoBatch? then [step.other]
    else []
  }

  predicate StartsFallback(step: Step) {
    step.Timer? || (step.Next? && step.onPrimary && step.batch.NoBatch?)
  }

  /** All that the steps offer to a lane, in order. */
  function Offers(onPrimary: bool, started: bool, steps: seq<Step>): seq<Offer>
    decreases |steps|
  {
    if steps == [] then []
    else Offered(onPrimary, started, steps[0]) + Offers(onPrimary, started || StartsFallback(steps[0]), steps[1..])
  }

  /** Every relay of the batch had been tried before or has been sent to. */
  ghost predicate Tried(s: State, batch: Batch) {
    forall x :: x in batch.relays ==> x in s.triedBefore || x in s.sends
  }

  ghost predicate AllTried(s: State, offers: seq<Offer>) {
    forall i :: 0 <= i < |offers| && offers[i].Given? ==> Tried(s, offers[i].batch)
  }

  /** The offers to the fallback, but for a first batch that waits for its check. */
  function Passed(s: State, offers: seq<Offer>): seq<Offer> {
    if s.fallback.Opening? && offers != [] then offers[..|offers| - 1] else offers
  }

  /** What the offers to the primary have come to. */
  ghost predicate PrimaryBooks(s: State, offers: seq<Offer>) {
    && offers != [] && AllTried(s, offers)
    && (offers[|offers| - 1].NoBatch? <==> s.primary.Over? || s.primary.Joining?)
    && (s.primary.Joining? ==> !s.primary.threw)
  }

  /** And those to the fallback: its first batch waits for the connection to be checked. */
  ghost predicate FallbackBooks(s: State, offers: seq<Offer>) {
    if s.fallback.Idle? then offers == []
    else
      var last := |offers| - 1;
      && offers != [] && (offers[last].NoBatch? <==> s.fallback.Over?)
      && AllTried(s, Passed(s, offers))
      && (s.fallback.Opening? ==> offers[last] == Given(s.fallback.batch))
  }

  ghost predicate Books(s: State, primary: seq<Offer>, fallback: seq<Offer>) {
    && SendsOnce(s) && s.verdicts != [Rejected] && (!s.done ==> !s.blocked && !s.offline && !s.aborted)
    && (!s.done || s.verdicts == [GivenUp] ==> PrimaryBooks(s, primary) && FallbackBooks(s, fallback))
    && (s.done <==> s.verdicts != [])
    && (!s.done ==>
          && Flags(s) && !s.primary.Idle? && !s.fallback.Joining?
          && (s.fallback.Idle? <==> s.fallbackScheduled) && (s.armed <==> s.fallbackScheduled))
    && (s.verdicts == [GivenUp] ==> Spent(s))
  }

  /** Neither lane waits for anything but the other. */
  predicate Spent(s: State) {
    (s.primary.Over? || s.primary.Joining?) && s.fallback.Over? && !s.armed
  }

  /** A batch that is launched is tried. */
  lemma LaunchTries(s: State, onPrimary: bool, batch: Batch)
    requires SendsOnce(s)
    ensures var t := Launch(s, onPrimary, batch);
      Tried(t, batch) && SendsOnce(t) && t.triedBefore == s.triedBefore && s.sends <= t.sends
  {
    var relays := Untried(batch.relays, s.tried);
    var t := s.(tried := s.tried + (set x | x in relays), sends := s.sends + relays);
    UntriedTries(s, batch, relays);
    LaunchSendsOnce(s, relays);
    if relays == [] {
      assert s.sends + [] == s.sends;
      LaneTries(s, onPrimary, Between, batch);
    } else {
      LaneTries(t, onPrimary, Sending(batch), batch);
    }
  }

  /** Where a lane waits does not matter to what has been tried. */
  lemma LaneTries(s: State, onPrimary: bool, lane: Lane, batch: Batch)
    requires SendsOnce(s) && Tried(s, batch)
    ensures var t := SetLane(s, onPrimary, lane);
      Tried(t, batch) && SendsOnce(t) && t.triedBefore == s.triedBefore && t.sends == s.sends
  {
  }

  lemma UntriedTries(s: State, batch: Batch, relays: seq<int>)
    requires SendsOnce(s) && relays == Untried(batch.relays, s.tried)
    ensures forall x :: x in batch.relays ==> x in s.triedBefore || x in s.sends + relays
  {
    forall x | x in batch.relays ensures x in s.triedBefore || x in s.sends + relays {
      assert x in s.tried || x in relays;
    }
  }

  lemma StayTried(s: State, t: State, offers: seq<Offer>)
    requires AllTried(s, offers) && t.triedBefore == s.triedBefore && s.sends <= t.sends
    ensures AllTried(t, offers)
  {
  }

  lemma MoreTried(s: State, offers: seq<Offer>, offer: Offer)
    requires AllTried(s, offers) && (offer.Given? ==> Tried(s, offer.batch))
    ensures AllTried(s, offers + [offer])
  {
  }

  /** The next batch of the primary is launched. */
  lemma LaunchPrimaryBooks(s: State, batch: Batch, primary: seq<Offer>, fallback: seq<Offer>)
    requires Books(s, primary, fallback) && !s.done && s.primary.Between?
    ensures Books(Launch(s, true, batch), primary + [Given(batch)], fallback)
  {
    var t := Launch(s, true, batch);
    LaunchTries(s, true, batch);
    StayTried(s, t, primary);
    MoreTried(t, primary, Given(batch));
    StayTried(s, t, Passed(s, fallback));
  }

  /** The next batch of the fallback is launched. */
  lemma LaunchFallbackBooks(s: State, batch: Batch, primary: seq<Offer>, fallback: seq<Offer>)
    requires Books(s, primary, fallback) && !s.done && s.fallback.Between?
    ensures Books(Launch(s, false, batch), primary, fallback + [Given(batch)])
  {
    var t := Launch(s, false, batch);
    LaunchTries(s, false, batch);
    StayTried(s, t, primary);
    StayTried(s, t, fallback);
    MoreTried(t, fallback, Given(batch));
  }

  /** Its first batch is launched once the connection has been checked. */
  lemma OpenedBooks(s: State, primary: seq<Offer>, fallback: seq<Offer>)
    requires Books(s, primary, fallback) && !s.done && s.fallback.Opening?
    ensures Books(Launch(s, false, s.fallback.batch), primary, fallback)
  {
    var t, last := Launch(s, false, s.fallback.batch), |fallback| - 1;
    LaunchTries(s, false, s.fallback.batch);
    StayTried(s, t, primary);
    StayTried(s, t, fallback[..last]);
    MoreTried(t, fallback[..last], fallback[last]);
    assert fallback[..last] + [fallback[last]] == fallback;
  }

  lemma CheckBooks(s: State, primary: seq<Offer>, fallback: seq<Offer>)
    requires Books(s, primary, fallback) && !s.done
    ensures Books(Check(s), primary, fallback)
  {
    assert s.verdicts == [] && [] + [GivenUp] == [GivenUp] && [] + [Success] == [Success];
  }

  /** The fallback starts with its first offer. */
  lemma StartBooks(s: State, offer: Offer, primary: seq<Offer>)
    requires Books(s, primary, []) && !s.done && s.fallbackScheduled && !offer.Throws?
    ensures Books(StartFallback(s, true, offer), primary, [offer])
  {
    var t := s.(armed := false, fallbackScheduled := false, fallbackRunning := true);
    MoreTried(s, [], NoBatch);
    assert s.verdicts == [] && [] + [Success] == [Success];
    if s.pending != {} && offer.NoBatch? {
      CheckBooks(t.(fallback := Over, fallbackRunning := false), primary, [offer]);
    }
  }

  /** The fallback ends. */
  lemma EndFallbackBooks(s: State, primary: seq<Offer>, fallback: seq<Offer>)
    requires Books(s, primary, fallback) && !s.done && s.fallback.Between?
    ensures Books(LeaveFallback(s), primary, fallback + [NoBatch])
  {
    var t := s.(fallback := Over, fallbackRunning := false);
    MoreTried(t, fallback, NoBatch);
    CheckBooks(t, primary, fallback + [NoBatch]);
  }

  /** The primary ends, and starts a fallback that is still to come. */
  lemma EndPrimaryBooks(s: State, other: Offer, primary: seq<Offer>, fallback: seq<Offer>)
    requires Books(s, primary, fallback) && !s.done && s.primary.Between? && !other.Throws?
    ensures Books(LeavePrimary(s, true, other), primary + [NoBatch],
      fallback + if s.fallback.Idle? then [other] else [])
  {
    var t := s.(primaryRunning := false, primary := Over);
    MoreTried(t, primary, NoBatch);
    assert fallback + [] == fallback && [] + [other] == [other];
    if s.fallbackScheduled {
      StartBooks(t, other, primary + [NoBatch]);
      JoinBooks(StartFallback(t, true, other), primary + [NoBatch], [other]);
    } else {
      CheckBooks(t, primary + [NoBatch], fallback);
    }
  }

  /** The primary waits for the fallback it started, or checks when that came to nothing. */
  lemma JoinBooks(s: State, primary: seq<Offer>, fallback: seq<Offer>)
    requires Books(s, primary, fallback) && s.primary.Over? && !s.fallback.Idle?
    ensures Books(if s.fallback.Opening? then s.(primary := Joining(false)) else Check(s), primary, fallback)
  {
    if !s.fallback.Opening? && !s.done { CheckBooks(s, primary, fallback); }
  }

  lemma AnswerBooks(s: State, onPrimary: bool, result: SendResult, primary: seq<Offer>, fallback: seq<Offer>)
    requires Books(s, primary, fallback) && !s.done && LaneOf(s, onPrimary).Sending? && !result.PreparationFailed?
    ensures Books(Apply(s, Answer(onPrimary, result)), primary, fallback)
  {
    assert s.verdicts == [] && [] + [GivenUp] == [GivenUp] && [] + [Success] == [Success];
  }

  lemma OnlineBooks(s: State, onPrimary: bool, primary: seq<Offer>, fallback: seq<Offer>)
    requires Books(s, primary, fallback) && !s.done && Enabled(s, Online(onPrimary, true, true))
    ensures Books(Apply(s, Online(onPrimary, true, true)), primary, fallback)
  {
    if !LaneOf(s, onPrimary).Checking? { OpenedBooks(s, primary, fallback); }
  }

  lemma ReportBooks(s: State, onPrimary: bool, primary: seq<Offer>, fallback: seq<Offer>)
    requires Books(s, primary, fallback) && !s.done && LaneOf(s, onPrimary).Reporting?
    ensures Books(Apply(s, Report(onPrimary, true)), primary, fallback)
  {
  }

  lemma NextBooks(s: State, onPrimary: bool, batch: Offer, other: Offer, primary: seq<Offer>, fallback: seq<Offer>)
    requires Books(s, primary, fallback) && !s.done && LaneOf(s, onPrimary).Between?
    requires !batch.Throws? && !other.Throws?
    ensures var step := Next(onPrimary, true, batch, other);
      Books(Apply(s, step), primary + Offered(true, fallback != [], step),
        fallback + Offered(false, fallback != [], step))
  {
    assert primary + [] == primary && fallback + [] == fallback;
    if onPrimary {
      if batch.Given? { LaunchPrimaryBooks(s, batch.batch, primary, fallback); }
      else { EndPrimaryBooks(s, other, primary, fallback); }
    } else {
      if batch.Given? { LaunchFallbackBooks(s, batch.batch, primary, fallback); }
      else { EndFallbackBooks(s, primary, fallback); }
    }
  }

  lemma TimerBooks(s: State, batch: Offer, primary: seq<Offer>, fallback: seq<Offer>)
    requires Books(s, primary, fallback) && !s.done && s.armed && !batch.Throws?
    ensures fallback == [] && Books(Apply(s, Timer(true, batch)), primary, [batch])
  {
    StartBooks(s, batch, primary);
    assert StartFallback(s.(armed := false), true, batch) == StartFallback(s, true, batch);
  }

  /** What a settled race has come to stays, also in the books. */
  lemma DoneBooks(s: State, step: Step, started: bool, primary: seq<Offer>, fallback: seq<Offer>)
    requires Books(s, primary, fallback) && Inv(s) && s.done && Enabled(s, step) && Calm(step)
    ensures Books(Apply(s, step), primary + Offered(true, started, step), fallback + Offered(false, started, step))
    ensures s.verdicts == [GivenUp] ==> Offered(true, started, step) == Offered(false, started, step) == []
    ensures Apply(s, step).done && Apply(s, step).verdicts == s.verdicts
  {
    StepInv(s, step);
    StepPasses(s, step);
    if s.verdicts == [GivenUp] {
      assert step.Joined?;
      assert primary + [] == primary && fallback + [] == fallback;
    }
  }

  lemma StepBooks(s: State, step: Step, primary: seq<Offer>, fallback: seq<Offer>)
    requires Books(s, primary, fallback) && Inv(s) && !s.done && Enabled(s, step) && Calm(step)
    ensures var started := fallback != [];
      && Books(Apply(s, step), primary + Offered(true, started, step), fallback + Offered(false, started, step))
      && (fallback + Offered(false, started, step) != [] <==> started || StartsFallback(step))
  {
    assert primary + [] == primary && fallback + [] == fallback;
    match step {
      case Answer(onPrimary, result) => AnswerBooks(s, onPrimary, result, primary, fallback);
      case Report(onPrimary, allReplaceable) => ReportBooks(s, onPrimary, primary, fallback);
      case Online(onPrimary, connected, current) => OnlineBooks(s, onPrimary, primary, fallback);
      case Next(onPrimary, current, batch, other) => NextBooks(s, onPrimary, batch, other, primary, fallback);
      case Timer(current, batch) => TimerBooks(s, batch, primary, fallback);
      case Joined => CheckBooks(s.(primary := Over), primary, fallback);
    }
  }

  lemma {:induction false} RunBooks(s: State, steps: seq<Step>, started: bool, primary: seq<Offer>,
      fallback: seq<Offer>)
    requires Books(s, primary, fallback) && Inv(s) && Possible(s, steps) && forall step :: step in steps ==> Calm(step)
    requires !s.done || s.verdicts == [GivenUp] ==> (started <==> fallback != [])
    ensures Books(Run(s, steps), primary + Offers(true, started, steps), fallback + Offers(false, started, steps))
    decreases |steps|
  {
    if steps == [] {
      assert primary + [] == primary && fallback + [] == fallback;
    } else {
      var step, rest := steps[0], steps[1..];
      var p, f := Offered(true, started, step), Offered(false, started, step);
      StepInv(s, step);
      if s.done { DoneBooks(s, step, started, primary, fallback); } else { StepBooks(s, step, primary, fallback); }
      if s.verdicts == [GivenUp] { assert fallback + f == fallback && !StartsFallback(step); }
      var later := started || StartsFallback(step);
      RunBooks(Apply(s, step), rest, later, primary + p, fallback + f);
      Sums(primary, p, Offers(true, later, rest));
      Sums(fallback, f, Offers(false, later, rest));
    }
  }

  lemma Sums<T>(a: seq<T>, b: seq<T>, c: seq<T>)
    ensures a + (b + c) == a + b + c
  {
  }

  /** What every call and every calm interleaving does with the batches it is offered. While
      the race is open, every relay of every batch has been tried, but for a first batch of
      the fallback that waits for its connectivity check. It is never rejected, and given up
      only when both lanes were last offered nothing, with every relay of every batch tried. */
  lemma BatchesAreTried(receivers: set<int>, tried: set<int>, first: Offer, other: Offer, steps: seq<Step>)
    requires Possible(Start(receivers, tried, false, true, first, other), steps)
    requires !first.Throws? && !other.Throws? && forall step :: step in steps ==> Calm(step)
    ensures var s := Run(Start(receivers, tried, false, true, first, other), steps);
      var primary := [first] + Offers(true, first.NoBatch?, steps);
      var fallback := (if first.NoBatch? then [other] else []) + Offers(false, first.NoBatch?, steps);
      && s.triedBefore == tried && s.verdicts != [Rejected]
      && (!s.done ==> AllTried(s, primary) && AllTried(s, Passed(s, fallback)))
      && (s.verdicts == [GivenUp] ==>
            && AllTried(s, primary) && primary[|primary| - 1] == NoBatch
            && AllTried(s, fallback) && fallback != [] && fallback[|fallback| - 1] == NoBatch)
  {
    var s0 := Start(receivers, tried, false, true, first, other);
    var started, p, f := first.NoBatch?, [first], if first.NoBatch? then [other] else [];
    StartInv(receivers, tried, false, true, first, other);
    OpeningBooks(receivers, tried, first, other);
    RunBooks(s0, steps, started, p, f);
    TriedBeforeStays(s0, steps);
  }

  lemma OpeningBooks(receivers: set<int>, tried: set<int>, first: Offer, other: Offer)
    requires !first.Throws? && !other.Throws?
    ensures Books(Start(receivers, tried, false, true, first, other), [first], if first.NoBatch? then [other] else [])
    ensures Start(receivers, tried, false, true, first, other).triedBefore == tried
  {
    var s := State(receivers, receivers, tried, tried, [], [], Idle, Idle, true, false, true, true,
                   false, false, false, false, []);
    if first.Given? {
      var t := Launch(s, true, first.batch);
      LaunchTries(s, true, first.batch);
      MoreTried(t, [], first);
    } else {
      var t := s.(primaryRunning := false, primary := Over);
      MoreTried(t, [], NoBatch);
      assert Books(t, [NoBatch], []);
      StartBooks(t, other, [NoBatch]);
      var u := StartFallback(t, true, other);
      if !u.fallback.Opening? && !u.done { CheckBooks(u, [NoBatch], [other]); }
    }
  }

  lemma {:induction false} TriedBeforeStays(s: State, steps: seq<Step>)
    requires Possible(s, steps)
    ensures Run(s, steps).triedBefore == s.triedBefore
    decreases |steps|
  {
    if steps != [] {
      TriedBeforeStep(s, steps[0]);
      TriedBeforeStays(Apply(s, steps[0]), steps[1..]);
    }
  }

  lemma TriedBeforeStep(s: State, step: Step)
    requires Enabled(s, step)
    ensures Apply(s, step).triedBefore == s.triedBefore
  {
    if !step.Abort? { StepPasses(s, step); }
  }

  /** The promises of the race, for every call and every interleaving of what follows. It
      is given up only when it was aborted, or not current to begin with, or has run dry,
      and rejected only when something failed. */
  lemma RaceIsSafe(receivers: set<int>, tried: set<int>, aborted: bool, current: bool,
                   first: Offer, other: Offer, steps: seq<Step>)
    requires Possible(Start(receivers, tried, aborted, current, first, other), steps)
    ensures var s := Run(Start(receivers, tried, aborted, current, first, other), steps);
      && SendsOnce(s) && |s.verdicts| <= 1
      && (s.verdicts == [Success] ==> forall r :: r in s.receivers ==> Won(s, r))
      && (s.verdicts == [GivenUp] ==> s.aborted || !current || Dry(s))
      && (s.verdicts == [Rejected] ==> first.Throws? || other.Throws? || SomeFails(steps))
      && (Quiescent(s) ==> |s.verdicts| == 1)
  {
    StartInv(receivers, tried, aborted, current, first, other);
    StartOwes(receivers, tried, aborted, current, first, other);
    var s0 := Start(receivers, tried, aborted, current, first, other);
    RunInv(s0, steps);
    RunOwes(s0, steps, !current, first.Throws? || other.Throws?);
    var s := Run(s0, steps);
    if Quiescent(s) { QuiescentIsSettled(s); }
  }
}
