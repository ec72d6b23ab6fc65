/**
 * The ADB reset handshake between the menu dispatcher and the ADB service, two processes that share only
 * marker files. Every file operation of either process is one step; runs interleave them arbitrarily, and
 * creating a marker may fail.
 */
module ResetHandshake {
  const ERROR_KINDS: nat := 8

  /** The dispatcher between two operations of `tfb_request_adb_reset`. */
  datatype Dispatcher =
    | Idle
    | Clearing(next: nat)   // error markers below `next` are unlinked
    | Publishing            // RESTARTING is created next
    | Requesting            // the request marker is created next

  /** The service between two operations of its poll and of `tfb_adb_manual_reset`. */
  datatype Service =
    | Polling
    | Consuming             // the request was seen and is unlinked next
    | ResetClearing(next: nat)
    | Touching              // RESTARTING is re-created next
    | Setup(attempt: nat)
    | Finishing(ok: bool)   // RESTARTING is unlinked next
    | EndClearing(ok: bool, next: nat)
    | Reporting             // an error marker is created next

  datatype State = State(
    dispatcher: Dispatcher, service: Service,
    restarting: bool, request: bool, errors: set<nat>,
    accepted: nat,   // requests the dispatcher went ahead with
    consumed: nat,   // request markers the service took
    refused: nat,    // requests turned away because RESTARTING was there
    dropped: nat,    // request markers that could not be created
    merged: nat,     // request markers created over a pending one
    unannounced: nat // RESTARTING markers the dispatcher could not create
  )

  /** One step: of the dispatcher (does the user ask, does a creation succeed) or of the service. */
  datatype Event =
    | DispatcherStep(asked: bool, created: bool)
    | ServiceStep(setupOk: bool, kind: nat, created: bool)

  const INITIAL: State := State(Idle, Polling, false, false, {}, 0, 0, 0, 0, 0, 0)

  function StepDispatcher(s: State, asked: bool, created: bool): State {
    match s.dispatcher
    case Idle =>
      if !asked then s
      else if s.restarting then s.(refused := s.refused + 1)
      else s.(dispatcher := Clearing(0), accepted := s.accepted + 1)
    case Clearing(i) =>
      if i < ERROR_KINDS then s.(dispatcher := Clearing(i + 1), errors := s.errors - {i})
      else s.(dispatcher := Publishing)
    case Publishing =>
      if created then s.(dispatcher := Requesting, restarting := true)
      else s.(dispatcher := Requesting, unannounced := s.unannounced + 1)
    case Requesting =>
      if !created then s.(dispatcher := Idle, dropped := s.dropped + 1)
      else if s.request then s.(dispatcher := Idle, merged := s.merged + 1)
      else s.(dispatcher := Idle, request := true)
  }

  function StepService(s: State, setupOk: bool, kind: nat, created: bool): State {
    match s.service
    case Polling => if s.request then s.(service := Consuming) else s
    case Consuming => s.(service := ResetClearing(0), request := false,
                         consumed := s.consumed + (if s.request then 1 else 0))
    case ResetClearing(i) =>
      if i < ERROR_KINDS then s.(service := ResetClearing(i + 1), errors := s.errors - {i}) else s.(service := Touching)
    case Touching => s.(service := Setup(1), restarting := s.restarting || created)
    case Setup(n) =>
      if setupOk then s.(service := Finishing(true))
      else if n < 2 then s.(service := Setup(n + 1))
      else s.(service := Finishing(false))
    case Finishing(ok) => s.(service := EndClearing(ok, 0), restarting := false)
    case EndClearing(ok, i) =>
      if i < ERROR_KINDS then s.(service := EndClearing(ok, i + 1), errors := s.errors - {i})
      else s.(service := if ok then Polling else Reporting)
    case Reporting => s.(service := Polling, errors := if created then s.errors + {kind % ERROR_KINDS} else s.errors)
  }

  function Step(s: State, e: Event): State {
    match e
    case DispatcherStep(asked, created) => StepDispatcher(s, asked, created)
    case ServiceStep(setupOk, kind, created) => StepService(s, setupOk, kind, created)
  }

  function Run(s: State, es: seq<Event>): State
    decreases |es|
  {
    if es == [] then s else Run(Step(s, es[0]), es[1..])
  }

  predicate MidRequest(d: Dispatcher) {
    !d.Idle?
  }

  /** From seeing the request to unlinking RESTARTING. */
  predicate MidReset(t: Service) {
    t.Consuming? || t.ResetClearing? || t.Touching? || t.Setup? || t.Finishing?
  }

  function Ones(b: bool): nat {
    if b then 1 else 0
  }

  /** Every request the dispatcher went ahead with is accounted for, whatever failed. */
  predicate Conserved(s: State) {
    && s.accepted == s.consumed + Ones(s.request) + Ones(MidRequest(s.dispatcher)) + s.dropped + s.merged
    && (s.service.Consuming? ==> s.request)
  }

  lemma StepConserves(s: State, e: Event)
    requires Conserved(s)
    ensures Conserved(Step(s, e))
  {}

  /** Conservation over all runs and interleavings, creation failures included. */
  lemma {:induction false} RunConserves(s: State, es: seq<Event>)
    requires Conserved(s)
    ensures Conserved(Run(s, es))
    decreases |es|
  {
    if es != [] {
      StepConserves(s, es[0]);
      RunConserves(Step(s, es[0]), es[1..]);
    }
  }

  /** How often the user asks for a reset while the dispatcher is idle. */
  function Asks(s: State, es: seq<Event>): nat
    decreases |es|
  {
    if es == [] then 0
    else Ones(es[0].DispatcherStep? && es[0].asked && s.dispatcher == Idle) + Asks(Step(s, es[0]), es[1..])
  }

  /** Over every run: whatever the user asks for is either gone ahead with or refused, and nothing else is. */
  lemma {:induction false} AsksAnswered(s: State, es: seq<Event>)
    ensures Run(s, es).accepted + Run(s, es).refused == s.accepted + s.refused + Asks(s, es)
    decreases |es|
  {
    hide Step;
    if es != [] {
      StepAnswers(s, es[0]);
      AsksAnswered(Step(s, es[0]), es[1..]);
    }
  }

  lemma StepAnswers(s: State, e: Event)
    ensures
      var t := Step(s, e);
      t.accepted + t.refused == s.accepted + s.refused + Ones(e.DispatcherStep? && e.asked && s.dispatcher == Idle)
  {}

  /** No marker stands. */
  predicate Bare(s: State) {
    !s.restarting && !s.request && s.errors == {}
  }

  lemma StepBare(s: State, e: Event)
    requires Bare(s) && !e.created
    ensures Bare(Step(s, e))
  {}

  /** Markers come from successful creations alone: if none succeeds, none ever stands. */
  lemma {:induction false} NothingCreated(s: State, es: seq<Event>)
    requires Bare(s) && forall i :: 0 <= i < |es| ==> !es[i].created
    ensures Bare(Run(s, es))
    decreases |es|
  {
    hide Step, Bare;
    if es != [] {
      StepBare(s, es[0]);
      assert forall i :: 0 <= i < |es| - 1 ==> es[1..][i] == es[i + 1];
      NothingCreated(Step(s, es[0]), es[1..]);
    }
  }

  /** The shape of a clearing sweep, and that at most one error marker stands at any time. */
  predicate ErrorsSingle(s: State) {
    && (forall a, b :: a in s.errors && b in s.errors ==> a == b)
    && (forall a :: a in s.errors ==> a < ERROR_KINDS)
    && (s.service.ResetClearing? ==> forall a :: a in s.errors ==> a >= s.service.next)
    && (s.service.EndClearing? ==> forall a :: a in s.errors ==> a >= s.service.next)
    && (s.service.Reporting? ==> s.errors == {})
  }

  /**
   * While every creation succeeds: RESTARTING exists exactly from the dispatcher's announcement until the
   * service withdraws it, that is, while the dispatcher is about to place the request, the request is
   * pending, or the service is mid-reset; and these three exclude each other.
   */
  predicate Exclusive(s: State) {
    var placing := s.dispatcher.Requesting?;
    var pending := s.request && !s.service.Consuming?;
    var resetting := MidReset(s.service);
    && (s.restarting <==> placing || pending || resetting)
    && !(placing && pending) && !(placing && resetting) && !(pending && resetting)
    && (s.service.Consuming? ==> s.request)
    && (MidRequest(s.dispatcher) && !placing ==> !s.restarting)
  }

  predicate AllCreated(es: seq<Event>) {
    forall i :: 0 <= i < |es| ==> es[i].created
  }

  lemma StepExclusive(s: State, e: Event)
    requires Exclusive(s) && e.created
    ensures Exclusive(Step(s, e))
    ensures Step(s, e).merged == s.merged && Step(s, e).dropped == s.dropped
  {}

  lemma StepErrors(s: State, e: Event)
    requires ErrorsSingle(s)
    ensures ErrorsSingle(Step(s, e))
  {}

  /**
   * Over every run in which no creation fails, the announcement is exact, no request is lost or merged,
   * and requests are conserved: accepted is consumed plus pending plus the one being placed.
   */
  lemma {:induction false} HandshakeSafe(s: State, es: seq<Event>)
    requires Exclusive(s) && Conserved(s) && AllCreated(es)
    ensures
      var t := Run(s, es);
      && Exclusive(t) && Conserved(t)
      && t.merged == s.merged && t.dropped == s.dropped
    decreases |es|
  {
    if es != [] {
      StepExclusive(s, es[0]);
      StepConserves(s, es[0]);
      HandshakeSafe(Step(s, es[0]), es[1..]);
    }
  }

  /** From the start: RESTARTING implies a request in one of the three phases, and counts balance. */
  lemma HandshakeFromStart(es: seq<Event>)
    requires AllCreated(es)
    ensures
      var t := Run(INITIAL, es);
      && (t.restarting ==> t.request || MidRequest(t.dispatcher) || MidReset(t.service))
      && t.accepted == t.consumed + Ones(t.request) + Ones(MidRequest(t.dispatcher))
  {
    HandshakeSafe(INITIAL, es);
  }

  lemma {:induction false} ErrorsOverRuns(s: State, es: seq<Event>)
    requires ErrorsSingle(s)
    ensures ErrorsSingle(Run(s, es))
    decreases |es|
  {
    if es != [] {
      StepErrors(s, es[0]);
      ErrorsOverRuns(Step(s, es[0]), es[1..]);
    }
  }

  // ---- what a reset reports ----

  /** How the last finished reset ended: in success, or in failure with a marker of that kind created or not. */
  datatype Ending = NoneYet | Succeeded | Failed(kind: nat, reported: bool)

  /** What a history tells: the last setup's result in the reset under way, and how the last finished one ended. */
  datatype Told = Told(worked: bool, ending: Ending)

  /**
   * One more step: a setup works or does not; a reset whose last setup worked ends when the eight error markers have
   * been cleared, one whose last setup did not when it has reported.
   */
  function Tell(t: Told, s: State, e: Event): Told {
    if e.DispatcherStep? then t
    else if s.service.Setup? then t.(worked := e.setupOk)
    else if s.service.EndClearing? && s.service.next >= 8 && t.worked then t.(ending := Succeeded)
    else if s.service.Reporting? then t.(ending := Failed(e.kind % 8, e.created))
    else t
  }

  function TellAll(t: Told, s: State, es: seq<Event>): Told
    decreases |es|
  {
    if es == [] then t else TellAll(Tell(t, s, es[0]), Step(s, es[0]), es[1..])
  }

  /** A marker that stands is the last reset's, and the reset under way carries its last setup's result. */
  predicate Tells(s: State, t: Told) {
    && (forall k :: k in s.errors ==> t.ending == Failed(k, true))
    && (s.service.Finishing? || s.service.EndClearing? ==> s.service.ok == t.worked)
    && (s.service.Reporting? ==> !t.worked)
  }

  lemma StepTells(s: State, t: Told, e: Event)
    requires Tells(s, t) && ErrorsSingle(s)
    ensures Tells(Step(s, e), Tell(t, s, e))
  {}

  /**
   * Over every run: an error marker that stands tells that the last finished reset failed, and of what kind; after one
   * whose last setup worked, or whose marker could not be created, none stands.
   */
  lemma {:induction false} MarkersTell(s: State, t: Told, es: seq<Event>)
    requires Tells(s, t) && ErrorsSingle(s)
    ensures forall k :: k in Run(s, es).errors ==> TellAll(t, s, es).ending == Failed(k, true)
    ensures Tells(Run(s, es), TellAll(t, s, es))
    decreases |es|
  {
    hide Step, Tell, ErrorsSingle;
    if es != [] {
      StepTells(s, t, es[0]);
      StepErrors(s, es[0]);
      MarkersTell(Step(s, es[0]), Tell(t, s, es[0]), es[1..]);
    }
  }

  lemma MarkersFromStart(es: seq<Event>)
    ensures forall k :: k in Run(INITIAL, es).errors ==>
      TellAll(Told(false, NoneYet), INITIAL, es).ending == Failed(k, true)
  {
    MarkersTell(INITIAL, Told(false, NoneYet), es);
  }

  /**
   * In every reachable state: the step that ends a successful reset leaves no error marker and returns to polling; a
   * failed one still has to report, and that step leaves exactly the marker of its kind, or none if it cannot be
   * created.
   */
  lemma ResetEnds(s: State, setupOk: bool, kind: nat, created: bool)
    requires ErrorsSingle(s)
    ensures
      var t := Step(s, ServiceStep(setupOk, kind, created));
      && (s.service == EndClearing(true, 8) ==> t.service == Polling && t.errors == {})
      && (s.service == EndClearing(false, 8) ==> t.service == Reporting && t.errors == {})
      && (s.service == Reporting ==> t.service == Polling && t.errors == if created then {kind % 8} else {})
  {
    hide Run;
  }

  // ---- a reset announces itself ----

  /** While setups run, and until it is withdrawn, RESTARTING stands. */
  predicate Shown(s: State) {
    s.service.Setup? || s.service.Finishing? ==> s.restarting
  }

  lemma StepShown(s: State, e: Event)
    requires Shown(s) && (e.ServiceStep? ==> e.created)
    ensures Shown(Step(s, e))
  {}

  /** If the service can create it, RESTARTING stands throughout its setups, whatever the dispatcher could create. */
  lemma {:induction false} SetupsAnnounced(s: State, es: seq<Event>)
    requires Shown(s) && forall i :: 0 <= i < |es| && es[i].ServiceStep? ==> es[i].created
    ensures Shown(Run(s, es))
    decreases |es|
  {
    hide Step, Shown;
    if es != [] {
      StepShown(s, es[0]);
      assert forall i :: 0 <= i < |es| - 1 ==> es[1..][i] == es[i + 1];
      SetupsAnnounced(Step(s, es[0]), es[1..]);
    }
  }

  // ---- no request is served late ----

  /** Service steps until a pending request is taken. */
  function Wait(s: State): nat {
    match s.service
    case Polling => 2
    case Consuming => 1
    case Reporting => 3
    case EndClearing(ok, i) => 4 + (if i < ERROR_KINDS then ERROR_KINDS - i else 0)
    case Finishing(ok) => 13
    case Setup(n) => 14 + (if n < 2 then 2 - n else 0)
    case Touching => 17
    case ResetClearing(i) => 18 + (if i < ERROR_KINDS then ERROR_KINDS - i else 0)
  }

  function ServiceSteps(es: seq<Event>): nat {
    if es == [] then 0 else Ones(es[0].ServiceStep?) + ServiceSteps(es[1..])
  }

  /**
   * A pending request is consumed within at most 26 service steps, however the dispatcher interleaves
   * and whatever fails: a run without consumption cannot contain more service steps than the bound.
   */
  lemma {:induction false} PendingConsumed(s: State, es: seq<Event>)
    requires s.request && Run(s, es).consumed == s.consumed
    ensures ServiceSteps(es) < Wait(s) <= 26
    decreases |es|
  {
    WaitBounded(s);
    hide Step, Wait;
    if es != [] {
      var t := Step(s, es[0]);
      ConsumedGrows(t, es[1..]);
      StepWaits(s, es[0]);
      if t.consumed == s.consumed {
        PendingConsumed(t, es[1..]);
      }
    }
  }

  lemma WaitBounded(s: State)
    ensures 0 < Wait(s) <= 26
  {}

  lemma StepWaits(s: State, e: Event)
    requires s.request
    ensures
      var t := Step(s, e);
      t.consumed >= s.consumed && (t.consumed == s.consumed ==> t.request && Wait(t) + Ones(e.ServiceStep?) <= Wait(s))
  {}

  lemma {:induction false} ConsumedGrows(s: State, es: seq<Event>)
    ensures Run(s, es).consumed >= s.consumed
    decreases |es|
  {
    if es != [] {
      ConsumedGrows(Step(s, es[0]), es[1..]);
    }
  }

  // ---- when a creation fails ----

  /** RESTARTING stands, nothing is pending, and the service is not in a reset that would withdraw it. */
  predicate Stuck(s: State) {
    s.restarting && !s.request && s.dispatcher.Idle? && !MidReset(s.service)
  }

  /** A request marker that could not be created after its announcement leaves the handshake stuck. */
  lemma DropSticks(s: State)
    requires Exclusive(s) && s.dispatcher.Requesting?
    ensures Stuck(Step(s, DispatcherStep(false, false)))
  {}

  /** A request marker fails to be created while its announcement stands and nothing will withdraw it. */
  predicate Blocks(s: State, e: Event) {
    && s.dispatcher.Requesting? && e.DispatcherStep? && !e.created
    && s.restarting && !s.request && !MidReset(s.service)
  }

  /** Some step of the run does so. */
  predicate Blocked(s: State, es: seq<Event>)
    decreases |es|
  {
    es != [] && (Blocks(s, es[0]) || Blocked(Step(s, es[0]), es[1..]))
  }

  /** RESTARTING stands for something. */
  predicate Held(s: State) {
    s.restarting ==> s.dispatcher.Requesting? || s.request || MidReset(s.service)
  }

  lemma StepHeld(s: State, e: Event)
    requires Held(s)
    ensures if Blocks(s, e) then Stuck(Step(s, e)) else Held(Step(s, e))
  {}

  lemma {:induction false} StuckFrom(s: State, es: seq<Event>)
    requires Held(s)
    ensures Stuck(Run(s, es)) <==> Blocked(s, es)
    decreases |es|
  {
    hide Step, Stuck, Blocks, Held;
    if es == [] {
      HeldNotStuck(s);
    } else {
      StepHeld(s, es[0]);
      if Blocks(s, es[0]) {
        StuckForever(Step(s, es[0]), es[1..]);
      } else {
        StuckFrom(Step(s, es[0]), es[1..]);
      }
    }
  }

  lemma HeldNotStuck(s: State)
    requires Held(s)
    ensures !Stuck(s)
  {}

  /**
   * Over every run, failed creations of any kind included: the handshake is stuck exactly when some request
   * marker could not be created while its announcement stood, nothing was pending and no reset was under way.
   */
  lemma StuckIff(es: seq<Event>)
    ensures Stuck(Run(INITIAL, es)) <==> Blocked(INITIAL, es)
  {
    StuckFrom(INITIAL, es);
  }

  /** When every announcement was made, that is exactly when any request marker could not be created. */
  lemma StuckIffDropped(es: seq<Event>)
    requires Run(INITIAL, es).unannounced == 0
    ensures Stuck(Run(INITIAL, es)) <==> Run(INITIAL, es).dropped > 0
  {
    DroppedFrom(INITIAL, es);
  }

  lemma StepDropped(s: State, e: Event)
    requires Announced(s) && Held(s) && s.dropped == 0 && Step(s, e).unannounced == s.unannounced
    ensures
      var t := Step(s, e);
      if t.dropped > 0 then Stuck(t) else Announced(t) && Held(t)
  {}

  lemma {:induction false} DroppedFrom(s: State, es: seq<Event>)
    requires Announced(s) && Held(s) && s.dropped == 0 && Run(s, es).unannounced == s.unannounced
    ensures Stuck(Run(s, es)) <==> Run(s, es).dropped > 0
    decreases |es|
  {
    hide Step, Stuck, Announced, Held;
    if es == [] {
      HeldNotStuck(s);
    } else {
      var t := Step(s, es[0]);
      UnannouncedGrows(t, es[1..]);
      StepUnannounced(s, es[0]);
      StepDropped(s, es[0]);
      if t.dropped > 0 {
        StuckForever(t, es[1..]);
        RunGrows(t, es[1..]);
      } else {
        DroppedFrom(t, es[1..]);
      }
    }
  }

  lemma StepUnannounced(s: State, e: Event)
    ensures Step(s, e).unannounced >= s.unannounced
  {}

  lemma StepGrows(s: State, e: Event)
    ensures
      var t := Step(s, e);
      && t.accepted >= s.accepted && t.consumed >= s.consumed && t.dropped >= s.dropped && t.merged >= s.merged
      && (s.request && t.consumed == s.consumed ==> t.request)
  {}

  /** Counts only grow, and a request stays pending until it is consumed. */
  lemma {:induction false} RunGrows(s: State, es: seq<Event>)
    ensures
      var t := Run(s, es);
      && t.accepted >= s.accepted && t.consumed >= s.consumed && t.dropped >= s.dropped && t.merged >= s.merged
      && (s.request && t.consumed == s.consumed ==> t.request)
    decreases |es|
  {
    hide Step;
    if es != [] {
      StepGrows(s, es[0]);
      RunGrows(Step(s, es[0]), es[1..]);
    }
  }

  /** Once stuck, always stuck: RESTARTING never goes away and no later request is accepted. */
  lemma {:induction false} StuckForever(s: State, es: seq<Event>)
    requires Stuck(s)
    ensures Stuck(Run(s, es)) && Run(s, es).accepted == s.accepted && Run(s, es).consumed == s.consumed
    decreases |es|
  {
    if es != [] {
      StuckForever(Step(s, es[0]), es[1..]);
    }
  }

  /**
   * Requests merge only if an announcement failed: as long as every RESTARTING marker was created, no
   * pending request is overwritten, whatever happens to the request markers.
   */
  predicate Announced(s: State) {
    && (s.request ==> s.restarting)
    && (s.dispatcher.Requesting? ==> s.restarting && !s.request && !MidReset(s.service))
    && (s.dispatcher.Clearing? || s.dispatcher.Publishing? ==> !s.restarting && !s.request && !MidReset(s.service))
    && (MidReset(s.service) ==> s.restarting && !MidRequest(s.dispatcher))
    && (s.service.Consuming? ==> s.request)
    && (MidReset(s.service) && !s.service.Consuming? ==> !s.request)
  }

  lemma {:induction false} MergeNeedsUnannounced(s: State, es: seq<Event>)
    requires Announced(s)
    ensures Run(s, es).unannounced == s.unannounced ==> Announced(Run(s, es)) && Run(s, es).merged == s.merged
    decreases |es|
  {
    if es != [] {
      var t := Step(s, es[0]);
      UnannouncedGrows(t, es[1..]);
      if t.unannounced == s.unannounced {
        MergeNeedsUnannounced(t, es[1..]);
      }
    }
  }

  lemma {:induction false} UnannouncedGrows(s: State, es: seq<Event>)
    ensures Run(s, es).unannounced >= s.unannounced
    decreases |es|
  {
    if es != [] {
      UnannouncedGrows(Step(s, es[0]), es[1..]);
    }
  }

  /**
   * With a request pending, the next one the dispatcher goes ahead with merges into it exactly unless the
   * service consumed the first in between: whatever happens until the second marker is about to be created.
   */
  lemma NextMergesIff(s: State, es: seq<Event>, asked: bool)
    requires Conserved(s) && s.request && s.dispatcher.Idle?
    requires Run(s, es).dispatcher.Requesting? && Run(s, es).accepted == s.accepted + 1
    ensures
      var u := Run(s, es);
      Step(u, DispatcherStep(asked, true)).merged == u.merged + 1 <==> u.consumed == s.consumed
  {
    RunConserves(s, es);
    RunGrows(s, es);
  }

  const GO: Event := DispatcherStep(true, true)

  function Repeat(n: nat): seq<Event> {
    if n == 0 then [] else [GO] + Repeat(n - 1)
  }

  /** The dispatcher running one whole request alone, the announcement failing or not. */
  function Request(announced: bool): seq<Event> {
    [GO] + (Repeat(8) + ([GO] + ([DispatcherStep(true, announced)] + [GO])))
  }

  /** The sweep over the error markers touches nothing else. */
  lemma {:induction false} Sweep(s: State, i: nat, n: nat)
    requires s.dispatcher == Clearing(i) && i + n <= ERROR_KINDS
    ensures var t := Run(s, Repeat(n)); t == s.(dispatcher := Clearing(i + n), errors := t.errors)
    decreases n
  {
    if n > 0 {
      assert Repeat(n)[1..] == Repeat(n - 1);
      Sweep(Step(s, GO), i + 1, n - 1);
    }
  }

  lemma RunOne(s: State, e: Event)
    ensures Run(s, [e]) == Step(s, e)
  {
    assert [e][1..] == [];
  }

  lemma RequestRuns(s: State, announced: bool)
    requires s.dispatcher.Idle? && !s.restarting
    ensures
      var t := Run(s, Request(announced));
      && t.dispatcher.Idle? && t.request && t.service == s.service && t.restarting == announced
      && t.accepted == s.accepted + 1 && t.consumed == s.consumed && t.merged == s.merged + Ones(s.request)
  {
    hide Repeat, Run;
    var publish := DispatcherStep(true, announced);
    var s1 := Step(s, GO);
    RunAppend(s, [GO], Repeat(8) + ([GO] + ([publish] + [GO])));
    RunOne(s, GO);
    RunAppend(s1, Repeat(8), [GO] + ([publish] + [GO]));
    Sweep(s1, 0, 8);
    var s9 := Run(s1, Repeat(8));
    RunAppend(s9, [GO], [publish] + [GO]);
    RunOne(s9, GO);
    var s10 := Step(s9, GO);
    RunAppend(s10, [publish], [GO]);
    RunOne(s10, publish);
    RunOne(Step(s10, publish), GO);
  }

  lemma {:induction false} RunAppend(s: State, a: seq<Event>, b: seq<Event>)
    ensures Run(s, a + b) == Run(Run(s, a), b)
    decreases |a|
  {
    if a == [] {
      assert a + b == b;
    } else {
      assert (a + b)[1..] == a[1..] + b;
      RunAppend(Step(s, a[0]), a[1..], b);
    }
  }

  /** Such a state is reachable, and then two requests leave one marker. */
  lemma MergeWitness()
    ensures
      var t := Run(INITIAL, Request(false) + Request(true));
      t.accepted == 2 && t.consumed == 0 && t.merged == 1 && t.request
  {
    RunAppend(INITIAL, Request(false), Request(true));
    RequestRuns(INITIAL, false);
    RequestRuns(Run(INITIAL, Request(false)), true);
  }
}
