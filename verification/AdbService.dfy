/**
 * The standalone ADB service: gadget setup and teardown against a kernel whose every call may fail, the
 * manual reset, and the supervisor loop with its automatic retries.
 */
module AdbService {
  import opened Wrappers

  datatype AdbError = NoError | BSession | Udc | ConfigFs | Ffs | Adbd | LinkError | Bind | Unknown

  const ESRCH: int := -3
  const RETRY_TICKS: nat := 80
  const RETRY_POLLS: nat := 79
  const RESET_ATTEMPTS: nat := 2

  /** `tfb_child_alive` given what wait4 and the kill probe return: only proven absence counts as death. */
  function Alive(pid: int, waited: int, probe: int): bool {
    if pid <= 0 then false
    else if waited == 0 then true
    else if waited == pid then false
    else if waited < 0 then probe != ESRCH
    else false
  }

  /** What the kernel knows of a child: it runs, it has exited and waits to be collected, or there is none. */
  datatype Child = Runs | Zombie | Gone

  /**
   * What wait4 without waiting, and after a failure the kill probe, may return: 0 only for a running child, its pid
   * only for one that has exited; any wait4 may fail, and the probe finds no process exactly when there is none.
   */
  predicate Says(c: Child, pid: int, waited: int, probe: int) {
    && (waited == 0 ==> c == Runs) && (waited > 0 ==> waited == pid && c == Zombie)
    && (c == Gone ==> waited < 0)
    && (waited < 0 ==> (probe == -3 <==> c == Gone))
  }

  /** The check collects a child that has exited. */
  function Collected(c: Child, pid: int, waited: int): Child {
    if waited == pid then Gone else c
  }

  /**
   * Whatever the kernel answers, a check declares the child dead exactly if there is then no such process: a running
   * child is never given up, one that has exited is found unless wait4 fails, and one whose wait4 fails is given up
   * only if the probe finds no process.
   */
  lemma AliveIff(c: Child, pid: int, waited: int, probe: int)
    ensures pid > 0 && Says(c, pid, waited, probe) ==>
      && (Alive(pid, waited, probe) <==> Collected(c, pid, waited) != Gone)
      && (c == Runs ==> Alive(pid, waited, probe))
      && (c == Zombie && waited >= 0 ==> !Alive(pid, waited, probe))
    ensures pid > 0 && waited < 0 ==> (Alive(pid, waited, probe) <==> probe != -3)
    ensures pid <= 0 || waited > 0 ==> !Alive(pid, waited, probe)
  {}

  // ---- the supervisor's own state ----

  datatype Supervisor = Supervisor(ready: bool, manualRequired: bool, ticks: nat)

  /** What one poll meets: a reset request and its result, the child's liveness, an automatic setup's result. */
  datatype Observed = Observed(request: bool, resetOk: bool, alive: bool, setupOk: bool)

  function AfterReset(s: Supervisor, o: Observed): Supervisor {
    if o.request then Supervisor(o.resetOk, !o.resetOk, 0) else s
  }

  function AfterLiveness(s: Supervisor, o: Observed): Supervisor {
    if s.ready && !o.alive then Supervisor(false, true, 0) else s
  }

  /** The poll runs an automatic setup. */
  predicate Attempts(s: Supervisor, o: Observed) {
    var t := AfterLiveness(AfterReset(s, o), o);
    !t.ready && !t.manualRequired && (t.ticks + 1 == 1 || t.ticks + 1 >= RETRY_TICKS)
  }

  function Poll(s: Supervisor, o: Observed): Supervisor {
    var t := AfterLiveness(AfterReset(s, o), o);
    if t.ready || t.manualRequired then t
    else if Attempts(s, o) then Supervisor(o.setupOk, false, 1)
    else t.(ticks := t.ticks + 1)
  }

  /** The state after the first `n` polls, from the result of the initial setup. */
  function After(initial: bool, os: seq<Observed>, n: nat): Supervisor
    requires n <= |os|
  {
    if n == 0 then Supervisor(initial, false, 0) else Poll(After(initial, os, n - 1), os[n - 1])
  }

  predicate Settled(s: Supervisor) {
    s.ready || s.manualRequired
  }

  /** No setup has succeeded and no reset was asked for in the first `n` polls. */
  predicate Quiet(initial: bool, os: seq<Observed>, n: nat)
    requires n <= |os|
  {
    !initial && forall i :: 0 <= i < n ==> !os[i].request && (i % RETRY_POLLS == 0 ==> !os[i].setupOk)
  }

  lemma {:induction false} SupervisorState(initial: bool, os: seq<Observed>, n: nat)
    requires n <= |os|
    ensures Settled(After(initial, os, n)) <==> !Quiet(initial, os, n)
    ensures Quiet(initial, os, n) ==> After(initial, os, n).ticks == if n == 0 then 0 else 1 + (n - 1) % RETRY_POLLS
  {
    if n > 0 {
      SupervisorState(initial, os, n - 1);
      if Quiet(initial, os, n - 1) {
        TickWraps(n);
      }
    }
  }

  lemma TickWraps(n: nat)
    requires n > 0
    ensures n > 1 ==> ((n - 1) % RETRY_POLLS == 0 <==> (n - 2) % RETRY_POLLS == RETRY_POLLS - 1)
    ensures n > 1 && (n - 1) % RETRY_POLLS != 0 ==> (n - 1) % RETRY_POLLS == (n - 2) % RETRY_POLLS + 1
  {}

  /**
   * Exactly when automatic setups run: at polls 0, 79, 158 and so on, and only as long as no setup has
   * succeeded, initial one included, and no reset has been asked for, the current poll included.
   */
  lemma AutomaticIff(initial: bool, os: seq<Observed>, n: nat)
    requires n < |os|
    ensures Attempts(After(initial, os, n), os[n]) <==>
      n % 79 == 0 && Quiet(initial, os, n) && !os[n].request
  {
    SupervisorState(initial, os, n);
    if n > 0 {
      TickWraps(n + 1);
    }
  }

  /** How the service stands, told from what its polls met: up, down until somebody resets it, or trying by itself. */
  datatype Standing = Up | Down | Trying

  /**
   * A reset decides how it stands, unless the daemon is already gone again. Up, it goes down when its daemon does;
   * down, it stays there; trying, it goes up when a setup of its own succeeds, made at polls 0, 79, 158 and so on.
   */
  function StandsAfter(initial: bool, os: seq<Observed>, n: nat): Standing
    requires n <= |os|
  {
    if n == 0 then if initial then Up else Trying
    else
      var before, o := StandsAfter(initial, os, n - 1), os[n - 1];
      if o.request then if o.resetOk && o.alive then Up else Down
      else if before == Up then if o.alive then Up else Down
      else if before == Down then Down
      else if (n - 1) % 79 == 0 && o.setupOk then Up
      else Trying
  }

  lemma {:induction false} TryingIff(initial: bool, os: seq<Observed>, n: nat)
    requires n <= |os|
    ensures StandsAfter(initial, os, n) == Trying <==> Quiet(initial, os, n)
  {
    if n > 0 {
      TryingIff(initial, os, n - 1);
    }
  }

  /** The supervisor's two flags after any polls: ready exactly when up, manual recovery required exactly when down. */
  lemma {:induction false} StandingIff(initial: bool, os: seq<Observed>, n: nat)
    requires n <= |os|
    ensures After(initial, os, n).ready <==> StandsAfter(initial, os, n) == Up
    ensures After(initial, os, n).manualRequired <==> StandsAfter(initial, os, n) == Down
  {
    if n > 0 {
      StandingIff(initial, os, n - 1);
      TryingIff(initial, os, n - 1);
      AutomaticIff(initial, os, n - 1);
      hide Quiet, Attempts;
    }
  }

  // ---- the order of a setup ----

  const SETUP_STEPS: nat := 21

  /**
   * The stage each step of a setup belongs to: device session, controller, configfs with its ten directories and the
   * strings, FunctionFS, the daemon, its endpoints, the link, the daemon again, the binding, and the daemon again.
   */
  function StageAt(step: nat): AdbError {
    if step == 0 then BSession
    else if step == 1 then Udc
    else if step <= 13 then ConfigFs
    else if step == 14 || step == 16 then Ffs
    else if step == 17 then LinkError
    else if step == 19 then Bind
    else Adbd
  }

  /** What one liveness check of the child meets. */
  datatype Check = Check(child: Child, waited: int, probe: int)

  /** The check finds the child gone, or collects it. */
  predicate Finds(c: Check, pid: int) {
    c.child == Gone || c.waited == pid
  }

  /**
   * Polls `m` to `n` of a ready service without a reset request, under any answers of the kernel: it stays ready as
   * long as no check finds the child gone or collects it, so in particular while the child runs; from the first check
   * that does it is not ready and waits for manual recovery.
   */
  lemma {:induction false} ReadyIff(initial: bool, os: seq<Observed>, cs: seq<Check>, pid: int, m: nat, n: nat)
    requires m <= n <= |os| == |cs| && pid > 0 && After(initial, os, m).ready
    requires forall i :: m <= i < n ==>
      && !os[i].request && Says(cs[i].child, pid, cs[i].waited, cs[i].probe)
      && os[i].alive == Alive(pid, cs[i].waited, cs[i].probe)
    ensures After(initial, os, n) ==
      if forall i :: m <= i < n ==> !Finds(cs[i], pid) then After(initial, os, m) else Supervisor(false, true, 0)
    ensures (forall i :: m <= i < n ==> cs[i].child == Runs) ==> After(initial, os, n).ready
  {
    if m < n {
      ReadyIff(initial, os, cs, pid, m, n - 1);
      var c := cs[n - 1];
      AliveIff(c.child, pid, c.waited, c.probe);
      hide Alive;
      if forall i :: m <= i < n - 1 ==> !Finds(cs[i], pid) {
        assert (forall i :: m <= i < n ==> !Finds(cs[i], pid)) <==> !Finds(c, pid);
      }
    }
  }

  // ---- the gadget ----

  class Service {
    var readyMarker: bool
    var displayMarker: bool
    var gadgetRoot: bool   // the configfs g1 object
    var functionDir: bool  // functions/ffs.adb
    var link: bool         // configs/b.1/f1
    var bound: bool        // g1 bound to the UDC
    var mounted: bool      // FunctionFS at /dev/usb-ffs/adb
    var adbdPid: int
    var child: Child       // the kernel's side of adbdPid
    var lastError: AdbError
    var restarting: bool
    var request: bool
    var errors: set<AdbError>
    var supervisor: Supervisor
    /** A release call failed on something that was there, or a marker could not be created. */
    ghost var releaseFault: bool
    ghost var createFault: bool
    /** The stage of the step that failed in the last setup, or NoError; and what wait4 and the probe last said. */
    ghost var broke: AdbError
    /** How many steps of the last setup were tried. */
    ghost var tried: nat
    /** How many setups were begun. */
    ghost var setups: nat
    ghost var waited: int
    ghost var probe: int

    constructor ()
      ensures Released() && !gadgetRoot && lastError == NoError && errors == {} && !restarting && !request
      ensures !releaseFault && !createFault && supervisor == Supervisor(false, false, 0)
    {
      readyMarker, displayMarker, gadgetRoot, functionDir, link, bound, mounted :=
        false, false, false, false, false, false, false;
      adbdPid, child, lastError, restarting, request, errors := -1, Gone, NoError, false, false, {};
      supervisor := Supervisor(false, false, 0);
      releaseFault, createFault, broke := false, false, NoError;
      tried, setups, waited, probe := 0, 0, 0, 0;
    }

    /** Nothing of the gadget is held. */
    predicate Released()
      reads this
    {
      !readyMarker && !link && !bound && !mounted && adbdPid == -1
    }

    predicate Running()
      reads this
    {
      link && bound && mounted && adbdPid > 0 && child != Gone && lastError == NoError
    }

    /** The child may exit at any time; then wait4 and the kill probe say any of what they may. */
    method Ask() returns (rc: int, killed: int, met: Child)
      requires adbdPid > 0
      modifies this`child
      ensures met == old(child) || (old(child) == Runs && met == Zombie)
      ensures Says(met, adbdPid, rc, killed) && child == Collected(met, adbdPid, rc)
    {
      met := child;
      var exits: bool, fails: bool, error: nat, other: int := *, *, *, *;
      if met == Runs && exits {
        met := Zombie;
      }
      if fails || met == Gone {
        rc := -1 - error;
        killed := if met == Gone then ESRCH else if other == ESRCH then 0 else other;
      } else {
        rc := if met == Runs then 0 else adbdPid;
        killed := other;
      }
      child := Collected(met, adbdPid, rc);
    }

    /**
     * The service's liveness check forgets a child exactly if there is no such process any more. One that had exited
     * before the check is forgotten unless wait4 fails.
     */
    method AdbdAlive() returns (alive: bool)
      modifies this`adbdPid, this`child, this`waited, this`probe
      ensures old(adbdPid) > 0 ==> (alive <==> child != Gone)
      ensures old(adbdPid) > 0 && old(child) == Zombie && waited >= 0 ==> !alive
      ensures old(adbdPid) > 0 && waited < 0 ==> (alive <==> probe != -3)
      ensures child == old(child) || (old(child) == Runs && child == Zombie)
        || (child == Gone && waited == old(adbdPid))
      ensures old(adbdPid) <= 0 ==> !alive
      ensures adbdPid == if alive then old(adbdPid) else -1
    {
      if adbdPid <= 0 {
        adbdPid := -1;
        return false;
      }
      var rc, killed, met := Ask();
      waited, probe := rc, killed;
      AliveIff(met, adbdPid, rc, killed);
      alive := Alive(adbdPid, rc, killed);
      if !alive {
        adbdPid := -1;
      }
    }

    /** Terminate, poll twenty times, then kill: the child is given up in every case. */
    method StopAdbd()
      modifies this`adbdPid, this`child
      ensures old(adbdPid) > 0 ==> adbdPid == -1
      ensures old(adbdPid) <= 0 ==> adbdPid == old(adbdPid) && child == old(child)
    {
      if adbdPid <= 0 {
        return;
      }
      var attempt := 0;
      while attempt < 20
        invariant adbdPid == old(adbdPid)
      {
        var rc, killed, met := Ask();
        if !Alive(adbdPid, rc, killed) {
          adbdPid := -1;
          return;
        }
        attempt := attempt + 1;
      }
      adbdPid := -1;
    }

    /** Removes what it names; failing matters only if it was there. */
    method Release(held: bool) returns (left: bool)
      modifies this`releaseFault
      ensures left ==> held
      ensures old(releaseFault) ==> releaseFault
      ensures !releaseFault ==> !left
    {
      var failed := *;
      left := held && failed;
      if left {
        releaseFault := true;
      }
    }

    method Create() returns (created: bool)
      modifies this`createFault
      ensures old(createFault) ==> createFault
      ensures !createFault ==> created
    {
      created := *;
      if !created {
        createFault := true;
      }
    }

    /** A setup step that may fail; steps are tried in their order only. */
    method Perform(stage: AdbError) returns (ok: bool)
      requires broke == NoError && tried < SETUP_STEPS && stage == StageAt(tried)
      modifies this`broke, this`tried
      ensures tried == old(tried) + 1
      ensures broke == if ok then NoError else stage
    {
      ok := *;
      tried := tried + 1;
      if !ok {
        broke := stage;
      }
    }

    /** Every held resource is released unless the release itself fails; the g1 object is never removed. */
    method Teardown()
      requires adbdPid == -1 || adbdPid > 0
      modifies this`readyMarker, this`displayMarker, this`bound, this`link, this`adbdPid, this`child, this`mounted,
               this`functionDir, this`releaseFault
      ensures old(releaseFault) ==> releaseFault
      ensures !releaseFault ==> Released()
      ensures adbdPid == -1
    {
      readyMarker := Release(readyMarker);
      displayMarker := Release(displayMarker);
      bound := Release(bound);
      link := Release(link);
      StopAdbd();
      mounted := Release(mounted);
      var failed := *;
      functionDir := functionDir && failed;
    }

    /**
     * The whole setup: it succeeds exactly when no step fails. Failure names the stage of the step that did,
     * and leaves everything released unless a release call failed; success leaves the gadget linked, bound,
     * mounted and served. The g1 object is kept either way.
     */
    method Setup() returns (ok: bool)
      requires adbdPid == -1 || adbdPid > 0
      modifies this`readyMarker, this`displayMarker, this`bound, this`link, this`adbdPid, this`child, this`mounted,
               this`functionDir, this`releaseFault, this`createFault, this`gadgetRoot, this`lastError, this`broke,
               this`tried, this`setups, this`waited, this`probe
      ensures setups == old(setups) + 1
      ensures old(releaseFault) ==> releaseFault
      ensures old(createFault) ==> createFault
      ensures old(gadgetRoot) ==> gadgetRoot
      ensures ok <==> broke == NoError
      ensures lastError == broke
      ensures 1 <= tried <= SETUP_STEPS
      ensures if ok then tried == SETUP_STEPS else lastError == StageAt(tried - 1)
      ensures ok ==> Running() && gadgetRoot && functionDir && (readyMarker || createFault)
      ensures !ok ==> adbdPid == -1 && (!releaseFault ==> Released())
    {
      lastError := Unknown;
      broke, tried, setups := NoError, 0, setups + 1;
      Teardown();
      ok := Begin();
      if !ok {
        return false;
      }
      ok := Assemble();
      if !ok {
        Teardown();
        return false;
      }
      lastError := NoError;
      readyMarker := Create();
    }

    /** The device session, the controller, which appears within forty polls, and mounting configfs. */
    method Begin() returns (ok: bool)
      requires broke == NoError && tried == 0
      modifies this`lastError, this`broke, this`tried
      ensures ok ==> broke == NoError && tried == 3 && lastError == old(lastError)
      ensures !ok ==> 1 <= tried <= 3 && lastError == broke == StageAt(tried - 1)
    {
      ok := Perform(BSession);
      if !ok {
        lastError := BSession;
        return;
      }
      ok := Perform(Udc);
      if !ok {
        lastError := Udc;
        return;
      }
      ok := Perform(ConfigFs);
      if !ok {
        lastError := ConfigFs;
      }
    }

    /** The gadget, then what serves it. */
    method Assemble() returns (ok: bool)
      requires adbdPid == -1 && broke == NoError && tried == 3
      modifies this`mounted, this`adbdPid, this`child, this`link, this`bound, this`gadgetRoot, this`functionDir,
               this`lastError, this`broke, this`tried, this`waited, this`probe
      ensures adbdPid == -1 || adbdPid > 0
      ensures old(gadgetRoot) ==> gadgetRoot
      ensures ok ==> broke == NoError && tried == SETUP_STEPS && gadgetRoot && functionDir
      ensures ok ==> mounted && link && bound && adbdPid > 0 && child != Gone
      ensures !ok ==> 4 <= tried <= SETUP_STEPS && lastError == broke == StageAt(tried - 1)
    {
      ok := BuildGadget();
      if ok {
        ok := ServeGadget();
      }
    }

    /** Directories and identity strings of the gadget. */
    method BuildGadget() returns (ok: bool)
      requires broke == NoError && tried == 3
      modifies this`gadgetRoot, this`functionDir, this`lastError, this`broke, this`tried, this`tried
      ensures old(gadgetRoot) ==> gadgetRoot
      ensures ok ==> broke == NoError && tried == 14 && gadgetRoot && functionDir && lastError == old(lastError)
      ensures !ok ==> lastError == broke == ConfigFs && 4 <= tried <= 14
    {
      var index := 0;
      while index < 10
        invariant 0 <= index <= 10 && lastError == old(lastError) && broke == NoError && tried == 3 + index
        invariant old(gadgetRoot) || index > 1 ==> gadgetRoot
        invariant index == 10 ==> functionDir
      {
        var made := Perform(ConfigFs);
        if !made {
          lastError := ConfigFs;
          return false;
        }
        if index == 1 {
          gadgetRoot := true;
        }
        if index == 9 {
          functionDir := true;
        }
        index := index + 1;
      }
      ok := Perform(ConfigFs); // the six identity strings
      if !ok {
        lastError := ConfigFs;
      }
    }

    /** FunctionFS, the daemon, the configuration link and the UDC binding, with the liveness checks between them. */
    method ServeGadget() returns (ok: bool)
      requires adbdPid == -1 && broke == NoError && tried == 14
      modifies this`mounted, this`adbdPid, this`child, this`link, this`bound, this`lastError, this`broke, this`tried,
               this`waited, this`probe
      ensures adbdPid == -1 || adbdPid > 0
      ensures ok ==>
        broke == NoError && tried == SETUP_STEPS && mounted && link && bound && adbdPid > 0 && child != Gone
      ensures !ok ==> 15 <= tried <= SETUP_STEPS && lastError == broke == StageAt(tried - 1)
    {
      ok := Perform(Ffs);
      if !ok {
        lastError := Ffs;
        return;
      }
      mounted := true;
      ok := StartAdbd();
      if !ok {
        lastError := Adbd;
        return;
      }
      ok := WaitEndpoints();
      if !ok {
        lastError := Ffs;
        return;
      }
      link := false;
      ok := Perform(LinkError);
      if !ok {
        lastError := LinkError;
        return;
      }
      link := true;
      ok := StillAlive();
      if !ok {
        lastError := Adbd;
        return;
      }
      ok := Perform(Bind);
      if !ok {
        lastError := Bind;
        return;
      }
      bound := true;
      ok := StillAlive();
      if !ok {
        lastError := Adbd;
      }
    }

    /** The clone of the daemon, which may fail. */
    method StartAdbd() returns (ok: bool)
      requires adbdPid == -1 && broke == NoError && tried < SETUP_STEPS && StageAt(tried) == Adbd
      modifies this`adbdPid, this`child, this`broke, this`tried
      ensures tried == old(tried) + 1
      ensures broke == if ok then NoError else Adbd
      ensures if ok then adbdPid > 0 && child == Runs else adbdPid == -1
    {
      var rc: int := *;
      tried := tried + 1;
      ok := rc > 0;
      if ok {
        adbdPid, child := rc, Runs;
      } else {
        broke := Adbd;
      }
    }

    /** The liveness checks around the binding: a dead daemon is a failure of its own stage. */
    method StillAlive() returns (ok: bool)
      requires broke == NoError && adbdPid > 0 && tried < SETUP_STEPS && StageAt(tried) == Adbd
      modifies this`adbdPid, this`child, this`broke, this`tried, this`waited, this`probe
      ensures ok <==> child != Gone
      ensures tried == old(tried) + 1
      ensures broke == if ok then NoError else Adbd
      ensures adbdPid == if ok then old(adbdPid) else -1
    {
      ok := AdbdAlive();
      tried := tried + 1;
      if !ok {
        broke := Adbd;
      }
    }

    /** Waits for both endpoints for a hundred polls, giving up when the daemon dies. */
    method WaitEndpoints() returns (ok: bool)
      requires adbdPid > 0 && broke == NoError && tried < SETUP_STEPS && StageAt(tried) == Ffs
      modifies this`adbdPid, this`child, this`broke, this`tried, this`waited, this`probe
      ensures tried == old(tried) + 1
      ensures broke == if ok then NoError else Ffs
      ensures ok ==> adbdPid == old(adbdPid) && child != Gone
      ensures adbdPid == -1 || adbdPid == old(adbdPid)
    {
      var attempt := 0;
      tried := tried + 1;
      while attempt < 100
        invariant adbdPid == old(adbdPid) && broke == NoError && tried == old(tried) + 1
      {
        var alive := AdbdAlive();
        if !alive {
          broke := Ffs;
          return false;
        }
        var present := *;
        if present {
          return true;
        }
        attempt := attempt + 1;
      }
      broke := Ffs;
      ok := false;
    }

    /** The one marker for a failed reset; codes without a marker of their own use the unknown one. */
    static function MarkerOf(e: AdbError): AdbError {
      if e == NoError then Unknown else e
    }

    method PublishError()
      modifies this`errors, this`createFault
      ensures old(createFault) ==> createFault
      ensures errors == {MarkerOf(lastError)} || (createFault && errors == {})
    {
      errors := {};
      var created := Create();
      if created {
        errors := {MarkerOf(lastError)};
      }
    }

    /**
     * The manual reset: the request is consumed, at most two setups run, RESTARTING is withdrawn, and the
     * error markers name the stage that broke the last setup or are all gone.
     */
    method ManualReset() returns (ok: bool)
      requires adbdPid == -1 || adbdPid > 0
      modifies this`readyMarker, this`displayMarker, this`bound, this`link, this`adbdPid, this`child, this`mounted,
               this`functionDir, this`releaseFault, this`createFault, this`gadgetRoot, this`lastError, this`broke,
               this`tried, this`setups, this`waited, this`probe, this`restarting, this`request, this`errors
      ensures old(releaseFault) ==> releaseFault
      ensures old(createFault) ==> createFault
      ensures old(gadgetRoot) ==> gadgetRoot
      ensures !request && !restarting
      ensures if ok then setups - old(setups) in {1, 2} else setups == old(setups) + 2
      ensures ok <==> broke == NoError
      ensures lastError == broke
      ensures ok ==> Running() && errors == {}
      ensures !ok ==> adbdPid == -1 && (!releaseFault ==> Released())
      ensures !ok ==> errors == {lastError} || (createFault && errors == {})
    {
      request := false;
      errors := {};
      restarting := Create();
      var attempt := 1;
      while attempt <= RESET_ATTEMPTS
        invariant 1 <= attempt <= RESET_ATTEMPTS + 1
        invariant (old(releaseFault) ==> releaseFault) && (old(createFault) ==> createFault)
          && (old(gadgetRoot) ==> gadgetRoot)
        invariant setups == old(setups) + attempt - 1
        invariant errors == {} && !request && (adbdPid == -1 || adbdPid > 0)
        invariant attempt > 1 ==> lastError == broke != NoError && adbdPid == -1 && (!releaseFault ==> Released())
      {
        var done := Setup();
        if done {
          restarting := false;
          errors := {};
          return true;
        }
        attempt := attempt + 1;
      }
      restarting := false;
      PublishError();
      ok := false;
    }

    /** The supervisor claims readiness only while it still holds the daemon, and there is such a process. */
    predicate Supervised()
      reads this
    {
      && (adbdPid == -1 || adbdPid > 0)
      && (supervisor.ready ==> adbdPid > 0 && child != Gone)
      && (!supervisor.ready ==> adbdPid == -1)
    }

    /**
     * One pass of the supervisor loop outside a stop request: its own state moves by the poll function on
     * what it met, and an automatic setup runs exactly when that function says so.
     */
    method SupervisorPoll() returns (o: Observed, attempted: bool)
      requires Supervised()
      modifies this
      ensures Supervised()
      ensures o.request == old(request)
      ensures supervisor == Poll(old(supervisor), o)
      ensures attempted == Attempts(old(supervisor), o)
      ensures old(gadgetRoot) ==> gadgetRoot
      ensures old(releaseFault) ==> releaseFault
      ensures attempted && !o.setupOk && !releaseFault ==> Released()
      ensures !o.request ==> setups == old(setups) + if attempted then 1 else 0
      ensures old(supervisor.ready) && !o.request ==>
        supervisor == if child == Gone then Supervisor(false, true, 0) else old(supervisor)
      ensures old(supervisor.ready) && !o.request && old(child) == Zombie && waited >= 0 ==> child == Gone
    {
      o := Observed(request, false, true, false);
      if request {
        var ok := ManualReset();
        o := o.(resetOk := ok);
        supervisor := Supervisor(ok, !ok, 0);
      }
      if supervisor.ready {
        var alive := AdbdAlive();
        o := o.(alive := alive);
        if !alive {
          var left := Release(readyMarker);
          readyMarker := left;
          supervisor := Supervisor(false, true, 0);
        }
      }
      attempted := false;
      if !supervisor.ready && !supervisor.manualRequired {
        supervisor := supervisor.(ticks := supervisor.ticks + 1);
        if supervisor.ticks == 1 || supervisor.ticks >= RETRY_TICKS {
          attempted := true;
          var ok := Setup();
          o := o.(setupOk := ok);
          supervisor := Supervisor(ok, false, 1);
        }
      }
    }
  }
}
