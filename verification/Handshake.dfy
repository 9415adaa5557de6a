/** The handshake between mountInternal and the detached threads that run run_fuse
    (src/usvfsmanager.cpp): one mutex, one condition variable and one status for each
    pending state, and an active list that the threads append to without any lock of its
    own.  Every interleaving is a run of the step relation below. */
module Handshake {
  import Mounts
  import Linking

  datatype Status = Unknown | Mounted | Failed

  datatype Holder = Free | ByMounter | ByWorker

  /** Where run_fuse is.  Before Locked the thread has not got its mutex; Appended is
      between emplace_back and the status; Told is after notify_all. */
  datatype Worker = NotSpawned | Spawned | Locked | Appended | Refused | StatusSet | Unlocked | Told

  /** Where mountInternal is with state i. */
  datatype Mounter =
    | Preparing(i: nat)
    | Locking(i: nat)
    | Checking(i: nat)
    | Sleeping(i: nat)
    | Waking(i: nat)
    | Returned(result: bool)

  /** The active list at the start, the states to mount, and which the host would mount. */
  datatype Config = Config(active: seq<Mounts.Mount>, toMount: seq<Mounts.Mount>, grants: seq<bool>)

  /** spurious bounds the wakeups that nobody asked for. */
  datatype State = State(mounter: Mounter, workers: seq<Worker>, status: seq<Status>, mutex: seq<Holder>,
                         mounts: seq<Mounts.Mount>, spurious: nat)

  ghost predicate Shape(c: Config, s: State) {
    |c.grants| == |c.toMount| == |s.workers| == |s.status| == |s.mutex|
  }

  ghost predicate Init(c: Config, s: State) {
    && Shape(c, s) && s.mounter == Preparing(0) && s.mounts == c.active
    && forall j | 0 <= j < |c.toMount| :: s.workers[j] == NotSpawned && s.status[j] == Unknown && s.mutex[j] == Free
  }

  // ----------------------------------------------------------------------- the mounter

  /** All steps but the wakeups that nobody asked for. */
  ghost predicate MounterStep(c: Config, s: State, s': State)
    requires Shape(c, s)
  {
    match s.mounter
    case Preparing(i) =>
      if i < |c.toMount| then s' == s.(mounter := Locking(i), workers := s.workers[i := Spawned])
      else s' == s.(mounter := Returned(true))
    case Locking(i) =>
      i < |c.toMount| && s.mutex[i] == Free && s' == s.(mounter := Checking(i), mutex := s.mutex[i := ByMounter])
    case Checking(i) =>
      && i < |c.toMount|
      && var released := s.(mutex := s.mutex[i := Free]);
         (match s.status[i]
          case Unknown => s' == released.(mounter := Sleeping(i))
          case Mounted => s' == released.(mounter := Preparing(i + 1))
          case Failed => s' == released.(mounter := Returned(false)))
    case Sleeping(_) => false
    case Waking(i) =>
      i < |c.toMount| && s.mutex[i] == Free && s' == s.(mounter := Checking(i), mutex := s.mutex[i := ByMounter])
    case Returned(_) => false
  }

  ghost predicate SpuriousWakeup(s: State, s': State) {
    s.mounter.Sleeping? && s.spurious > 0 && s' == s.(mounter := Waking(s.mounter.i), spurious := s.spurious - 1)
  }

  // ----------------------------------------------------------------------- the workers

  ghost predicate WorkerStep(c: Config, s: State, s': State, j: nat)
    requires Shape(c, s) && j < |c.toMount|
  {
    match s.workers[j]
    case NotSpawned => false
    case Spawned => s.mutex[j] == Free && s' == s.(workers := s.workers[j := Locked], mutex := s.mutex[j := ByWorker])
    case Locked =>
      if c.grants[j] then s' == s.(workers := s.workers[j := Appended], mounts := s.mounts + [c.toMount[j]])
      else s' == s.(workers := s.workers[j := Refused])
    case Appended => s' == s.(workers := s.workers[j := StatusSet], status := s.status[j := Mounted])
    case Refused => s' == s.(workers := s.workers[j := StatusSet], status := s.status[j := Failed])
    case StatusSet => s' == s.(workers := s.workers[j := Unlocked], mutex := s.mutex[j := Free])
    case Unlocked =>
      s' == s.(workers := s.workers[j := Told], mounter := if s.mounter == Sleeping(j) then Waking(j) else s.mounter)
    case Told => false
  }

  ghost predicate Next(c: Config, s: State, s': State) {
    && Shape(c, s)
    && (MounterStep(c, s, s') || SpuriousWakeup(s, s') || exists j: nat :: j < |c.toMount| && WorkerStep(c, s, s', j))
  }

  // ---------------------------------------------------------------------- the invariant

  /** How many states the mounter is done with. */
  function Settled(c: Config, s: State): nat {
    match s.mounter
    case Preparing(i) => i
    case Locking(i) => i
    case Checking(i) => i
    case Sleeping(i) => i
    case Waking(i) => i
    case Returned(result) => if result then |c.toMount| else Leading(c.grants)
  }

  /** How many states the host mounts before it refuses one. */
  function Leading(grants: seq<bool>): (k: nat)
    ensures k <= |grants| && (forall j | 0 <= j < k :: grants[j]) && (k < |grants| ==> !grants[k])
  {
    if grants != [] && grants[0] then 1 + Leading(grants[1..]) else 0
  }

  ghost predicate Holds(w: Worker) {
    w.Locked? || w.Appended? || w.Refused? || w.StatusSet?
  }

  ghost predicate HasStatus(w: Worker) {
    w.StatusSet? || w.Unlocked? || w.Told?
  }

  ghost predicate WorkerOk(c: Config, s: State, j: nat)
    requires Shape(c, s) && j < |c.toMount|
  {
    var w := s.workers[j];
    && s.status[j] == (if !HasStatus(w) then Unknown else if c.grants[j] then Mounted else Failed)
    && s.mutex[j] == (if Holds(w) then ByWorker else if s.mounter == Checking(j) then ByMounter else Free)
    && !(Holds(w) && s.mounter == Checking(j))
    && (w.Appended? ==> c.grants[j]) && (w.Refused? ==> !c.grants[j])
    && (s.mounter == Sleeping(j) ==> !w.Told?)
  }

  /** Workers behind the mounter have mounted and let go; those ahead do not exist yet. */
  ghost predicate Inv(c: Config, s: State) {
    && Shape(c, s) && Settled(c, s) <= |c.toMount|
    && (forall j | 0 <= j < |c.toMount| :: WorkerOk(c, s, j))
    && (forall j | 0 <= j < Settled(c, s) :: (s.workers[j].Unlocked? || s.workers[j].Told?) && c.grants[j])
    && (forall j | Settled(c, s) < j < |c.toMount| :: s.workers[j] == NotSpawned)
    && MounterOk(c, s)
    && s.mounts == c.active + c.toMount[..Settled(c, s)] + InFlight(c, s)
  }

  ghost predicate MounterOk(c: Config, s: State)
    requires Shape(c, s)
  {
    match s.mounter
    case Preparing(i) => i < |c.toMount| ==> s.workers[i] == NotSpawned
    case Returned(result) =>
      var n := Leading(c.grants);
      !result ==> n < |c.toMount| && (s.workers[n].Unlocked? || s.workers[n].Told?)
    case _ => s.mounter.i < |c.toMount| && s.workers[s.mounter.i] != NotSpawned
  }

  /** What the worker that the mounter waits for has appended already. */
  function InFlight(c: Config, s: State): seq<Mounts.Mount> {
    var i := Settled(c, s);
    if i < |c.toMount| && i < |s.workers| && i < |c.grants| && c.grants[i]
       && (s.workers[i].Appended? || s.workers[i].StatusSet? || s.workers[i].Unlocked? || s.workers[i].Told?)
    then [c.toMount[i]] else []
  }

  lemma InitInv(c: Config, s: State)
    requires Init(c, s)
    ensures Inv(c, s)
  {}

  lemma LeadingIs(grants: seq<bool>, k: nat)
    requires k < |grants| && !grants[k] && forall j | 0 <= j < k :: grants[j]
    ensures Leading(grants) == k
  {}

  lemma MounterKeepsInv(c: Config, s: State, s': State)
    requires Inv(c, s) && MounterStep(c, s, s')
    ensures Inv(c, s')
  {
    forall j | 0 <= j < |c.toMount| ensures WorkerOk(c, s', j) {
      assert WorkerOk(c, s, j);
    }
    if s.mounter.Checking? {
      CheckingKeepsInv(c, s, s');
    } else if s.mounter.Preparing? && s.mounter.i == |c.toMount| {
      assert c.toMount[..s.mounter.i] == c.toMount[..|c.toMount|];
    }
  }

  lemma CheckingKeepsInv(c: Config, s: State, s': State)
    requires Inv(c, s) && MounterStep(c, s, s') && s.mounter.Checking?
    requires forall j | 0 <= j < |c.toMount| :: WorkerOk(c, s', j)
    ensures Inv(c, s')
  {
    var i := s.mounter.i;
    assert WorkerOk(c, s, i);
    assert c.toMount[..i + 1] == c.toMount[..i] + [c.toMount[i]];
    if s.status[i] == Failed {
      LeadingIs(c.grants, i);
    }
  }

  lemma WorkerKeepsInv(c: Config, s: State, s': State, j: nat)
    requires Inv(c, s) && j < |c.toMount| && WorkerStep(c, s, s', j)
    ensures Inv(c, s')
  {
    WorkersStayOk(c, s, s', j);
    assert WorkerOk(c, s, j);
    assert j <= Settled(c, s);
    assert j < Settled(c, s) ==> s.workers[j].Unlocked?;
  }

  lemma WorkersStayOk(c: Config, s: State, s': State, j: nat)
    requires Inv(c, s) && j < |c.toMount| && WorkerStep(c, s, s', j)
    ensures Shape(c, s') && forall k | 0 <= k < |c.toMount| :: WorkerOk(c, s', k)
  {
    assert WorkerOk(c, s, j);
    forall k | 0 <= k < |c.toMount| ensures WorkerOk(c, s', k) {
      assert WorkerOk(c, s, k);
    }
  }

  lemma SpuriousKeepsInv(c: Config, s: State, s': State)
    requires Inv(c, s) && SpuriousWakeup(s, s')
    ensures Inv(c, s')
  {
    forall j | 0 <= j < |c.toMount| ensures WorkerOk(c, s', j) {
      assert WorkerOk(c, s, j);
    }
  }

  lemma NextKeepsInv(c: Config, s: State, s': State)
    requires Inv(c, s) && Next(c, s, s')
    ensures Inv(c, s')
  {
    if MounterStep(c, s, s') {
      MounterKeepsInv(c, s, s');
    } else if SpuriousWakeup(s, s') {
      SpuriousKeepsInv(c, s, s');
    } else {
      var j: nat :| j < |c.toMount| && WorkerStep(c, s, s', j);
      WorkerKeepsInv(c, s, s', j);
    }
  }

  // ------------------------------------------------------------------------- all runs

  /** A run: each state follows from the one before by some step of somebody. */
  ghost predicate IsRun(c: Config, run: seq<State>) {
    && run != [] && Init(c, run[0])
    && forall i | 0 <= i < |run| - 1 :: Next(c, run[i], run[i + 1])
  }

  lemma {:induction false} RunInv(c: Config, run: seq<State>, i: nat)
    requires IsRun(c, run) && i < |run|
    ensures Inv(c, run[i])
    decreases i
  {
    if i == 0 {
      InitInv(c, run[0]);
    } else {
      RunInv(c, run, i - 1);
      assert Next(c, run[i - 1], run[i - 1 + 1]);
      NextKeepsInv(c, run[i - 1], run[i]);
    }
  }

  /** The mounter waits for worker j: it will not move on before it sees j's status under
      j's mutex. */
  ghost predicate WaitsFor(s: State, j: nat) {
    s.mounter == Locking(j) || s.mounter == Sleeping(j) || s.mounter == Waking(j)
  }

  /** The active list changes only when a worker that holds its mutex appends its own
      state while the mounter waits for that very worker; so no two appends overlap. */
  lemma AppendsOnlyWhileAwaited(c: Config, run: seq<State>, i: nat)
    requires IsRun(c, run) && i + 1 < |run| && run[i].mounts != run[i + 1].mounts
    ensures exists j: nat ::
              && j < |c.toMount| && WaitsFor(run[i], j) && Shape(c, run[i]) && run[i].mutex[j] == ByWorker
              && run[i + 1].mounts == run[i].mounts + [c.toMount[j]]
              && forall k | 0 <= k < |c.toMount| && k != j :: run[i].mutex[k] != ByWorker
  {
    var s, s' := run[i], run[i + 1];
    RunInv(c, run, i);
    assert Next(c, s, s');
    var j: nat :| j < |c.toMount| && WorkerStep(c, s, s', j);
    assert WorkerOk(c, s, j);
    forall k | 0 <= k < |c.toMount| && k != j ensures s.mutex[k] != ByWorker {
      assert WorkerOk(c, s, k);
    }
    assert j == Settled(c, s);
    assert s.mounter.Locking? || s.mounter.Sleeping? || s.mounter.Waking?;
  }

  /** In every interleaving: when mountInternal has returned, the active list is the old
      one followed by the states before the first that the host refuses, in order and once
      each; the result is true exactly when that is all of them; and nothing changes the
      list afterwards. */
  lemma ReturnsWhatMounted(c: Config, run: seq<State>, i: nat, later: nat)
    requires IsRun(c, run) && i <= later < |run| && run[i].mounter.Returned?
    ensures run[i].mounts == c.active + c.toMount[..Leading(c.grants)] && |c.grants| == |c.toMount|
    ensures run[i].mounter.result <==> Leading(c.grants) == |c.toMount|
    ensures run[later].mounts == run[i].mounts && run[later].mounter == run[i].mounter
  {
    RunInv(c, run, i);
    ReturnedMounts(c, run[i]);
    ReturnedForGood(c, run, i, later);
  }

  lemma {:induction false} ReturnedForGood(c: Config, run: seq<State>, i: nat, later: nat)
    requires IsRun(c, run) && i <= later < |run| && run[i].mounter.Returned?
    ensures run[later].mounts == run[i].mounts && run[later].mounter == run[i].mounter
    decreases later
  {
    if i < later {
      ReturnedForGood(c, run, i, later - 1);
      ReturnedOnce(c, run, later - 1);
    }
  }

  lemma ReturnedOnce(c: Config, run: seq<State>, i: nat)
    requires IsRun(c, run) && i + 1 < |run| && run[i].mounter.Returned?
    ensures run[i + 1].mounts == run[i].mounts && run[i + 1].mounter == run[i].mounter
  {
    RunInv(c, run, i);
    assert Next(c, run[i], run[i + 1]);
    ReturnedStays(c, run[i], run[i + 1]);
  }

  lemma ReturnedMounts(c: Config, s: State)
    requires Inv(c, s) && s.mounter.Returned?
    ensures s.mounts == c.active + c.toMount[..Leading(c.grants)]
    ensures s.mounter.result <==> Leading(c.grants) == |c.toMount|
  {
    var n := Leading(c.grants);
    if s.mounter.result {
      assert n == Settled(c, s);
    }
    assert InFlight(c, s) == [];
    assert c.active + c.toMount[..n] + [] == c.active + c.toMount[..n];
  }

  lemma ReturnedStays(c: Config, s: State, s': State)
    requires Inv(c, s) && Next(c, s, s') && s.mounter.Returned?
    ensures s'.mounts == s.mounts && s'.mounter == s.mounter
  {
    var j: nat :| j < |c.toMount| && WorkerStep(c, s, s', j);
    assert WorkerOk(c, s, j);
    assert s.workers[j].Unlocked?;
  }

  /** What the handshake leaves is what mounting means for the manager, unless the upper
      directory does not open and no handshake begins. */
  lemma HandshakeIsMountPending(g: Linking.Manager, upperOpens: bool, c: Config, run: seq<State>, i: nat)
    requires g.upperDir == "" || upperOpens
    requires c.active == g.active && c.toMount == Linking.PrepareAll(g.pending, g.upperDir)
    requires IsRun(c, run) && i < |run| && run[i].mounter.Returned?
    ensures var (g', result) := Linking.MountPending(g, upperOpens, Leading(c.grants));
            run[i].mounts == g'.active && run[i].mounter.result == result && g'.pending == []
  {
    ReturnsWhatMounted(c, run, i, i);
    var n := Leading(c.grants);
    assert Linking.PrepareAll(g.pending[..n], g.upperDir) == c.toMount[..n];
  }

  // ------------------------------------------------------------------------- progress

  function Remaining(w: Worker): nat {
    match w
    case NotSpawned => 6
    case Spawned => 5
    case Locked => 4
    case Appended => 3
    case Refused => 3
    case StatusSet => 2
    case Unlocked => 1
    case Told => 0
  }

  function Work(workers: seq<Worker>): nat
    decreases |workers|
  {
    if workers == [] then 0 else Remaining(workers[0]) + Work(workers[1..])
  }

  lemma {:induction false} WorkUpdate(workers: seq<Worker>, j: nat, w: Worker)
    requires j < |workers|
    ensures Work(workers[j := w]) == Work(workers) - Remaining(workers[j]) + Remaining(w)
    decreases |workers|
  {
    if j == 0 {
      assert workers[j := w][1..] == workers[1..];
    } else {
      assert workers[j := w][1..] == workers[1..][j - 1 := w];
      WorkUpdate(workers[1..], j - 1, w);
    }
  }

  function Phase(m: Mounter): nat {
    match m
    case Preparing(_) => 4
    case Locking(_) => 3
    case Waking(_) => 3
    case Checking(_) => 2
    case Sleeping(_) => 1
    case Returned(_) => 0
  }

  /** What is left to do: idle wakeups, thread steps, states and the mounter's own steps; a
      wakeup costs the mounter at most two steps more. */
  function Rank(c: Config, s: State): int {
    4 * (s.spurious + Work(s.workers) + |c.toMount| - Settled(c, s)) + Phase(s.mounter)
  }

  lemma EveryStepIsProgress(c: Config, s: State, s': State)
    requires Inv(c, s) && Next(c, s, s')
    ensures Rank(c, s') < Rank(c, s)
  {
    if MounterStep(c, s, s') {
      MounterIsProgress(c, s, s');
    } else if !SpuriousWakeup(s, s') {
      var j: nat :| j < |c.toMount| && WorkerStep(c, s, s', j);
      WorkerIsProgress(c, s, s', j);
    }
  }

  lemma WorkerIsProgress(c: Config, s: State, s': State, j: nat)
    requires Shape(c, s) && j < |c.toMount| && WorkerStep(c, s, s', j)
    ensures Rank(c, s') < Rank(c, s)
  {
    WorkUpdate(s.workers, j, s'.workers[j]);
  }

  lemma MounterIsProgress(c: Config, s: State, s': State)
    requires Inv(c, s) && MounterStep(c, s, s')
    ensures Rank(c, s') < Rank(c, s)
  {
    if s.mounter.Preparing? && s.mounter.i < |c.toMount| {
      WorkUpdate(s.workers, s.mounter.i, Spawned);
    } else if s.mounter.Checking? {
      var i := s.mounter.i;
      assert WorkerOk(c, s, i);
      if s.status[i] == Failed {
        LeadingIs(c.grants, i);
      }
    }
  }

  lemma {:induction false} RankFalls(c: Config, run: seq<State>, i: nat)
    requires IsRun(c, run) && i < |run|
    ensures i + Rank(c, run[i]) <= Rank(c, run[0])
    decreases i
  {
    if i > 0 {
      RankFalls(c, run, i - 1);
      RunInv(c, run, i - 1);
      assert Next(c, run[i - 1], run[i - 1 + 1]);
      EveryStepIsProgress(c, run[i - 1], run[i]);
    }
  }

  lemma {:induction false} WorkAtStart(workers: seq<Worker>)
    requires forall i | 0 <= i < |workers| :: workers[i] == NotSpawned
    ensures Work(workers) == 6 * |workers|
    decreases |workers|
  {
    if workers != [] {
      WorkAtStart(workers[1..]);
    }
  }

  /** No interleaving goes on for ever: a run has no more states than this. */
  lemma RunsAreBounded(c: Config, run: seq<State>)
    requires IsRun(c, run)
    ensures |run| <= 4 * run[0].spurious + 28 * |c.toMount| + 5
  {
    var last := |run| - 1;
    RankFalls(c, run, last);
    RunInv(c, run, last);
    assert Rank(c, run[last]) >= 0;
    assert Init(c, run[0]);
    WorkAtStart(run[0].workers);
  }

  /** No wakeup is lost: until the mounter has returned, somebody can take a step that is
      not an idle wakeup. */
  lemma SomebodyCanMove(c: Config, s: State) returns (s': State)
    requires Inv(c, s) && !s.mounter.Returned?
    ensures Next(c, s, s') && !SpuriousWakeup(s, s')
  {
    var i := s.mounter.i;
    if s.mounter.Preparing? {
      s' := if i < |c.toMount| then s.(mounter := Locking(i), workers := s.workers[i := Spawned])
      else s.(mounter := Returned(true));
      assert MounterStep(c, s, s');
      return;
    }
    assert WorkerOk(c, s, i);
    if s.mounter.Checking? {
      var released := s.(mutex := s.mutex[i := Free]);
      s' := match s.status[i]
      case Unknown => released.(mounter := Sleeping(i))
      case Mounted => released.(mounter := Preparing(i + 1))
      case Failed => released.(mounter := Returned(false));
      assert MounterStep(c, s, s');
    } else if !s.mounter.Sleeping? && s.mutex[i] == Free {
      s' := s.(mounter := Checking(i), mutex := s.mutex[i := ByMounter]);
      assert MounterStep(c, s, s');
    } else {
      s' := WorkerMove(c, s, i);
    }
  }

  lemma WorkerMove(c: Config, s: State, j: nat) returns (s': State)
    requires Inv(c, s) && j < |c.toMount| && s.workers[j] != NotSpawned && s.workers[j] != Told
    requires s.workers[j] == Spawned ==> s.mutex[j] == Free
    ensures WorkerStep(c, s, s', j) && !SpuriousWakeup(s, s')
  {
    s' := match s.workers[j]
    case Spawned => s.(workers := s.workers[j := Locked], mutex := s.mutex[j := ByWorker])
    case Locked =>
      if c.grants[j] then s.(workers := s.workers[j := Appended], mounts := s.mounts + [c.toMount[j]])
      else s.(workers := s.workers[j := Refused])
    case Appended => s.(workers := s.workers[j := StatusSet], status := s.status[j := Mounted])
    case Refused => s.(workers := s.workers[j := StatusSet], status := s.status[j := Failed])
    case StatusSet => s.(workers := s.workers[j := Unlocked], mutex := s.mutex[j := Free])
    case Unlocked =>
      s.(workers := s.workers[j := Told], mounter := if s.mounter == Sleeping(j) then Waking(j) else s.mounter);
  }
}
