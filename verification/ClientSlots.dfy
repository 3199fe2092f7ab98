/** The server's allocation of client slots: one parent that claims, forks, records and
    reaps, and any number of children that free their slot and exit, or are killed
    (`server_manage_client_connections` in src/spqr_server.c). Every write of one bit of the
    bitmask is taken as atomic. */
module ClientSlots {

  const INVALID_PID := -1
  const PORT := 6969

  /** A child process that has not been reaped. */
  datatype Child = Child(slot: nat, freed: bool, exited: bool)

  /** Where the parent stands in its loop body: before the claim, between `set_bit` and
      `fork`, or between `fork` and the entry in `child_pids`. */
  datatype Parent = Listening | Claimed(slot: nat) | Forked(slot: nat, pid: int)

  datatype Server = Server(busy: seq<bool>, childPids: seq<int>, children: map<int, Child>, parent: Parent)

  datatype Step =
    | Claim(slot: nat)
    | Fork(pid: int)
    | Record
    | Free(pid: int)
    | Exit(pid: int)
    | Kill(pid: int)
    | Reap(pid: int)

  function InitialServer(n: nat): Server {
    Server(seq(n, _ => false), seq(n, _ => INVALID_PID), map[], Listening)
  }

  /** The first entry of `child_pids` naming `pid`, or the table size. */
  function FirstNamed(pids: seq<int>, pid: int): (i: nat)
    ensures i <= |pids| && (i < |pids| ==> pids[i] == pid)
    ensures forall j :: 0 <= j < i ==> pids[j] != pid
  {
    if pids == [] || pids[0] == pid then 0 else 1 + FirstNamed(pids[1..], pid)
  }

  predicate Enabled(s: Server, step: Step) {
    match step
    case Claim(slot) => s.parent.Listening? && slot < |s.busy| && !s.busy[slot]
    case Fork(pid) => s.parent.Claimed? && 0 < pid && pid !in s.children
    case Record => s.parent.Forked? && s.parent.slot < |s.childPids|
    case Free(pid) =>
      pid in s.children && !s.children[pid].freed && !s.children[pid].exited && s.children[pid].slot < |s.busy|
    case Exit(pid) => pid in s.children && s.children[pid].freed && !s.children[pid].exited
    case Kill(pid) => pid in s.children && !s.children[pid].exited
    case Reap(pid) => s.parent.Listening? && pid in s.children && s.children[pid].exited && |s.busy| == |s.childPids|
  }

  function Apply(s: Server, step: Step): Server
    requires Enabled(s, step)
  {
    match step
    case Claim(slot) => s.(busy := s.busy[slot := true], parent := Claimed(slot))
    case Fork(pid) =>
      s.(children := s.children[pid := Child(s.parent.slot, false, false)], parent := Forked(s.parent.slot, pid))
    case Record => s.(childPids := s.childPids[s.parent.slot := s.parent.pid], parent := Listening)
    case Free(pid) =>
      s.(busy := s.busy[s.children[pid].slot := false],
         children := s.children[pid := s.children[pid].(freed := true)])
    case Exit(pid) => s.(children := s.children[pid := s.children[pid].(exited := true)])
    case Kill(pid) => s.(children := s.children[pid := s.children[pid].(exited := true)])
    case Reap(pid) =>
      var i := FirstNamed(s.childPids, pid);
      var s' := s.(children := s.children - {pid});
      if i < |s.childPids| then s'.(childPids := s.childPids[i := INVALID_PID], busy := s.busy[i := false]) else s'
  }

  predicate Path(s: Server, steps: seq<Step>, s': Server)
    decreases |steps|
  {
    if steps == [] then s == s' else Enabled(s, steps[0]) && Path(Apply(s, steps[0]), steps[1..], s')
  }

  // ---------------------------------------------------------------------
  // The invariant

  /** `pid` still owns its slot: it is unreaped and has not freed it. */
  predicate Owns(s: Server, pid: int, slot: nat) {
    pid in s.children && !s.children[pid].freed && s.children[pid].slot == slot
  }

  /** The parent knows `pid` as the child of `slot`, from the table or from its own variables. */
  predicate Known(s: Server, pid: int, slot: nat) {
    slot < |s.childPids| && (s.childPids[slot] == pid || s.parent == Forked(slot, pid))
  }

  ghost predicate Consistent(s: Server) {
    && |s.busy| == |s.childPids|
    && INVALID_PID !in s.children
    && (forall pid :: pid in s.children ==> s.children[pid].slot < |s.busy|)
    && (forall pid, slot: nat :: Owns(s, pid, slot) ==> slot < |s.busy| && s.busy[slot] && Known(s, pid, slot))
    && (forall p, q, slot :: Owns(s, p, slot) && Owns(s, q, slot) ==> p == q)
    && (forall slot: nat :: slot < |s.busy| && s.busy[slot] ==>
          s.parent == Claimed(slot) || exists pid :: Owns(s, pid, slot))
    && (forall slot: nat :: slot < |s.busy| && s.childPids[slot] != INVALID_PID ==>
          s.childPids[slot] in s.children && s.children[s.childPids[slot]].slot == slot)
    && (s.parent.Claimed? ==>
          s.parent.slot < |s.busy| && s.busy[s.parent.slot] && forall pid :: !Owns(s, pid, s.parent.slot))
    && (s.parent.Forked? ==>
          && s.parent.slot < |s.busy| && s.parent.pid in s.children && s.children[s.parent.pid].slot == s.parent.slot
          && forall pid :: Owns(s, pid, s.parent.slot) ==> pid == s.parent.pid)
  }

  lemma InitiallyConsistent(n: nat)
    ensures Consistent(InitialServer(n))
  {
  }

  lemma StepKeeps(s: Server, step: Step)
    requires Consistent(s) && Enabled(s, step)
    ensures Consistent(Apply(s, step))
  {
    match step {
      case Claim(slot) => AfterClaim(s, slot);
      case Fork(pid) => AfterFork(s, pid);
      case Record => AfterRecord(s);
      case Free(pid) => AfterFree(s, pid);
      case Exit(pid) => AfterExit(s, step, pid);
      case Kill(pid) => AfterExit(s, step, pid);
      case Reap(pid) => AfterReap(s, pid);
    }
  }

  lemma AfterClaim(s: Server, slot: nat)
    requires Consistent(s) && Enabled(s, Claim(slot))
    ensures Consistent(Apply(s, Claim(slot)))
  {
    var s' := Apply(s, Claim(slot));
    assert forall pid, x :: Owns(s', pid, x) <==> Owns(s, pid, x);
    assert forall pid, x :: Owns(s, pid, x) ==> Known(s, pid, x);
  }

  lemma AfterFork(s: Server, pid: int)
    requires Consistent(s) && Enabled(s, Fork(pid))
    ensures Consistent(Apply(s, Fork(pid)))
  {
    var s' := Apply(s, Fork(pid));
    assert forall p, x :: Owns(s', p, x) <==> Owns(s, p, x) || (p == pid && x == s.parent.slot);
    assert forall p, x :: Owns(s, p, x) ==> Known(s, p, x);
    assert Owns(s', pid, s.parent.slot);
  }

  lemma AfterRecord(s: Server)
    requires Consistent(s) && Enabled(s, Record)
    ensures Consistent(Apply(s, Record))
  {
    var s' := Apply(s, Record);
    assert forall p, x :: Owns(s', p, x) <==> Owns(s, p, x);
    assert forall p, x :: Owns(s, p, x) ==> Known(s, p, x);
  }

  lemma AfterFree(s: Server, pid: int)
    requires Consistent(s) && Enabled(s, Free(pid))
    ensures Consistent(Apply(s, Free(pid)))
  {
    var s' := Apply(s, Free(pid));
    assert Owns(s, pid, s.children[pid].slot);
    assert forall p, x :: Owns(s', p, x) <==> Owns(s, p, x) && p != pid;
    assert forall p, x :: Owns(s, p, x) ==> Known(s, p, x);
  }

  lemma AfterExit(s: Server, step: Step, pid: int)
    requires Consistent(s) && Enabled(s, step) && (step == Exit(pid) || step == Kill(pid))
    ensures Consistent(Apply(s, step))
  {
    var s' := Apply(s, step);
    assert forall p, x :: Owns(s', p, x) <==> Owns(s, p, x);
    assert forall p, x :: Owns(s, p, x) ==> Known(s, p, x);
  }

  /** Reaping a child clears its own entry only, and frees a slot only if that child still owns it. */
  lemma AfterReap(s: Server, pid: int)
    requires Consistent(s) && Enabled(s, Reap(pid))
    ensures Consistent(Apply(s, Reap(pid)))
    ensures forall p, slot: nat :: p != pid && Owns(s, p, slot) ==> Owns(Apply(s, Reap(pid)), p, slot)
  {
    var s' := Apply(s, Reap(pid));
    var i := FirstNamed(s.childPids, pid);
    assert forall p, x :: Owns(s', p, x) <==> Owns(s, p, x) && p != pid;
    assert forall p, x :: Owns(s, p, x) ==> Known(s, p, x);
  }

  lemma {:induction false} PathKeeps(s: Server, steps: seq<Step>, s': Server)
    requires Consistent(s) && Path(s, steps, s')
    ensures Consistent(s')
    decreases |steps|
  {
    if steps != [] {
      StepKeeps(s, steps[0]);
      hide Consistent, Apply, Enabled;
      PathKeeps(Apply(s, steps[0]), steps[1..], s');
    }
  }

  // ---------------------------------------------------------------------
  // What the server promises

  predicate Running(s: Server, pid: int) {
    pid in s.children && !s.children[pid].freed && !s.children[pid].exited
  }

  function PortOf(s: Server, pid: int): int
    requires pid in s.children
  {
    PORT + s.children[pid].slot
  }

  /** Over all interleavings: running children have distinct slots and ports, each port is one
      of the `n` that belong to the slots, each child has its bit set and is named by the parent;
      and every busy slot belongs to a child not yet reaped, or to one the parent is about to
      fork, so that no slot leaks. */
  lemma SlotsAreSound(n: nat, steps: seq<Step>, s: Server)
    requires Path(InitialServer(n), steps, s)
    ensures forall p, q :: Running(s, p) && Running(s, q) && p != q ==> PortOf(s, p) != PortOf(s, q)
    ensures forall p :: Running(s, p) ==> PORT <= PortOf(s, p) < PORT + n
    ensures forall p :: Running(s, p) ==>
              s.children[p].slot < |s.busy| && s.busy[s.children[p].slot] && Known(s, p, s.children[p].slot)
    ensures forall slot: nat :: slot < |s.busy| && s.busy[slot] ==>
              s.parent == Claimed(slot) || exists p :: Owns(s, p, slot)
    ensures s.parent.Listening? && s.children == map[] ==> forall slot: nat :: slot < |s.busy| ==> !s.busy[slot]
  {
    InitiallyConsistent(n);
    PathKeeps(InitialServer(n), steps, s);
    SizeKept(InitialServer(n), steps, s);
    assert forall p :: Running(s, p) ==> Owns(s, p, s.children[p].slot);
  }

  lemma {:induction false} SizeKept(s: Server, steps: seq<Step>, s': Server)
    requires Path(s, steps, s')
    ensures |s'.busy| == |s.busy|
    decreases |steps|
  {
    if steps != [] {
      SizeKept(Apply(s, steps[0]), steps[1..], s');
    }
  }

  /** Reaping an old child never frees a slot that a newer one has taken over. */
  lemma ReapSparesReusedSlots(n: nat, steps: seq<Step>, s: Server, pid: int, newer: int)
    requires Path(InitialServer(n), steps, s) && Enabled(s, Reap(pid))
    requires Running(s, newer) && pid != newer
    ensures var s' := Apply(s, Reap(pid));
      && Running(s', newer) && s'.children[newer].slot == s.children[newer].slot < |s'.busy|
      && s'.busy[s.children[newer].slot] && Known(s', newer, s.children[newer].slot)
  {
    InitiallyConsistent(n);
    PathKeeps(InitialServer(n), steps, s);
    AfterReap(s, pid);
    assert Owns(s, newer, s.children[newer].slot);
    assert Owns(Apply(s, Reap(pid)), newer, s.children[newer].slot);
  }

  /** What reaping does, in every reachable state: the child is no longer listed and no entry
      names it, its slot is free if it still owned it, and every other slot is left alone. */
  lemma ReapClears(n: nat, steps: seq<Step>, s: Server, pid: int)
    requires Path(InitialServer(n), steps, s) && Enabled(s, Reap(pid))
    ensures var s' := Apply(s, Reap(pid));
      && s'.children == s.children - {pid} && s'.parent == s.parent
      && |s'.busy| == |s.busy| == |s'.childPids| == |s.childPids|
      && (forall j :: 0 <= j < |s.busy| ==> s'.busy[j] == (s.busy[j] && !Owns(s, pid, j)))
      && (forall j :: 0 <= j < |s.busy| ==>
            s'.childPids[j] == if s.childPids[j] == pid then INVALID_PID else s.childPids[j])
  {
    InitiallyConsistent(n);
    PathKeeps(InitialServer(n), steps, s);
    var slot := s.children[pid].slot;
    assert forall j :: 0 <= j < |s.busy| && s.childPids[j] == pid ==> j == slot;
    assert forall p, x :: Owns(s, p, x) ==> Known(s, p, x);
  }

  lemma {:induction false} OwnershipLasts(s: Server, pid: int, slot: nat, steps: seq<Step>, s': Server)
    requires Consistent(s) && Owns(s, pid, slot) && Path(s, steps, s')
    requires Free(pid) !in steps && Reap(pid) !in steps
    ensures Owns(s', pid, slot) && slot < |s'.busy| && s'.busy[slot] && Known(s', pid, slot)
    decreases |steps|
  {
    if steps != [] {
      StepKeeps(s, steps[0]);
      assert Owns(Apply(s, steps[0]), pid, slot);
      hide Apply, Enabled, Consistent, Owns;
      OwnershipLasts(Apply(s, steps[0]), pid, slot, steps[1..], s');
    }
  }

  /** A running child keeps its slot, its bit and its entry until it frees the slot or is reaped,
      even if it is killed, whatever the others do. */
  lemma KeepsSlotUntilFreed(n: nat, before: seq<Step>, s: Server, pid: int, steps: seq<Step>, s': Server)
    requires Path(InitialServer(n), before, s) && Running(s, pid) && Path(s, steps, s')
    requires Free(pid) !in steps && Reap(pid) !in steps
    ensures Owns(s', pid, s.children[pid].slot) && Known(s', pid, s.children[pid].slot)
    ensures s.children[pid].slot < |s'.busy| && s'.busy[s.children[pid].slot]
  {
    InitiallyConsistent(n);
    PathKeeps(InitialServer(n), before, s);
    OwnershipLasts(s, pid, s.children[pid].slot, steps, s');
  }

  // ---------------------------------------------------------------------
  // Every slot comes back

  /** No child left, and every slot free. */
  predicate AllFree(s: Server) {
    s.parent.Listening? && s.children == map[] && forall j :: 0 <= j < |s.busy| ==> !s.busy[j]
  }

  /** How a continuation may get rid of the children: by letting each free its slot and exit,
      or by killing it. */
  predicate Clearing(graceful: bool, step: Step) {
    !step.Claim? && (if graceful then !step.Kill? else !step.Free? && !step.Exit?)
  }

  /** The number of steps that child still needs. */
  function StepsLeft(c: Child): nat {
    if c.exited then 1 else if c.freed then 2 else 3
  }

  lemma {:induction false} FreshPid(pids: set<int>) returns (pid: int)
    ensures 0 < pid && forall p :: p in pids ==> p < pid
    decreases |pids|
  {
    if p :| p in pids {
      var q := FreshPid(pids - {p});
      pid := if q <= p then p + 1 else q;
      assert forall x :: x in pids ==> x == p || x in pids - {p};
    } else {
      pid := 1;
    }
  }

  lemma Prepend(s: Server, step: Step, steps: seq<Step>, s': Server)
    requires Enabled(s, step) && Path(Apply(s, step), steps, s')
    ensures Path(s, [step] + steps, s')
  {
    hide Enabled, Apply;
    assert ([step] + steps)[0] == step && ([step] + steps)[1..] == steps;
  }

  /** The next step that gets rid of a child. */
  function NextStep(graceful: bool, c: Child, pid: int): Step {
    if c.exited then Reap(pid) else if !graceful then Kill(pid) else if c.freed then Exit(pid) else Free(pid)
  }

  lemma {:induction false} ClearChild(graceful: bool, s: Server, pid: int) returns (steps: seq<Step>, s': Server)
    requires Consistent(s) && s.parent.Listening? && pid in s.children
    ensures Path(s, steps, s') && Consistent(s') && forall x :: x in steps ==> Clearing(graceful, x)
    ensures s'.parent.Listening? && s'.children == s.children - {pid}
    decreases StepsLeft(s.children[pid])
  {
    var step := NextStep(graceful, s.children[pid], pid);
    StepKeeps(s, step);
    var s1 := Apply(s, step);
    var rest;
    if step.Reap? {
      rest, s' := [], s1;
    } else {
      rest, s' := ClearChild(graceful, s1, pid);
    }
    hide Consistent;
    steps := [step] + rest;
    Prepend(s, step, rest, s');
  }

  lemma {:induction false} ClearChildren(graceful: bool, s: Server) returns (steps: seq<Step>, s': Server)
    requires Consistent(s) && s.parent.Listening?
    ensures Path(s, steps, s') && AllFree(s') && forall x :: x in steps ==> Clearing(graceful, x)
    decreases |s.children|
  {
    if forall pid :: pid !in s.children {
      steps, s' := [], s;
      assert s.children == map[];
      assert forall p, x :: !Owns(s, p, x);
    } else {
      hide Consistent, AllFree, Apply, Enabled;
      var pid :| pid in s.children;
      var first, m := ClearChild(graceful, s, pid);
      assert |m.children| < |s.children| by {
        assert m.children.Keys == s.children.Keys - {pid};
      }
      var rest;
      rest, s' := ClearChildren(graceful, m);
      steps := first + rest;
      PathConcat(s, first, m, rest, s');
    }
  }

  lemma {:induction false} PathConcat(s: Server, p: seq<Step>, m: Server, q: seq<Step>, s': Server)
    requires Path(s, p, m) && Path(m, q, s')
    ensures Path(s, p + q, s')
    decreases |p|
  {
    hide Apply, Enabled;
    if p == [] {
      assert p + q == q;
    } else {
      PathConcat(Apply(s, p[0]), p[1..], m, q, s');
      assert (p + q)[0] == p[0] && (p + q)[1..] == p[1..] + q;
    }
  }

  lemma FinishForking(graceful: bool, s: Server) returns (steps: seq<Step>, s': Server)
    requires Consistent(s)
    ensures Path(s, steps, s') && Consistent(s') && forall x :: x in steps ==> Clearing(graceful, x)
    ensures s'.parent.Listening?
  {
    steps, s' := [], s;
    var forked := s;
    if s.parent.Claimed? {
      var pid := FreshPid(s.children.Keys);
      StepKeeps(s, Fork(pid));
      forked := Apply(s, Fork(pid));
      steps := [Fork(pid)];
      Prepend(s, Fork(pid), [], forked);
    }
    if !s.parent.Listening? {
      StepKeeps(forked, Record);
      s' := Apply(forked, Record);
      Prepend(forked, Record, [], s');
      assert [Record] + [] == [Record];
      PathConcat(s, steps, forked, [Record], s');
      steps := steps + [Record];
    }
  }

  /** No slot is lost for good: from every reachable state, without any new client, there is a
      continuation that ends with no children and all slots free; one in which every child
      frees its slot and exits, and one in which every child is killed. */
  lemma EverySlotComesBack(n: nat, graceful: bool, before: seq<Step>, s: Server) returns (steps: seq<Step>, s': Server)
    requires Path(InitialServer(n), before, s)
    ensures Path(s, steps, s') && AllFree(s') && forall x :: x in steps ==> Clearing(graceful, x)
  {
    InitiallyConsistent(n);
    PathKeeps(InitialServer(n), before, s);
    hide Consistent, AllFree, Path, Clearing;
    var first, m := FinishForking(graceful, s);
    var second;
    second, s' := ClearChildren(graceful, m);
    PathConcat(s, first, m, second, s');
    steps := first + second;
  }
}
