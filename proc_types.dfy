/**
 * The records of the process table and the predicates that specify the
 * scheduler's choices. Everything here is about values: the table itself,
 * and the methods that update it in place, are in module ProcTable.
 */
module ProcTypes {
  import opened Wrappers

  /** The scheduling state of one slot of the process table. */
  datatype ProcState = Unused | Embryo | Sleeping | Runnable | Running | Zombie

  /**
   * The opaque address a process sleeps on. The kernel uses the address of a
   * process slot as a channel (`wait` sleeps on the caller's own slot, `exit`
   * wakes the parent's slot); NoChan is the null pointer and OtherChan any
   * other kernel address. Distinct constructors are distinct addresses.
   */
  datatype Chan = NoChan | SlotChan(slot: nat) | OtherChan(addr: int)

  /**
   * One process record. `parent` is a slot index (None is the null pointer);
   * `runAlready` and `killed` are the C flags, which only ever hold 0 or 1.
   * `sz` is the address-space size, kept only because fork copies it and
   * getProcInfo reports it.
   */
  datatype Proc = Proc(
    state: ProcState,
    pid: int,
    parent: Option<nat>,
    sz: int,
    burstTime: int,
    runAlready: bool,
    runningTime: int,
    numOfSwitches: int,
    killed: bool,
    chan: Chan)

  /** A zero-filled slot, as the statically allocated table starts. */
  const FreeSlot := Proc(Unused, 0, None, 0, 0, false, 0, 0, false, NoChan)

  /** The values returned by getProcInfo through its out-pointer. */
  datatype ProcInfo = ProcInfo(ppid: int, psize: int, numberContextSwitches: int)

  /** The three selection policies the scheduler can be built with. */
  datatype Policy = Fcfs | Sjf | Hbsjf

  /** What one pass of wait's loop does: reap a child, fail with -1, or sleep. */
  datatype WaitOutcome = Reaped(pid: int) | Failed | Sleeps

  predicate Active(p: Proc) {
    p.state != Unused
  }

  /** The channel a slot pointer stands for when passed to wakeup1. */
  function ChanOf(slot: Option<nat>): Chan {
    if slot.Some? then SlotChan(slot.value) else NoChan
  }

  /** One slot after wakeup1(c). */
  function Woken(p: Proc, c: Chan): Proc {
    if p.state == Sleeping && p.chan == c then p.(state := Runnable) else p
  }

  /** One slot after exit's reparenting loop has passed over it. */
  function Reparented(p: Proc, from: nat, to: Option<nat>): Proc {
    if p.parent == Some(from) then p.(parent := to) else p
  }

  /**
   * The slot allocproc takes, once it has been given `pid`: EMBRYO when the
   * kernel stack could be allocated, back to UNUSED (with the pid consumed)
   * when it could not.
   */
  function Allocated(p: Proc, pid: int, kallocOk: bool): Proc {
    p.(state := if kallocOk then Embryo else Unused, pid := pid,
       numOfSwitches := 0, burstTime := 0, runAlready := false, runningTime := 0)
  }

  /** The slot the scheduler has just handed the CPU to. */
  function Dispatched(p: Proc): Proc {
    p.(numOfSwitches := p.numOfSwitches + 1, state := Running, runAlready := true)
  }

  /** A reaped slot: wait clears pid, parent and killed and frees it. */
  function Freed(p: Proc): Proc {
    p.(pid := 0, parent := None, killed := false, state := Unused)
  }

  /** The table after the hybrid policy starts a new round. */
  function RoundReset(t: seq<Proc>): seq<Proc> {
    seq(|t|, i requires 0 <= i < |t| => t[i].(runAlready := false))
  }

  // ---------------------------------------------------------------------
  // Specifications of the scheduler's scans

  /** `p` is where the scheduler's outer scan, resumed at `start`, stops. */
  ghost predicate FirstRunnableFrom(t: seq<Proc>, start: int, p: int) {
    0 <= start <= p < |t| && t[p].state == Runnable &&
    forall j :: start <= j < p ==> t[j].state != Runnable
  }

  /** No RUNNABLE slot lies at or after `start`: the scan ends. */
  ghost predicate NoRunnableFrom(t: seq<Proc>, start: nat) {
    forall j :: start <= j < |t| ==> t[j].state != Runnable
  }

  /**
   * `c` is a RUNNABLE slot of minimum burst time; when the initial candidate
   * `p` already has the minimum, `c` is `p`; otherwise `c` is the earliest
   * slot of minimum burst time (the comparison is strict).
   */
  ghost predicate ShortestChoice(t: seq<Proc>, p: int, c: int) {
    0 <= p < |t| && 0 <= c < |t| && t[c].state == Runnable &&
    (forall j :: 0 <= j < |t| && t[j].state == Runnable ==> t[c].burstTime <= t[j].burstTime) &&
    (t[c].burstTime == t[p].burstTime ==> c == p) &&
    (c != p ==> forall j :: 0 <= j < c && t[j].state == Runnable ==> t[c].burstTime < t[j].burstTime)
  }

  /** A RUNNABLE slot that has not yet run in the current hybrid round. */
  predicate Unrun(p: Proc) {
    p.state == Runnable && !p.runAlready
  }

  /** `c` is the earliest not-yet-run RUNNABLE slot of minimum burst time. */
  ghost predicate UnrunChoice(t: seq<Proc>, c: int) {
    0 <= c < |t| && Unrun(t[c]) &&
    (forall j :: 0 <= j < |t| && Unrun(t[j]) ==> t[c].burstTime <= t[j].burstTime) &&
    (forall j :: 0 <= j < c && Unrun(t[j]) ==> t[c].burstTime < t[j].burstTime)
  }

  /** One slot after kill(pid) has found it: flagged, and woken if asleep. */
  function Killed(p: Proc): Proc {
    p.(killed := true, state := if p.state == Sleeping then Runnable else p.state)
  }

  /** A slot in use that carries `pid`: the only kind of slot kill should mark. */
  predicate LiveWithPid(p: Proc, pid: int) {
    Active(p) && p.pid == pid
  }

  /** What getProcInfo reports about slot `i` (the root, pid 1, has parent pid 0). */
  function InfoOf(t: seq<Proc>, i: nat): ProcInfo
    requires i < |t|
    requires t[i].pid != 1 ==> t[i].parent.Some? && t[i].parent.value < |t|
  {
    ProcInfo(if t[i].pid == 1 then 0 else t[t[i].parent.value].pid, t[i].sz, t[i].numOfSwitches)
  }

  // ---------------------------------------------------------------------
  // Searches the lifecycle operations make

  /** `i` is the first UNUSED slot: the one allocproc takes. */
  ghost predicate FirstUnused(t: seq<Proc>, i: int) {
    0 <= i < |t| && t[i].state == Unused && forall j :: 0 <= j < i ==> t[j].state != Unused
  }

  /** The table is full: allocproc fails. */
  ghost predicate NoUnused(t: seq<Proc>) {
    forall j :: 0 <= j < |t| ==> t[j].state != Unused
  }

  /** `i` is the first slot carrying `pid`, whatever its state: the one kill marks. */
  ghost predicate FirstWithPid(t: seq<Proc>, pid: int, i: int) {
    0 <= i < |t| && t[i].pid == pid && forall j :: 0 <= j < i ==> t[j].pid != pid
  }

  predicate ZombieChild(p: Proc, caller: nat) {
    p.parent == Some(caller) && p.state == Zombie
  }

  /** Some slot names `caller` as its parent. */
  ghost predicate HasChild(t: seq<Proc>, caller: nat) {
    exists j :: 0 <= j < |t| && t[j].parent == Some(caller)
  }

  ghost predicate HasZombieChild(t: seq<Proc>, caller: nat) {
    exists j :: 0 <= j < |t| && ZombieChild(t[j], caller)
  }

  /** `z` is the first ZOMBIE child of `caller`: the one wait reaps. */
  ghost predicate FirstZombieChild(t: seq<Proc>, caller: nat, z: int) {
    0 <= z < |t| && ZombieChild(t[z], caller) && forall j :: 0 <= j < z ==> !ZombieChild(t[j], caller)
  }

  /** Some RUNNABLE slot has not run in the current hybrid round. */
  ghost predicate HasUnrun(t: seq<Proc>) {
    exists j :: 0 <= j < |t| && Unrun(t[j])
  }

  /**
   * Slot `i` of table `t` once `caller` has exited while init lives in slot
   * `init`: sleepers on the caller's parent are woken, and so are sleepers on
   * init when one of the caller's children is already a zombie; the caller's
   * children are handed to init; the caller itself is a zombie.
   */
  ghost function AfterExit(t: seq<Proc>, i: nat, caller: nat, init: Option<nat>): Proc
    requires i < |t| && caller < |t|
  {
    var r := Handed(Woken(t[i], ChanOf(t[caller].parent)), caller, init, HasZombieChild(t, caller));
    if i == caller then r.(state := Zombie) else r
  }

  /**
   * A slot once exit's reparenting scan has passed it: woken on init's
   * channel if the scan met a zombie child (`wakeInit`), and handed to init
   * if it was a child of the caller.
   */
  function Handed(p: Proc, caller: nat, init: Option<nat>, wakeInit: bool): Proc {
    Reparented(if wakeInit then Woken(p, ChanOf(init)) else p, caller, init)
  }

  /** exit gives no slot a new pid or in-use status, and hands children only to a slot of the table. */
  lemma AfterExitIdentity(t: seq<Proc>, i: nat, caller: nat, init: Option<nat>)
    requires i < |t| && caller < |t| && Active(t[caller])
    requires t[i].parent.Some? ==> t[i].parent.value < |t|
    requires init.Some? ==> init.value < |t|
    ensures AfterExit(t, i, caller, init).pid == t[i].pid
    ensures Active(AfterExit(t, i, caller, init)) == Active(t[i])
    ensures AfterExit(t, i, caller, init).parent.Some? ==> AfterExit(t, i, caller, init).parent.value < |t|
  {
  }

  /** Waking init's sleepers a second time changes nothing more. */
  lemma WakeInitAgain(p: Proc, caller: nat, init: Option<nat>, woken: bool)
    ensures Woken(Handed(p, caller, init, woken), ChanOf(init)) == Handed(p, caller, init, true)
    ensures Woken(if woken then Woken(p, ChanOf(init)) else p, ChanOf(init)) == Woken(p, ChanOf(init))
  {
  }

  // ---------------------------------------------------------------------
  // The well-formedness every operation keeps

  /**
   * pids lie below the next pid to hand out, a slot in use has a positive
   * pid, and parent links point into the table.
   */
  predicate SlotOk(p: Proc, size: nat, nextpid: int) {
    0 <= p.pid < nextpid && (Active(p) ==> p.pid >= 1) &&
    (p.parent.Some? ==> p.parent.value < size)
  }

  /** Every slot is well formed and no two slots in use share a pid. */
  ghost predicate TableOk(t: seq<Proc>, nextpid: int) {
    && (forall i :: 0 <= i < |t| ==> SlotOk(t[i], |t|, nextpid))
    && (forall i, j ::
          (0 <= i < |t| && 0 <= j < |t| && i != j && Active(t[i]) && Active(t[j]))
          ==> t[i].pid != t[j].pid)
  }

  /** Rewriting a slot without giving a new identity to a slot in use keeps the table well formed. */
  lemma TableOkUpdate(t: seq<Proc>, nextpid: int, p: nat, x: Proc)
    requires TableOk(t, nextpid) && p < |t| && SlotOk(x, |t|, nextpid)
    requires Active(x) ==> Active(t[p]) && x.pid == t[p].pid
    ensures TableOk(t[p := x], nextpid)
  {
  }

  /** Giving a slot the next pid keeps the table well formed under the incremented counter. */
  lemma TableOkFreshPid(t: seq<Proc>, nextpid: int, p: nat, x: Proc)
    requires TableOk(t, nextpid) && p < |t| && x.pid == nextpid && SlotOk(x, |t|, nextpid + 1)
    ensures TableOk(t[p := x], nextpid + 1)
  {
  }

  /** A table whose slots keep their pids and in-use status stays well formed. */
  lemma TableOkSameIdentities(t: seq<Proc>, u: seq<Proc>, nextpid: int)
    requires TableOk(t, nextpid) && |u| == |t|
    requires forall i :: 0 <= i < |t| ==> u[i].pid == t[i].pid && Active(u[i]) == Active(t[i])
    requires forall i :: 0 <= i < |t| ==> u[i].parent.Some? ==> u[i].parent.value < |t|
    ensures TableOk(u, nextpid)
  {
  }
}
