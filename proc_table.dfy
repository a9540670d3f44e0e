/**
 * The process table of G40_os/G40/proc.c: a fixed array of process records
 * plus the globals nextpid, TimeQuanta and initproc, and the `proc` field of
 * the (single) CPU descriptor. Each method runs atomically; where the
 * kernel splits an operation into several locked sections and writes made
 * without the lock, the method merges those steps into one. The process on
 * whose behalf an operation runs (the kernel's myproc()) is passed in as the
 * slot index `caller`.
 */
module ProcTable {
  import opened Wrappers
  import opened ProcTypes
  import opened TableFacts

  class ProcessTable {
    /** ptable.proc: NPROC records, updated in place. */
    var slots: array<Proc>
    /** The next pid to hand out; it only ever grows. */
    var nextpid: int
    /** The preemption quantum checkTime compares against. */
    var timeQuanta: int
    /** The slot of the first user process, once userinit has made it. */
    var initproc: Option<nat>
    /** The process this CPU is running, if any. */
    var cpuProc: Option<nat>

    /**
     * The table invariant: the quantum is positive, every slot is well
     * formed, and no two slots in use share a pid.
     */
    ghost predicate Valid()
      reads this, slots
    {
      && nextpid >= 1
      && timeQuanta >= 1
      && (initproc.Some? ==> initproc.value < slots.Length)
      && (cpuProc.Some? ==> cpuProc.value < slots.Length)
      && TableOk(slots[..], nextpid)
    }

    /** `caller` is the process running on this CPU. */
    ghost predicate IsCurrent(caller: nat)
      reads this, slots
    {
      caller < slots.Length && slots[caller].state == Running
    }

    /** The boot-time table: `size` zero-filled slots, nextpid 1, quantum 2000. */
    constructor (size: nat)
      ensures Valid() && fresh(slots) && slots.Length == size
      ensures forall i :: 0 <= i < size ==> slots[i] == FreeSlot
      ensures nextpid == 1 && timeQuanta == 2000 && initproc == None && cpuProc == None
    {
      slots := new Proc[size](_ => FreeSlot);
      nextpid := 1;
      timeQuanta := 2000;
      initproc := None;
      cpuProc := None;
    }

    // -------------------------------------------------------------------
    // Allocation and the lifecycle

    /** allocproc's search for a free slot. */
    method FindUnused() returns (found: Option<nat>)
      ensures found.None? ==> NoUnused(slots[..])
      ensures found.Some? ==> FirstUnused(slots[..], found.value)
    {
      var i := 0;
      while i < slots.Length
        invariant 0 <= i <= slots.Length
        invariant forall j :: 0 <= j < i ==> slots[j].state != Unused
      {
        if slots[i].state == Unused {
          return Some(i);
        }
        i := i + 1;
      }
      return None;
    }

    /**
     * allocproc: take the first UNUSED slot, give it the next pid and clear
     * its counters. When the kernel stack cannot be allocated (`kallocOk`
     * false) the slot goes back to UNUSED but the pid stays consumed.
     * `taken` names the slot that was written, if any.
     */
    method AllocProc(kallocOk: bool) returns (slot: Option<nat>, ghost taken: Option<nat>)
      requires Valid()
      modifies this, slots
      ensures Valid() && slots == old(slots)
      ensures timeQuanta == old(timeQuanta) && initproc == old(initproc) && cpuProc == old(cpuProc)
      ensures taken.None? <==> NoUnused(old(slots[..]))
      ensures taken.None? ==> slot == None && nextpid == old(nextpid) && slots[..] == old(slots[..])
      ensures taken.Some? ==>
        && FirstUnused(old(slots[..]), taken.value)
        && nextpid == old(nextpid) + 1
        && slots[..] == old(slots[..])[taken.value := Allocated(old(slots[taken.value]), old(nextpid), kallocOk)]
        && slot == (if kallocOk then taken else None)
      ensures ActiveCount(slots[..]) == ActiveCount(old(slots[..])) + (if slot.Some? then 1 else 0)
      ensures slot.Some? ==> MaxActivePid(slots[..]) == old(nextpid)
    {
      var found := FindUnused();
      taken := found;
      if found.None? {
        return None, taken;
      }
      slot := TakeSlot(found.value, kallocOk);
    }

    /** allocproc once it has found the free slot `p`. */
    method TakeSlot(p: nat, kallocOk: bool) returns (slot: Option<nat>)
      requires Valid() && p < slots.Length && slots[p].state == Unused
      modifies this, slots
      ensures Valid() && slots == old(slots)
      ensures timeQuanta == old(timeQuanta) && initproc == old(initproc) && cpuProc == old(cpuProc)
      ensures nextpid == old(nextpid) + 1
      ensures slots[..] == old(slots[..])[p := Allocated(old(slots[p]), old(nextpid), kallocOk)]
      ensures slot == (if kallocOk then Some(p) else None)
      ensures ActiveCount(slots[..]) == ActiveCount(old(slots[..])) + (if kallocOk then 1 else 0)
      ensures kallocOk ==> MaxActivePid(slots[..]) == old(nextpid)
    {
      ghost var t := slots[..];
      ghost var x := Allocated(t[p], nextpid, kallocOk);
      slots[p] := slots[p].(state := Embryo, pid := nextpid, numOfSwitches := 0,
                            burstTime := 0, runAlready := false, runningTime := 0);
      nextpid := nextpid + 1;
      slot := Some(p);
      if !kallocOk {
        slots[p] := slots[p].(state := Unused);
        slot := None;
      }
      assert slots[..] == t[p := x];
      assert forall j :: 0 <= j < |t| ==> t[j].pid < x.pid;
      TableOkFreshPid(t, x.pid, p, x);
      ActiveCountUpdate(t, p, x);
      if kallocOk {
        NewestIsMax(t, p, x);
      }
    }

    /**
     * The table effect of userinit: allocate the first process, record it as
     * init and make it RUNNABLE. If allocation fails the kernel dereferences
     * a null pointer; the model reports that as `panics`.
     */
    method UserInit(kallocOk: bool) returns (panics: bool, ghost taken: Option<nat>)
      requires Valid()
      modifies this, slots
      ensures Valid() && slots == old(slots)
      ensures timeQuanta == old(timeQuanta) && cpuProc == old(cpuProc)
      ensures panics <==> taken.None? || !kallocOk
      ensures taken.None? ==> NoUnused(old(slots[..])) && slots[..] == old(slots[..]) && nextpid == old(nextpid)
      ensures taken.Some? ==> FirstUnused(old(slots[..]), taken.value) && nextpid == old(nextpid) + 1
      ensures taken.Some? && !kallocOk ==>
        slots[..] == old(slots[..])[taken.value := Allocated(old(slots[taken.value]), old(nextpid), false)]
      ensures !panics ==>
        && initproc == taken
        && slots[..] == old(slots[..])[taken.value := Allocated(old(slots[taken.value]), old(nextpid), true).(state := Runnable)]
    {
      var p;
      p, taken := AllocProc(kallocOk);
      if p.None? {
        return true, taken;
      }
      ghost var u := slots[..];
      initproc := p;
      slots[p.value] := slots[p.value].(state := Runnable);
      assert slots[..] == u[p.value := u[p.value].(state := Runnable)];
      TableOkUpdate(u, nextpid, p.value, slots[p.value]);
      panics := false;
    }

    /**
     * The table effects of fork: allocate a child, copy the caller's size
     * into it, make the caller its parent and the child RUNNABLE, and return
     * the child's pid. `kallocOk` and `copyOk` are the outcomes of the kernel
     * stack allocation and of copying the address space; when either fails
     * the result is -1 and the child slot is UNUSED again.
     */
    method Fork(caller: nat, kallocOk: bool, copyOk: bool) returns (pid: int, ghost taken: Option<nat>)
      requires Valid() && IsCurrent(caller)
      modifies this, slots
      ensures Valid() && slots == old(slots)
      ensures timeQuanta == old(timeQuanta) && initproc == old(initproc) && cpuProc == old(cpuProc)
      ensures taken.None? <==> NoUnused(old(slots[..]))
      ensures taken.None? ==> pid == -1 && nextpid == old(nextpid) && slots[..] == old(slots[..])
      ensures taken.Some? ==> FirstUnused(old(slots[..]), taken.value) && nextpid == old(nextpid) + 1
      ensures taken.Some? && !(kallocOk && copyOk) ==>
        pid == -1 &&
        slots[..] == old(slots[..])[taken.value := Allocated(old(slots[taken.value]), old(nextpid), false)]
      ensures taken.Some? && kallocOk && copyOk ==>
        && pid == old(nextpid) && pid >= 1
        && slots[..] == old(slots[..])[taken.value :=
             Allocated(old(slots[taken.value]), old(nextpid), true)
               .(sz := old(slots[caller].sz), parent := Some(caller), state := Runnable)]
      ensures ActiveCount(slots[..]) == ActiveCount(old(slots[..])) + (if pid >= 1 then 1 else 0)
    {
      ghost var t := slots[..];
      var np;
      np, taken := AllocProc(kallocOk);
      if np.None? {
        return -1, taken;
      }
      var c := np.value;
      ghost var u := slots[..];
      assert u == t[c := u[c]];
      if !copyOk {
        slots[c] := slots[c].(state := Unused);
        assert slots[..] == u[c := slots[c]] == t[c := slots[c]];
        TableOkUpdate(u, nextpid, c, slots[c]);
        ActiveCountUpdate(t, c, slots[c]);
        return -1, taken;
      }
      slots[c] := slots[c].(sz := slots[caller].sz, parent := Some(caller));
      pid := slots[c].pid;
      slots[c] := slots[c].(state := Runnable);
      assert slots[..] == u[c := slots[c]] == t[c := slots[c]];
      TableOkUpdate(u, nextpid, c, slots[c]);
      ActiveCountUpdate(t, c, slots[c]);
    }

    /**
     * exit's table effects: exiting init is a kernel panic; otherwise the
     * caller's parent is woken, every child of the caller is handed to init
     * (init being woken when such a child is already a zombie), and the
     * caller becomes a ZOMBIE. Control never comes back to the caller.
     */
    method Exit(caller: nat) returns (panics: bool)
      requires Valid() && IsCurrent(caller)
      modifies slots
      ensures Valid()
      ensures panics <==> initproc == Some(caller)
      ensures panics ==> slots[..] == old(slots[..])
      ensures !panics ==> forall i :: 0 <= i < slots.Length ==> slots[i] == AfterExit(old(slots[..]), i, caller, initproc)
      ensures !panics ==> slots[caller].state == Zombie
      ensures !panics ==> forall i :: 0 <= i < slots.Length ==> slots[i].parent != Some(caller)
    {
      if initproc == Some(caller) {
        return true;
      }
      ghost var t := slots[..];
      Wakeup(ChanOf(slots[caller].parent));
      ghost var woken := slots[..];
      ghost var zombieSeen := PassToInit(caller);
      assert HasZombieChild(woken, caller) == HasZombieChild(t, caller) by {
        assert forall j :: 0 <= j < |t| ==> (ZombieChild(woken[j], caller) <==> ZombieChild(t[j], caller));
      }
      slots[caller] := slots[caller].(state := Zombie);
      forall i | 0 <= i < slots.Length
        ensures slots[i] == AfterExit(t, i, caller, initproc)
      {
        assert woken[i] == Woken(t[i], ChanOf(t[caller].parent));
      }
      forall i | 0 <= i < slots.Length
        ensures slots[..][i].pid == t[i].pid && Active(slots[..][i]) == Active(t[i])
        ensures slots[..][i].parent.Some? ==> slots[..][i].parent.value < |t|
      {
        AfterExitIdentity(t, i, caller, initproc);
      }
      TableOkSameIdentities(t, slots[..], nextpid);
      panics := false;
    }

    /**
     * exit's reparenting scan: every child of `caller` is handed to init, and
     * on meeting a child that is already a zombie the scan wakes init.
     * `zombieSeen` tells whether it met one.
     */
    method PassToInit(caller: nat) returns (ghost zombieSeen: bool)
      modifies slots
      ensures zombieSeen == HasZombieChild(old(slots[..]), caller)
      ensures forall i :: 0 <= i < slots.Length ==> slots[i] == Handed(old(slots[i]), caller, initproc, zombieSeen)
    {
      ghost var t := slots[..];
      zombieSeen := false;
      var k := 0;
      while k < slots.Length
        invariant 0 <= k <= slots.Length
        invariant zombieSeen <==> exists j :: 0 <= j < k && ZombieChild(t[j], caller)
        invariant forall i :: 0 <= i < k ==> slots[i] == Handed(t[i], caller, initproc, zombieSeen)
        invariant forall i :: k <= i < slots.Length ==>
          slots[i] == if zombieSeen then Woken(t[i], ChanOf(initproc)) else t[i]
      {
        assert slots[k].parent == t[k].parent && (slots[k].state == Zombie <==> t[k].state == Zombie);
        assert (exists j :: 0 <= j < k + 1 && ZombieChild(t[j], caller)) <==>
          zombieSeen || ZombieChild(t[k], caller);
        if slots[k].parent == Some(caller) {
          slots[k] := slots[k].(parent := initproc);
          if slots[k].state == Zombie {
            Wakeup(ChanOf(initproc));
            forall i | 0 <= i < slots.Length
              ensures i <= k ==> slots[i] == Handed(t[i], caller, initproc, true)
              ensures k < i ==> slots[i] == Woken(t[i], ChanOf(initproc))
            {
              WakeInitAgain(t[i], caller, initproc, zombieSeen);
            }
            zombieSeen := true;
          }
        }
        k := k + 1;
      }
    }

    /** wait's search: whether the caller has children, and its first zombie child. */
    method FindZombieChild(caller: nat) returns (haveKids: bool, zombie: Option<nat>)
      ensures zombie.Some? ==> haveKids && FirstZombieChild(slots[..], caller, zombie.value)
      ensures zombie.None? ==> !HasZombieChild(slots[..], caller) && (haveKids <==> HasChild(slots[..], caller))
    {
      haveKids := false;
      var k := 0;
      while k < slots.Length
        invariant 0 <= k <= slots.Length
        invariant forall j :: 0 <= j < k ==> !ZombieChild(slots[j], caller)
        invariant haveKids <==> exists j :: 0 <= j < k && slots[j].parent == Some(caller)
      {
        if slots[k].parent == Some(caller) {
          haveKids := true;
          if slots[k].state == Zombie {
            return haveKids, Some(k);
          }
        }
        k := k + 1;
      }
      zombie := None;
    }

    /**
     * One pass of wait's loop: reap the first zombie child and return its
     * pid; fail if the caller has no children or has been killed; otherwise
     * go to sleep on the caller's own slot until a child exits.
     */
    method Wait(caller: nat) returns (r: WaitOutcome)
      requires Valid() && IsCurrent(caller)
      modifies slots
      ensures Valid()
      ensures r.Reaped? <==> HasZombieChild(old(slots[..]), caller)
      ensures r.Reaped? ==> exists z :: (
        && FirstZombieChild(old(slots[..]), caller, z)
        && r.pid == old(slots[z].pid) && r.pid >= 1
        && slots[..] == old(slots[..])[z := Freed(old(slots[z]))])
      ensures r.Failed? <==> (
        && !HasZombieChild(old(slots[..]), caller)
        && (!HasChild(old(slots[..]), caller) || old(slots[caller].killed)))
      ensures r.Failed? ==> slots[..] == old(slots[..])
      ensures r.Sleeps? ==>
        slots[..] == old(slots[..])[caller := old(slots[caller]).(chan := SlotChan(caller), state := Sleeping)]
      ensures ActiveCount(slots[..]) == ActiveCount(old(slots[..])) - (if r.Reaped? then 1 else 0)
    {
      ghost var t := slots[..];
      var haveKids, zombie := FindZombieChild(caller);
      if zombie.Some? {
        var z := zombie.value;
        var pid := slots[z].pid;
        slots[z] := slots[z].(pid := 0, parent := None, killed := false, state := Unused);
        assert slots[..] == t[z := slots[z]];
        TableOkUpdate(t, nextpid, z, slots[z]);
        ActiveCountUpdate(t, z, slots[z]);
        return Reaped(pid);
      }
      if !haveKids || slots[caller].killed {
        return Failed;
      }
      Sleep(caller, SlotChan(caller));
      ActiveCountUpdate(t, caller, slots[caller]);
      r := Sleeps;
    }

    // -------------------------------------------------------------------
    // Sleep, wakeup, yield, kill

    /** wakeup1: every slot asleep on `c` becomes RUNNABLE; nothing else changes. */
    method Wakeup(c: Chan)
      modifies slots
      ensures old(Valid()) ==> Valid()
      ensures forall i :: 0 <= i < slots.Length ==> slots[i] == Woken(old(slots[i]), c)
    {
      ghost var t := slots[..];
      var k := 0;
      while k < slots.Length
        invariant 0 <= k <= slots.Length
        invariant forall i :: 0 <= i < k ==> slots[i] == Woken(old(slots[i]), c)
        invariant forall i :: k <= i < slots.Length ==> slots[i] == old(slots[i])
      {
        if slots[k].state == Sleeping && slots[k].chan == c {
          slots[k] := slots[k].(state := Runnable);
        }
        k := k + 1;
      }
      if TableOk(t, nextpid) {
        TableOkSameIdentities(t, slots[..], nextpid);
      }
    }

    /** The table effect of sleep: record the channel and become SLEEPING. */
    method Sleep(caller: nat, c: Chan)
      requires Valid() && IsCurrent(caller)
      modifies slots
      ensures Valid()
      ensures slots[..] == old(slots[..])[caller := old(slots[caller]).(chan := c, state := Sleeping)]
    {
      ghost var t := slots[..];
      slots[caller] := slots[caller].(chan := c, state := Sleeping);
      assert slots[..] == t[caller := slots[caller]];
      TableOkUpdate(t, nextpid, caller, slots[caller]);
    }

    /** The table effect of yield: the caller gives up the CPU and is RUNNABLE. */
    method Yield(caller: nat)
      requires Valid() && IsCurrent(caller)
      modifies slots
      ensures Valid()
      ensures slots[..] == old(slots[..])[caller := old(slots[caller]).(state := Runnable)]
    {
      ghost var t := slots[..];
      slots[caller] := slots[caller].(state := Runnable);
      assert slots[..] == t[caller := slots[caller]];
      TableOkUpdate(t, nextpid, caller, slots[caller]);
    }

    /** kill's search: the first slot with the pid, in any state. */
    method FindPid(pid: int) returns (found: Option<nat>)
      ensures found.None? ==> forall j :: 0 <= j < slots.Length ==> slots[j].pid != pid
      ensures found.Some? ==> FirstWithPid(slots[..], pid, found.value)
    {
      var k := 0;
      while k < slots.Length
        invariant 0 <= k <= slots.Length
        invariant forall j :: 0 <= j < k ==> slots[j].pid != pid
      {
        if slots[k].pid == pid {
          return Some(k);
        }
        k := k + 1;
      }
      return None;
    }

    /**
     * kill: flag the first slot carrying `pid` and wake it if it sleeps;
     * 0 on success, -1 (and no change) when no slot carries the pid.
     */
    method Kill(pid: int) returns (r: int)
      requires Valid()
      modifies slots
      ensures Valid()
      ensures r == 0 || r == -1
      ensures r == -1 <==> forall j :: 0 <= j < slots.Length ==> old(slots[j]).pid != pid
      ensures r == -1 ==> slots[..] == old(slots[..])
      ensures r == 0 ==> exists i ::
        FirstWithPid(old(slots[..]), pid, i) && slots[..] == old(slots[..])[i := Killed(old(slots[i]))]
    {
      var found := FindPid(pid);
      if found.None? {
        return -1;
      }
      var p := found.value;
      ghost var t := slots[..];
      var x := Killed(slots[p]);
      slots[p] := x;
      assert slots[..] == t[p := x];
      TableOkUpdate(t, nextpid, p, x);
      r := 0;
    }

    /** The corrected kill's search: the first slot IN USE with the pid. */
    method FindLivePid(pid: int) returns (found: Option<nat>)
      ensures found.None? <==> forall j :: 0 <= j < slots.Length ==> !LiveWithPid(slots[j], pid)
      ensures found.Some? ==> found.value < slots.Length && LiveWithPid(slots[found.value], pid)
    {
      var k := 0;
      while k < slots.Length
        invariant 0 <= k <= slots.Length
        invariant forall j :: 0 <= j < k ==> !LiveWithPid(slots[j], pid)
      {
        if slots[k].state != Unused && slots[k].pid == pid {
          return Some(k);
        }
        k := k + 1;
      }
      return None;
    }

    /**
     * kill restricted to processes in use: -1 and no change when no slot in
     * use carries `pid`; otherwise 0, and the one such slot (pids in use are
     * distinct) is flagged and woken. Free slots are never touched.
     */
    method KillLive(pid: int) returns (r: int)
      requires Valid()
      modifies slots
      ensures Valid()
      ensures r == 0 || r == -1
      ensures r == -1 <==> forall j :: 0 <= j < slots.Length ==> !LiveWithPid(old(slots[j]), pid)
      ensures r == -1 ==> slots[..] == old(slots[..])
      ensures r == 0 ==> exists i :: (
        && 0 <= i < slots.Length && LiveWithPid(old(slots[i]), pid)
        && slots[..] == old(slots[..])[i := Killed(old(slots[i]))])
      ensures forall j :: 0 <= j < slots.Length && !Active(old(slots[j])) ==> slots[j] == old(slots[j])
    {
      var found := FindLivePid(pid);
      if found.None? {
        return -1;
      }
      var p := found.value;
      ghost var t := slots[..];
      var x := Killed(slots[p]);
      slots[p] := x;
      assert slots[..] == t[p := x];
      TableOkUpdate(t, nextpid, p, x);
      r := 0;
    }

    // -------------------------------------------------------------------
    // The scheduler

    /** The scheduler's outer scan, resumed at `start`: the next RUNNABLE slot. */
    method FindRunnable(start: nat) returns (found: Option<nat>)
      ensures found.None? ==> NoRunnableFrom(slots[..], start)
      ensures found.Some? ==> FirstRunnableFrom(slots[..], start, found.value)
    {
      if start >= slots.Length {
        return None;
      }
      var k := start;
      while k < slots.Length
        invariant start <= k <= slots.Length
        invariant forall j :: start <= j < k ==> slots[j].state != Runnable
      {
        if slots[k].state == Runnable {
          return Some(k);
        }
        k := k + 1;
      }
      return None;
    }

    /**
     * The shortest-job scan: starting from candidate `p`, replace the
     * candidate by any RUNNABLE slot of strictly smaller burst time.
     */
    method LowestBurst(p: nat) returns (lowest: nat)
      requires p < slots.Length && slots[p].state == Runnable
      ensures ShortestChoice(slots[..], p, lowest)
    {
      lowest := p;
      var k := 0;
      while k < slots.Length
        invariant 0 <= k <= slots.Length
        invariant lowest < slots.Length && slots[lowest].state == Runnable
        invariant forall j :: 0 <= j < k && slots[j].state == Runnable ==> slots[lowest].burstTime <= slots[j].burstTime
        invariant slots[lowest].burstTime <= slots[p].burstTime
        invariant slots[lowest].burstTime == slots[p].burstTime ==> lowest == p
        invariant lowest != p ==> lowest < k
        invariant lowest != p ==>
          forall j :: 0 <= j < lowest && slots[j].state == Runnable ==> slots[lowest].burstTime < slots[j].burstTime
      {
        if slots[k].state == Runnable && slots[k].burstTime < slots[lowest].burstTime {
          lowest := k;
        }
        k := k + 1;
      }
    }

    /**
     * The hybrid policy's second scan: the first not-yet-run RUNNABLE slot,
     * replaced by any later one of strictly smaller burst time.
     */
    method LowestUnrun() returns (found: Option<nat>)
      ensures found.None? <==> !HasUnrun(slots[..])
      ensures found.Some? ==> UnrunChoice(slots[..], found.value)
    {
      found := None;
      var k := 0;
      while k < slots.Length
        invariant 0 <= k <= slots.Length
        invariant found.None? <==> forall j :: 0 <= j < k ==> !Unrun(slots[j])
        invariant found.Some? ==> found.value < k && Unrun(slots[found.value])
        invariant found.Some? ==> forall j :: 0 <= j < k && Unrun(slots[j]) ==>
          slots[found.value].burstTime <= slots[j].burstTime
        invariant found.Some? ==> forall j :: 0 <= j < found.value && Unrun(slots[j]) ==>
          slots[found.value].burstTime < slots[j].burstTime
      {
        if slots[k].state == Runnable && !slots[k].runAlready {
          if found.None? {
            found := Some(k);
          } else if slots[k].burstTime < slots[found.value].burstTime {
            found := Some(k);
          }
        }
        k := k + 1;
      }
      assert found.None? ==> forall j :: 0 <= j < slots.Length ==> !Unrun(slots[..][j]);
    }

    /** The hybrid policy's new round: every slot is marked as not yet run. */
    method ResetRound()
      requires Valid()
      modifies slots
      ensures Valid()
      ensures slots[..] == RoundReset(old(slots[..]))
    {
      var k := 0;
      while k < slots.Length
        invariant 0 <= k <= slots.Length
        invariant forall i :: 0 <= i < k ==> slots[i] == old(slots[i]).(runAlready := false)
        invariant forall i :: k <= i < slots.Length ==> slots[i] == old(slots[i])
      {
        slots[k] := slots[k].(runAlready := false);
        k := k + 1;
      }
      TableOkSameIdentities(old(slots[..]), slots[..], nextpid);
    }

    /** Dispatch: bind the slot to the CPU, count the switch, mark it RUNNING and run. */
    method Dispatch(c: nat)
      requires Valid() && c < slots.Length && slots[c].state == Runnable
      modifies this, slots
      ensures Valid() && slots == old(slots)
      ensures nextpid == old(nextpid) && timeQuanta == old(timeQuanta) && initproc == old(initproc)
      ensures cpuProc == Some(c)
      ensures slots[..] == old(slots[..])[c := Dispatched(old(slots[c]))]
    {
      ghost var t := slots[..];
      cpuProc := Some(c);
      slots[c] := slots[c].(numOfSwitches := slots[c].numOfSwitches + 1);
      slots[c] := slots[c].(state := Running, runAlready := true);
      assert slots[..] == t[c := slots[c]];
      TableOkUpdate(t, nextpid, c, slots[c]);
    }

    /**
     * One iteration of the scheduler's loop, resumed at slot `start`: find the
     * next RUNNABLE slot, let the policy choose, and dispatch the choice.
     * None means the pass is over (the lock is released and a new pass starts
     * at 0). Because the loop variable is overwritten with the choice, the
     * next iteration resumes at the chosen slot plus one.
     */
    method ScheduleStep(policy: Policy, start: nat) returns (chosen: Option<nat>)
      requires Valid()
      modifies this, slots
      ensures Valid() && slots == old(slots)
      ensures nextpid == old(nextpid) && timeQuanta == old(timeQuanta) && initproc == old(initproc)
      ensures chosen.None? <==> NoRunnableFrom(old(slots[..]), start)
      ensures chosen.None? ==> slots[..] == old(slots[..]) && cpuProc == old(cpuProc)
      ensures chosen.Some? ==>
        chosen.value < slots.Length && cpuProc == chosen && old(slots[chosen.value]).state == Runnable
      ensures chosen.Some? && policy == Fcfs ==>
        FirstRunnableFrom(old(slots[..]), start, chosen.value) &&
        slots[..] == old(slots[..])[chosen.value := Dispatched(old(slots[chosen.value]))]
      ensures chosen.Some? && policy == Sjf ==>
        (exists p :: FirstRunnableFrom(old(slots[..]), start, p) && ShortestChoice(old(slots[..]), p, chosen.value)) &&
        slots[..] == old(slots[..])[chosen.value := Dispatched(old(slots[chosen.value]))]
      ensures chosen.Some? && policy == Hbsjf && HasUnrun(old(slots[..])) ==>
        UnrunChoice(old(slots[..]), chosen.value) &&
        slots[..] == old(slots[..])[chosen.value := Dispatched(old(slots[chosen.value]))]
      ensures chosen.Some? && policy == Hbsjf && !HasUnrun(old(slots[..])) ==>
        (exists p :: FirstRunnableFrom(old(slots[..]), start, p) && ShortestChoice(old(slots[..]), p, chosen.value)) &&
        slots[..] == RoundReset(old(slots[..]))[chosen.value := Dispatched(old(slots[chosen.value]))]
    {
      var first := FindRunnable(start);
      if first.None? {
        return None;
      }
      var c := first.value;
      match policy {
        case Fcfs =>
        case Sjf =>
          c := LowestBurst(c);
        case Hbsjf =>
          var lowest := LowestBurst(c);
          var unrun := LowestUnrun();
          if unrun.None? {
            c := lowest;
            ResetRound();
          } else {
            c := unrun.value;
          }
      }
      Dispatch(c);
      chosen := Some(c);
    }

    /** The dispatched process has switched back: the CPU runs no process. */
    method SwitchBack()
      requires Valid()
      modifies this
      ensures Valid() && cpuProc == None
      ensures slots == old(slots) && nextpid == old(nextpid) && timeQuanta == old(timeQuanta)
      ensures initproc == old(initproc)
    {
      cpuProc := None;
    }

    // -------------------------------------------------------------------
    // Queries

    /** getNumProc: how many slots are in use. */
    method GetNumProc() returns (count: int)
      ensures count == ActiveCount(slots[..])
    {
      count := 0;
      var k := 0;
      while k < slots.Length
        invariant 0 <= k <= slots.Length
        invariant count == ActiveCount(slots[..k])
      {
        assert slots[..k + 1][..k] == slots[..k];
        if slots[k].state != Unused {
          count := count + 1;
        }
        k := k + 1;
      }
      assert slots[..k] == slots[..];
    }

    /** getMaxPid: the largest pid of a slot in use, -1 when none is. */
    method GetMaxPid() returns (maxPid: int)
      ensures maxPid == MaxActivePid(slots[..])
    {
      maxPid := -1;
      var k := 0;
      while k < slots.Length
        invariant 0 <= k <= slots.Length
        invariant maxPid == MaxActivePid(slots[..k])
      {
        assert slots[..k + 1][..k] == slots[..k];
        if slots[k].state != Unused {
          if maxPid < slots[k].pid {
            maxPid := slots[k].pid;
          }
        }
        k := k + 1;
      }
      assert slots[..k] == slots[..];
    }

    /**
     * getProcInfo: 0 and the parent pid, size and switch count of the slot in
     * use carrying `pid`, or -1 when there is none. The kernel reads the
     * parent through its pointer unless pid is 1, so that parent must exist.
     */
    method GetProcInfo(pid: int) returns (r: int, info: Option<ProcInfo>)
      requires Valid()
      requires forall i :: 0 <= i < slots.Length && Active(slots[i]) && slots[i].pid == pid && pid != 1 ==>
        slots[i].parent.Some?
      ensures r == 0 || r == -1
      ensures r == -1 <==> forall i :: 0 <= i < slots.Length ==> !(Active(slots[i]) && slots[i].pid == pid)
      ensures r == -1 ==> info == None
      ensures r == 0 ==> exists i :: (
        && 0 <= i < slots.Length && Active(slots[i]) && slots[i].pid == pid
        && info == Some(InfoOf(slots[..], i)))
    {
      r, info := -1, None;
      var k := 0;
      while k < slots.Length
        invariant 0 <= k <= slots.Length
        invariant forall i :: 0 <= i < k ==> !(Active(slots[i]) && slots[i].pid == pid)
      {
        if slots[k].state != Unused && slots[k].pid == pid {
          var ppid := if pid == 1 then 0 else slots[slots[k].parent.value].pid;
          info := Some(ProcInfo(ppid, slots[k].sz, slots[k].numOfSwitches));
          r := 0;
          assert info == Some(InfoOf(slots[..], k));
          return;
        }
        k := k + 1;
      }
    }

    // -------------------------------------------------------------------
    // Burst time and quantum

    /**
     * set_burst_time: n < 1 fails with -1 and changes nothing; otherwise the
     * caller's PARENT gets burst time n, the quantum drops to n if n is
     * smaller, and the caller yields. The parent pointer is dereferenced only
     * when n >= 1.
     */
    method SetBurstTime(caller: nat, n: int) returns (r: int)
      requires Valid() && IsCurrent(caller)
      requires n >= 1 ==> slots[caller].parent.Some?
      modifies this, slots
      ensures Valid() && slots == old(slots)
      ensures nextpid == old(nextpid) && initproc == old(initproc) && cpuProc == old(cpuProc)
      ensures n < 1 ==> r == -1 && timeQuanta == old(timeQuanta) && slots[..] == old(slots[..])
      ensures n >= 1 ==>
        && r == 0
        && timeQuanta == (if n < old(timeQuanta) then n else old(timeQuanta))
        && (var par := old(slots[caller].parent.value);
            var t := old(slots[..])[par := old(slots[par]).(burstTime := n)];
            slots[..] == t[caller := t[caller].(state := Runnable)])
      ensures n >= 1 ==> slots[old(slots[caller].parent.value)].burstTime == n
    {
      if n < 1 {
        return -1;
      }
      var par := slots[caller].parent.value;
      ghost var t := slots[..];
      slots[par] := slots[par].(burstTime := n);
      assert slots[..] == t[par := slots[par]];
      TableOkUpdate(t, nextpid, par, slots[par]);
      if n < timeQuanta {
        timeQuanta := n;
      }
      Yield(caller);
      r := 0;
    }

    /** get_burst_time: the burst time recorded on the caller's PARENT. */
    method GetBurstTime(caller: nat) returns (n: int)
      requires Valid() && IsCurrent(caller) && slots[caller].parent.Some?
      ensures n == slots[slots[caller].parent.value].burstTime
    {
      n := slots[slots[caller].parent.value].burstTime;
    }

    /**
     * A child sets its burst time, yields, is dispatched again and reads its
     * burst time back: it reads the value it set, because both calls go to
     * its parent, and its own record's burst time is untouched unless it is
     * its own parent.
     */
    method SetThenGetBurst(caller: nat, n: int) returns (got: int)
      requires Valid() && IsCurrent(caller) && slots[caller].parent.Some? && n >= 1
      modifies this, slots
      ensures Valid() && IsCurrent(caller)
      ensures got == n
      ensures slots[caller].parent != Some(caller) ==> slots[caller].burstTime == old(slots[caller].burstTime)
    {
      var r := SetBurstTime(caller, n);
      Dispatch(caller);
      got := GetBurstTime(caller);
    }

    /**
     * checkTime: one more tick of the caller's running time; 1 exactly when
     * the new running time is a multiple of the quantum, 0 otherwise.
     */
    method CheckTime(caller: nat) returns (expired: int)
      requires Valid() && IsCurrent(caller)
      modifies slots
      ensures Valid()
      ensures slots[..] == old(slots[..])[caller := old(slots[caller]).(runningTime := old(slots[caller].runningTime) + 1)]
      ensures expired == 0 || expired == 1
      ensures expired == 1 <==> slots[caller].runningTime % timeQuanta == 0
    {
      ghost var t := slots[..];
      slots[caller] := slots[caller].(runningTime := slots[caller].runningTime + 1);
      assert slots[..] == t[caller := slots[caller]];
      TableOkUpdate(t, nextpid, caller, slots[caller]);
      var n := slots[caller].runningTime;
      expired := if n % timeQuanta == 0 then 1 else 0;
    }

    /**
     * checkTime called on `k` consecutive ticks of a process whose running
     * time starts at 0: the number of expiries it reports is k / quantum.
     */
    method CheckTimeTicks(caller: nat, k: nat) returns (expiries: nat)
      requires Valid() && IsCurrent(caller) && slots[caller].runningTime == 0
      modifies slots
      ensures Valid() && IsCurrent(caller)
      ensures slots[caller].runningTime == k
      ensures expiries == k / timeQuanta
    {
      expiries := 0;
      var i := 0;
      while i < k
        invariant 0 <= i <= k
        invariant Valid() && IsCurrent(caller)
        invariant slots[caller].runningTime == i
        invariant expiries == Expiries(i, timeQuanta)
      {
        var e := CheckTime(caller);
        expiries := expiries + e;
        i := i + 1;
      }
      ExpiriesEveryQuantum(k, timeQuanta);
    }
  }

  /**
   * kill as written matches a pid in any state, and free slots carry pid 0.
   * With init and one child in use in a three-slot table, kill(0) reports
   * success by flagging the never-used slot 2, and the next allocproc hands
   * out that slot with the flag still set: the new process starts killed.
   */
  method KillZeroTaintsNextProcess() returns (r: int, slot: Option<nat>, bornKilled: bool)
    ensures r == 0 && slot == Some(2) && bornKilled
  {
    var table := new ProcessTable(3);
    var panics;
    ghost var taken;
    ghost var boot := table.slots[..];
    assert boot[0].state == Unused;
    panics, taken := table.UserInit(true);
    assert taken == Some(0) by {
      assert !NoUnused(boot);
    }
    table.Dispatch(0);
    var child;
    ghost var one := table.slots[..];
    assert one[1].state == Unused && one[2] == FreeSlot;
    child, taken := table.Fork(0, true, true);
    assert taken == Some(1) by {
      assert !NoUnused(one);
    }
    ghost var two := table.slots[..];
    assert two[0].pid == 1 && two[1].pid == 2 && two[2] == FreeSlot;
    r := table.Kill(0);
    assert r == 0 by {
      assert two[2].pid == 0;
    }
    ghost var killed := table.slots[..];
    assert killed[2] == Killed(FreeSlot) && Active(killed[0]) && Active(killed[1]);
    slot, taken := table.AllocProc(true);
    assert taken == Some(2) by {
      assert !NoUnused(killed);
    }
    bornKilled := table.slots[2].killed;
  }
}
