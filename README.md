# Process table of the G40 xv6 kernel, in Dafny

This project models the process-table manager of the G40 teaching kernel
(`G40_os/G40/proc.c`), an xv6 derivative extended with shortest-job-first
scheduling, burst times and a preemption quantum. It then proves properties
of that model.

The kernel keeps a fixed array of process records (`ptable.proc`) plus
three globals: `nextpid`, `TimeQuanta` and `initproc`. Operations change
the array in place, and most of their writes are made while holding the
table lock. Some writes are made without it:

- allocproc releases the lock (proc.c:99) before it reverts a slot to
  UNUSED when the stack allocation fails (proc.c:104).
- userinit fills the new process (proc.c:135-150) before it takes the lock
  to make it RUNNABLE (proc.c:156-160).
- fork reverts a failed child (proc.c:206) and sets its size and parent
  (proc.c:209-210) without the lock. It takes the lock only to make the
  child RUNNABLE (proc.c:225-229).
- set_burst_time lowers `TimeQuanta` (proc.c:712-713) after releasing the
  lock. It takes the lock again inside yield.
- checkTime reads `TimeQuanta` (proc.c:740) after releasing the lock.

The model keeps that shape:

- `ProcTable.ProcessTable` is a class. Its field `slots` is an array of
  `Proc` records. Its other fields are `nextpid`, `timeQuanta`, `initproc`
  and `cpuProc`, the last being the `proc` field of the CPU descriptor.
- Each operation is one method that runs atomically. Where the kernel
  splits an operation into several locked sections and unlocked writes,
  the method merges them into one step (see "## Left out").
- The running process (the kernel's `myproc()`) is passed in as the slot
  index `caller`.
- Outcomes of other subsystems are boolean parameters: `kallocOk` for
  whether a kernel stack could be allocated, and `copyOk` for whether
  `copyuvm` copied the address space.
- A parent pointer is a slot index, and the null pointer is `None`.
- A sleep channel is a `Chan`: null, the address of a slot, or another
  kernel address.

The modules are:

- `ProcTypes` (`proc_types.dfy`): the record, its states and the value
  functions that describe one slot after each operation. It also holds the
  predicates that specify the scheduler's scans and the table's
  well-formedness invariant `TableOk`:
  - pids lie below `nextpid`;
  - a slot in use has a positive pid;
  - parent links stay inside the table;
  - no two slots in use share a pid.
- `TableFacts` (`table_facts.dfy`): functions over whole tables. These are
  the process count, the largest pid in use, the number of processes left
  in a hybrid round, and the number of quantum expiries. The module also
  holds the lemmas that relate these functions to the operations.
- `ProcTable` (`proc_table.dfy`): the table and its operations. Each
  method is proved against the value functions. Every operation the kernel
  exposes keeps `Valid()`, the table invariant. `PassToInit`, a step inside
  exit, is proved only against its value function.

Every scan over the table is a `while` loop with its invariants, as in the
kernel. The three scheduling policies (FCFS, SJF and HBSJF, the hybrid
round-based SJF) are one method, `ScheduleStep`, with the policy as a
parameter. `ScheduleStep` is a single iteration of the scheduler's loop:
find the next RUNNABLE slot, let the policy choose, and dispatch the
choice.

Some behaviour is kept exactly as the code has it:

- `set_burst_time` and `get_burst_time` act on the caller's parent, not on
  the caller.
- When a kernel stack cannot be allocated, `allocproc` frees the slot but
  the pid stays consumed.
- SJF ties keep the first candidate.

## Model

| member | source | states |
|---|---|---|
| ProcTable.ProcessTable.constructor | G40_os/G40/proc.c:11-20 | The boot-time table: every slot zero-filled (UNUSED, pid 0), `nextpid` 1, quantum 2000, no init process, and the table invariant holds |
| ProcTable.ProcessTable.FindUnused | G40_os/G40/proc.c:85-90 | Returns the first UNUSED slot in table order, or none exactly when every slot is in use |
| ProcTable.ProcessTable.AllocProc | G40_os/G40/proc.c:77-106 | Takes the first UNUSED slot, or changes nothing when none exists. On success the slot gets pid = old `nextpid`, zeroed switch, burst, round and running-time counters, and state EMBRYO; with a failed stack allocation it gets state UNUSED. `nextpid` grows by exactly one; no other slot changes. On success the process count grows by one and the new pid is the largest pid in use |
| ProcTable.ProcessTable.TakeSlot | G40_os/G40/proc.c:92-106 | Rewrites only the chosen slot and increments `nextpid`. Pids of slots in use stay distinct because the new pid is above every pid in the table |
| ProcTable.ProcessTable.UserInit | G40_os/G40/proc.c:133-160 | The first allocated slot becomes `initproc` and RUNNABLE. A failed allocation is reported as a panic (the kernel dereferences a null pointer) |
| ProcTable.ProcessTable.Fork | G40_os/G40/proc.c:196-231 | Full table: -1 and no change. Failed stack allocation or address-space copy: -1, and the child slot is UNUSED with its pid consumed. Success: the child's pid is returned, and the child has the caller as parent, the caller's size and state RUNNABLE. No other slot changes. The process count grows by one exactly on success |
| ProcTable.ProcessTable.Exit | G40_os/G40/proc.c:243-280 | Exiting init panics and changes nothing. Otherwise, slot by slot: sleepers on the parent are woken; sleepers on init are woken if a child was already a zombie; every child is handed to init; and the caller is a ZOMBIE. Afterwards no slot has the caller as parent |
| ProcTable.ProcessTable.PassToInit | G40_os/G40/proc.c:266-275 | The reparenting loop: each child of the caller gets init as parent. Init is woken exactly when some child is a ZOMBIE; the loop calls wakeup1 again at every later zombie child, which changes nothing more |
| ProcTable.ProcessTable.FindZombieChild | G40_os/G40/proc.c:295-316 | Returns the first ZOMBIE child of the caller if there is one. Otherwise it reports whether the caller has any child at all |
| ProcTable.ProcessTable.Wait | G40_os/G40/proc.c:291-327 | Reaps the first ZOMBIE child: returns its pid (≥ 1) and frees the slot, with pid 0, no parent and `killed` cleared; the process count drops by one. Fails with no change exactly when no child is a ZOMBIE and the caller has no children or is killed. Otherwise the caller sleeps on its own slot |
| ProcTable.ProcessTable.Wakeup | G40_os/G40/proc.c:549-565 | Every slot SLEEPING on the channel becomes RUNNABLE; every other slot and field is unchanged; the table invariant is kept |
| ProcTable.ProcessTable.Sleep | G40_os/G40/proc.c:529-531 | Only the caller's slot changes: it records the channel and becomes SLEEPING |
| ProcTable.ProcessTable.Yield | G40_os/G40/proc.c:477-480 | Only the caller's slot changes: it becomes RUNNABLE |
| ProcTable.ProcessTable.FindPid | G40_os/G40/proc.c:575-578 | Returns the first slot, in any state, whose pid equals the argument, or none when no slot carries it |
| ProcTable.ProcessTable.Kill | G40_os/G40/proc.c:570-589 | Returns -1 with no change exactly when no slot carries the pid. Otherwise it returns 0, and only the first slot carrying the pid changes: `killed` is set, and the slot moves from SLEEPING to RUNNABLE |
| ProcTable.ProcessTable.FindLivePid | G40_os/G40/proc.c:575-578 | Corrected search: returns a slot in use with the pid, or none exactly when no slot in use carries it |
| ProcTable.ProcessTable.KillLive | G40_os/G40/proc.c:570-589 | Corrected kill: -1 exactly when no process in use has the pid; otherwise 0, and that process is flagged and woken. Free slots are never changed |
| ProcTable.ProcessTable.FindRunnable | G40_os/G40/proc.c:351-354 | The outer scan resumed at `start`: returns the first RUNNABLE slot at or after it, or none when there is none |
| ProcTable.ProcessTable.LowestBurst | G40_os/G40/proc.c:359-366 | Returns a RUNNABLE slot whose burst time is ≤ that of every RUNNABLE slot. When the starting candidate already has the minimum it is kept; otherwise the result is the earliest slot with the minimum |
| ProcTable.ProcessTable.LowestUnrun | G40_os/G40/proc.c:396-411 | Returns none exactly when every RUNNABLE slot has already run this round. Otherwise it returns the earliest not-yet-run RUNNABLE slot of minimum burst time |
| ProcTable.ProcessTable.ResetRound | G40_os/G40/proc.c:417-419 | Every slot's round flag is cleared and nothing else changes |
| ProcTable.ProcessTable.Dispatch | G40_os/G40/proc.c:432-438 | The CPU's process becomes the chosen slot, whose switch count grows by one, state becomes RUNNING and round flag is set. No other slot changes |
| ProcTable.ProcessTable.ScheduleStep | G40_os/G40/proc.c:351-438 | Returns none with no change exactly when no slot at or after `start` is RUNNABLE. FCFS dispatches the first RUNNABLE slot. SJF dispatches the shortest-burst choice starting from it. HBSJF dispatches the shortest not-yet-run slot when one exists; otherwise it resets the round for every slot and dispatches the SJF choice |
| ProcTable.ProcessTable.SwitchBack | G40_os/G40/proc.c:443-445 | After the switch back, the CPU runs no process and nothing else changes |
| ProcTable.ProcessTable.GetNumProc | G40_os/G40/proc.c:628-645 | Returns the number of slots in use |
| ProcTable.ProcessTable.GetMaxPid | G40_os/G40/proc.c:648-664 | Returns the largest pid among slots in use, or -1 when none is in use |
| ProcTable.ProcessTable.GetProcInfo | G40_os/G40/proc.c:667-697 | Returns -1 and no info exactly when no slot in use carries the pid. Otherwise it returns 0 and that slot's parent pid (0 for pid 1), size and switch count |
| ProcTable.ProcessTable.SetBurstTime | G40_os/G40/proc.c:699-717 | n < 1: -1, no change. Otherwise: the parent's burst time becomes n, the quantum becomes min(quantum, n) and stays ≥ 1, the caller yields, and the result is 0 |
| ProcTable.ProcessTable.GetBurstTime | G40_os/G40/proc.c:719-728 | Returns the burst time recorded on the caller's parent; SetThenGetBurst proves that a get after set(n) returns n |
| ProcTable.ProcessTable.SetThenGetBurst | G40_os/G40/proc.c:699-728 | get_burst_time after set_burst_time(n), with the caller dispatched again in between, returns n: both calls act on the parent. The caller's own burst time is unchanged unless it is its own parent |
| ProcTable.ProcessTable.CheckTime | G40_os/G40/proc.c:730-745 | Only the caller's running time changes, growing by exactly one. The result is 1 exactly when the new value is a multiple of the quantum, and 0 otherwise |
| ProcTable.ProcessTable.CheckTimeTicks | G40_os/G40/proc.c:730-745 | Over k calls starting from running time 0, checkTime reports expiry exactly k / quantum times |
| ProcTypes.AfterExitIdentity | G40_os/G40/proc.c:263-278 | exit changes no slot's pid or in-use status, and hands children only to a slot of the table |
| ProcTypes.TableOkFreshPid | G40_os/G40/proc.c:92-94 | Giving a slot the value of `nextpid` and then incrementing it keeps the pids of slots in use distinct |
| TableFacts.ActiveCount | G40_os/G40/proc.c:634-641 | Defines the count getNumProc returns: the number of slots in use, which is at most the table size |
| TableFacts.ActiveCountUpdate | G40_os/G40/proc.c:634-641 | Rewriting one slot changes the count by exactly that slot's contribution |
| TableFacts.ActiveCountFull | G40_os/G40/proc.c:85-90 | allocproc finds no free slot exactly when the count equals the table size |
| TableFacts.MaxActivePid | G40_os/G40/proc.c:652-661 | Every pid in use is ≤ the result, and the result is a pid in use (or -1 when none is) |
| TableFacts.NewestIsMax | G40_os/G40/proc.c:94 | A process given a pid above every pid in the table becomes the largest pid in use |
| TableFacts.UnrunCount | G40_os/G40/proc.c:397-411 | Defines the size of the current hybrid round: the number of RUNNABLE slots not yet run, at most the table size |
| TableFacts.UnrunCountZero | G40_os/G40/proc.c:413-420 | The hybrid policy starts a new round exactly when that number is 0 |
| TableFacts.UnrunCountUpdate | G40_os/G40/proc.c:397-411 | Rewriting one slot changes that number by exactly that slot's contribution |
| TableFacts.HybridDispatchShrinksRound | G40_os/G40/proc.c:421-438 | A dispatch within a round removes the chosen process from the round's not-yet-run set, which shrinks by exactly one |
| TableFacts.NewRoundCount | G40_os/G40/proc.c:413-438 | A new round starts with every RUNNABLE process not yet run, and its first dispatch leaves all the others to run |
| TableFacts.ResetCountsRunnable | G40_os/G40/proc.c:417-419 | After the reset, the not-yet-run count equals the RUNNABLE count |
| TableFacts.RunnableCount | G40_os/G40/proc.c:413-420 | Defines the size of a new hybrid round: the number of RUNNABLE slots, at most the table size |
| TableFacts.ExpiriesEveryQuantum | G40_os/G40/proc.c:735-744 | Over k ticks starting from running time 0, checkTime signals expiry exactly k / q times |
| ProcTable.KillZeroTaintsNextProcess | G40_os/G40/proc.c:575-579 | As written, with init and one child in use in a three-slot table, kill(0) returns 0 by flagging the never-used slot 2. The next allocproc hands out slot 2 with the flag still set |
| TableFacts.NoLiveZeroPid | G40_os/G40/proc.c:94 | In a well-formed table no process in use has pid 0, so the corrected kill(0) fails |

## Left out

- Locking, interrupts and the CPU plumbing are not modelled: spinlocks, `sti`, `mycpu`/`myproc`, `sched`, `swtch`, `switchuvm`/`switchkvm` and `forkret`. Each operation is one atomic method, and there is a single CPU. Concurrent CPUs sharing the table are not modelled.
- AllocProc, UserInit, Fork and SetBurstTime: each merges several locked sections and unlocked writes (proc.c:99-104, 135-160, 206-229, 706-715) into one atomic step. No other process can observe the intermediate states: the EMBRYO slot before a failed allocation is reverted, the child before its parent and size are set, or the parent's new burst time before the quantum is lowered. Nor can it race with those unlocked writes.
- CheckTime: the quantum is read in the same atomic step as the tick, although the kernel reads it after releasing the lock (proc.c:738-740).
- ScheduleStep: the scheduler's endless outer loop is not modelled as a loop. One call is one iteration of the scan, and `start` can be any slot. No contract ties the next `start` to the previous choice, so the kernel's resumption of the scan after the chosen slot (proc.c:366, 415, 423) is not modelled. The run of the chosen process between the switch and `SwitchBack` lies outside the model.
- HybridDispatchShrinksRound: proves only the one-step decrease. It does not prove that a round ends. allocproc clears the round flag (proc.c:97) and fork makes the child RUNNABLE (proc.c:227), so new processes can join a round between dispatches.
- Sleep: models only the table effect. The lock hand-off and the tidy-up `chan = 0` after waking (proc.c:536) are not modelled.
- Wait: models one pass of the kernel's `for (;;)`. After the caller is woken, the kernel's re-scan is a fresh call.
- GetProcInfo: requires that a matching slot with pid other than 1 has a parent. The kernel dereferences a null parent pointer there. That null dereference has undefined behaviour and is not modelled.
- SetBurstTime: requires a parent when n ≥ 1, for the same null dereference (undefined behaviour). The caller's write of the global quantum, made without the lock, is modelled as part of the same atomic step.
- GetBurstTime: requires a parent, for the same null dereference (undefined behaviour).
- UserInit: models only the slot's state and `initproc`. Not modelled:
  - page-table setup and its "out of memory" panic;
  - the initial size (PGSIZE);
  - the trap frame, name and working directory.
- Fork: the trap frame copy, the open-file and cwd duplication, the name copy and the freeing of the kernel stack are not modelled.
- Exit: closing files, releasing the cwd inode and the final `sched` are not modelled.
- Memory and file subsystems (`kalloc`/`kfree`, `copyuvm`, `freevm`, `growproc`) are outside the model. Their outcomes are boolean parameters.
- The kernel's C `int` fields (`nextpid`, `RunningTime`, `numOfSwitches`, `burstTime`) are unbounded integers here, so wrap-around after 2^31 - 1 is not modelled.
- The table size NPROC is defined in param.h, which is not part of this model. The constructor takes the size as a parameter.
- Console output is not modelled: `procdump`, `pstate` and the `cprintf` inside `getNumProc`.
- The system-call marshalling in sysproc.c, the user-level thread locks in C40_ass1_os/C40, and the `set_burst_time`/`get_burst_time` command-line programs are not modelled.

## Findings

| source | as written | input that shows it | evidently intended | confidence | as-written member | corrected member |
|---|---|---|---|---|---|---|
| G40_os/G40/proc.c:577 | kill matches a slot by pid alone, in any state. Free slots carry pid 0. | Take a three-slot table with init (pid 1) and one child (pid 2) in use, and slot 2 never used (pid 0). kill(0) returns 0 and sets `killed` on slot 2. allocproc (proc.c:92-98) then hands out slot 2 without clearing the flag, so the new process starts out killed. | Only processes in use can be killed, so kill(0) returns -1. | medium, not executed | ProcTable.ProcessTable.Kill, ProcTable.KillZeroTaintsNextProcess | ProcTable.ProcessTable.KillLive |
