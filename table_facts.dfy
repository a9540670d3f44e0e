/**
 * Facts about whole tables: the process count getNumProc reports, the
 * largest pid getMaxPid reports, and how often checkTime signals the end of
 * a quantum. The definitions scan the table in order, as the kernel does.
 */
module TableFacts {
  import opened ProcTypes

  /** The number of slots in use. */
  function ActiveCount(t: seq<Proc>): (n: nat)
    ensures n <= |t|
  {
    if t == [] then 0
    else ActiveCount(t[..|t| - 1]) + (if Active(t[|t| - 1]) then 1 else 0)
  }

  /** Replacing one slot changes the count by what that slot contributes. */
  lemma {:induction false} ActiveCountUpdate(t: seq<Proc>, i: nat, x: Proc)
    requires i < |t|
    ensures ActiveCount(t[i := x]) ==
            ActiveCount(t) - (if Active(t[i]) then 1 else 0) + (if Active(x) then 1 else 0)
  {
    var n := |t| - 1;
    if i < n {
      assert t[i := x][..n] == t[..n][i := x];
      ActiveCountUpdate(t[..n], i, x);
    } else {
      assert t[i := x][..n] == t[..n];
    }
  }

  /** The table is full (allocproc fails) exactly when the count reaches its size. */
  lemma {:induction false} ActiveCountFull(t: seq<Proc>)
    ensures ActiveCount(t) == |t| <==> NoUnused(t)
  {
    if t != [] {
      var n := |t| - 1;
      ActiveCountFull(t[..n]);
      assert forall i :: 0 <= i < n ==> t[..n][i] == t[i];
    }
  }

  /** The largest pid of a slot in use, or -1 when none is. */
  function MaxActivePid(t: seq<Proc>): (m: int)
    ensures m >= -1
    ensures forall i :: 0 <= i < |t| && Active(t[i]) ==> t[i].pid <= m
    ensures m == -1 || exists i :: 0 <= i < |t| && Active(t[i]) && t[i].pid == m
  {
    if t == [] then -1
    else
      var n := |t| - 1;
      var m := MaxActivePid(t[..n]);
      assert forall i :: 0 <= i < n ==> t[..n][i] == t[i];
      if Active(t[n]) && m < t[n].pid then t[n].pid else m
  }

  /**
   * A process given a pid above every pid in the table becomes the largest:
   * right after allocproc, getMaxPid reports the new pid.
   */
  lemma NewestIsMax(t: seq<Proc>, i: nat, x: Proc)
    requires i < |t| && Active(x) && x.pid >= 0
    requires forall j :: 0 <= j < |t| ==> t[j].pid < x.pid
    ensures MaxActivePid(t[i := x]) == x.pid
  {
    var u := t[i := x];
    assert Active(u[i]);
  }

  /** The number of RUNNABLE slots that have not yet run in the current hybrid round. */
  function UnrunCount(t: seq<Proc>): (n: nat)
    ensures n <= |t|
  {
    if t == [] then 0 else UnrunCount(t[..|t| - 1]) + (if Unrun(t[|t| - 1]) then 1 else 0)
  }

  /** The round is over (the hybrid policy starts a new one) exactly when the count is 0. */
  lemma {:induction false} UnrunCountZero(t: seq<Proc>)
    ensures UnrunCount(t) == 0 <==> !HasUnrun(t)
  {
    if t != [] {
      var n := |t| - 1;
      UnrunCountZero(t[..n]);
      assert forall i :: 0 <= i < n ==> t[..n][i] == t[i];
    }
  }

  lemma {:induction false} UnrunCountUpdate(t: seq<Proc>, i: nat, x: Proc)
    requires i < |t|
    ensures UnrunCount(t[i := x]) ==
            UnrunCount(t) - (if Unrun(t[i]) then 1 else 0) + (if Unrun(x) then 1 else 0)
  {
    var n := |t| - 1;
    if i < n {
      assert t[i := x][..n] == t[..n][i := x];
      UnrunCountUpdate(t[..n], i, x);
    } else {
      assert t[i := x][..n] == t[..n];
    }
  }

  /**
   * A dispatch the hybrid policy makes inside a round removes the chosen
   * process from the round's not-yet-run set.
   */
  lemma HybridDispatchShrinksRound(t: seq<Proc>, c: nat)
    requires UnrunChoice(t, c)
    ensures UnrunCount(t[c := Dispatched(t[c])]) == UnrunCount(t) - 1
  {
    UnrunCountUpdate(t, c, Dispatched(t[c]));
  }

  /**
   * A new round starts with every RUNNABLE slot not yet run; its first
   * dispatch leaves all the others still to run.
   */
  lemma {:induction false} NewRoundCount(t: seq<Proc>, c: nat)
    requires c < |t| && t[c].state == Runnable
    ensures UnrunCount(RoundReset(t)) == RunnableCount(t)
    ensures UnrunCount(RoundReset(t)[c := Dispatched(t[c])]) == RunnableCount(t) - 1
  {
    ResetCountsRunnable(t);
    UnrunCountUpdate(RoundReset(t), c, Dispatched(t[c]));
  }

  lemma {:induction false} ResetCountsRunnable(t: seq<Proc>)
    ensures UnrunCount(RoundReset(t)) == RunnableCount(t)
  {
    if t != [] {
      var n := |t| - 1;
      assert RoundReset(t)[..n] == RoundReset(t[..n]);
      ResetCountsRunnable(t[..n]);
    }
  }

  /** The number of RUNNABLE slots. */
  function RunnableCount(t: seq<Proc>): (n: nat)
    ensures n <= |t|
  {
    if t == [] then 0
    else RunnableCount(t[..|t| - 1]) + (if t[|t| - 1].state == Runnable then 1 else 0)
  }

  /** In a well-formed table no slot in use has pid 0, so the corrected kill(0) fails. */
  lemma NoLiveZeroPid(t: seq<Proc>, nextpid: int)
    requires TableOk(t, nextpid)
    ensures forall j :: 0 <= j < |t| ==> !LiveWithPid(t[j], 0)
  {
  }

  /**
   * The number of running times among 1..k that are multiples of `q`: how
   * many times checkTime reports an expired quantum over k ticks of a
   * process whose running time starts at 0, while the quantum stays `q`.
   */
  function Expiries(k: nat, q: int): nat
    requires q >= 1
  {
    if k == 0 then 0 else Expiries(k - 1, q) + (if k % q == 0 then 1 else 0)
  }

  /** checkTime signals once every `q` ticks: k ticks give k / q signals. */
  lemma {:induction false} ExpiriesEveryQuantum(k: nat, q: int)
    requires q >= 1
    ensures Expiries(k, q) == k / q
  {
    if k > 0 {
      ExpiriesEveryQuantum(k - 1, q);
      DivStep(k, q);
    }
  }

  lemma DivStep(k: int, q: int)
    requires q >= 1 && k >= 1
    ensures k / q == (k - 1) / q + (if k % q == 0 then 1 else 0)
  {
    var a, b := (k - 1) / q, (k - 1) % q;
    assert k - 1 == a * q + b && 0 <= b < q;
    if b + 1 == q {
      assert k == (a + 1) * q + 0;
      DivModUnique(k, q, a + 1, 0);
    } else {
      assert k == a * q + (b + 1);
      DivModUnique(k, q, a, b + 1);
    }
  }

  lemma DivModUnique(k: int, q: int, d: int, m: int)
    requires q >= 1 && k == d * q + m && 0 <= m < q
    ensures k / q == d && k % q == m
  {
    var d', m' := k / q, k % q;
    assert k == d' * q + m' && 0 <= m' < q;
    var e := d - d';
    assert e * q == m' - m by {
      assert d * q - d' * q == m' - m;
      MulSub(d, d', q);
    }
    if e >= 1 {
      MulAtLeast(e, q);
    } else if e <= -1 {
      MulAtLeast(-e, q);
    }
  }

  lemma MulSub(a: int, b: int, q: int)
    ensures (a - b) * q == a * q - b * q
  {
  }

  lemma MulAtLeast(e: int, q: int)
    requires e >= 1 && q >= 1
    ensures e * q >= q
  {
  }
}
