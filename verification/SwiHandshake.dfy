/** The software-interrupt benchmark (benchmarks/exception/swi.c) as a state machine: the kernel loop and the
    interrupt handler share a flag, and interleave at every instruction that touches shared state. */
module SwiHandshake {

  /** Where the kernel loop is: at the loop head, flag cleared, interrupt triggered and waiting, or out. */
  datatype Kernel = Head | Cleared | Waiting | Done

  /** The handler: not running, or past `flag = 1` and about to clear the interrupt. */
  datatype Handler = Idle | FlagSet

  datatype State = State(i: nat, kernel: Kernel, handler: Handler, flag: bool, pending: bool, handled: nat)

  function Start(flag: bool): State {
    State(0, Head, Idle, flag, false, 0)
  }

  /** One instruction of the kernel loop; the handler, when it runs, keeps the processor. */
  predicate KernelStep(s: State, t: State, total: nat) {
    && s.handler.Idle?
    && match s.kernel
       case Head => if s.i < total then t == s.(flag := false, kernel := Cleared) else t == s.(kernel := Done)
       case Cleared => t == s.(pending := true, kernel := Waiting)
       case Waiting => if s.flag then t == s.(i := s.i + 1, kernel := Head) else t == s
       case Done => t == s
  }

  /** The processor takes the pending interrupt; the handler's first instruction sets the flag. */
  predicate Deliver(s: State, t: State) {
    s.handler.Idle? && s.pending && t == s.(handler := FlagSet, flag := true)
  }

  /** The handler's second instruction clears the interrupt, and it returns. */
  predicate Acknowledge(s: State, t: State) {
    s.handler.FlagSet? && t == s.(handler := Idle, pending := false, handled := s.handled + 1)
  }

  predicate Next(s: State, t: State, total: nat) {
    KernelStep(s, t, total) || Deliver(s, t) || Acknowledge(s, t)
  }

  // Safety, over every interleaving.

  predicate Inv(s: State, total: nat) {
    && s.i <= total
    && match s.kernel
       case Head => s.handler.Idle? && !s.pending && s.handled == s.i
       case Cleared => s.handler.Idle? && !s.pending && s.handled == s.i && !s.flag && s.i < total
       case Waiting =>
         && s.i < total
         && (s.flag <==> s.handler.FlagSet? || !s.pending)
         && (s.handler.FlagSet? ==> s.pending)
         && s.handled == s.i + (if s.pending then 0 else 1)
       case Done => s.handler.Idle? && !s.pending && s.handled == s.i == total
  }

  /** A finite run: consecutive states of the interleaving. */
  ghost predicate IsRun(states: seq<State>, total: nat) {
    && states != [] && (exists flag :: states[0] == Start(flag))
    && forall k :: 0 <= k < |states| - 1 ==> Next(states[k], states[k + 1], total)
  }

  lemma {:induction false} InvHolds(states: seq<State>, total: nat)
    requires IsRun(states, total)
    ensures Inv(states[|states| - 1], total)
  {
    if |states| > 1 {
      var n := |states| - 1;
      forall k | 0 <= k < n - 1 ensures Next(states[..n][k], states[..n][k + 1], total) {
        assert Next(states[k], states[k + 1], total);
      }
      assert states[..n][0] == states[0];
      InvHolds(states[..n], total);
      assert Next(states[n - 1], states[n], total);
    }
  }

  /** At every loop head the handler has run exactly once per iteration and nothing is pending; while the loop
      spins, the interrupt is pending and can be taken, so no wake-up is lost; at the end there have been exactly
      `total` interrupts. */
  lemma Handshake(states: seq<State>, total: nat)
    requires IsRun(states, total)
    ensures var s := states[|states| - 1];
            && (s.kernel.Head? ==> s.handled == s.i && !s.pending && s.handler.Idle?)
            && (s.kernel.Waiting? && !s.flag ==> s.pending && s.handler.Idle? && s.handled == s.i)
            && (s.kernel.Done? ==> s.handled == total && !s.pending)
            && s.i <= s.handled <= s.i + 1
  {
    InvHolds(states, total);
  }

  // Liveness, for infinite runs in which a pending interrupt is eventually taken.

  predicate StepAt(run: nat -> State, total: nat, n: nat) {
    Next(run(n), run(n + 1), total)
  }

  ghost predicate IsInfiniteRun(run: nat -> State, total: nat) {
    (exists flag :: run(0) == Start(flag)) && forall n: nat :: StepAt(run, total, n)
  }

  predicate DeliverAt(run: nat -> State, n: nat) {
    Deliver(run(n), run(n + 1))
  }

  /** An interrupt can be taken. */
  predicate Deliverable(run: nat -> State, n: nat) {
    run(n).handler.Idle? && run(n).pending
  }

  ghost predicate Fair(run: nat -> State) {
    forall n: nat :: Deliverable(run, n) ==> exists m: nat :: n <= m && DeliverAt(run, m)
  }

  /** Instructions left until the loop is out. */
  function Rank(s: State, total: nat): nat {
    match s.kernel
    case Done => 0
    case Head => if s.i <= total then 5 * (total - s.i) + 1 else 0
    case Cleared => if s.i <= total then 5 * (total - s.i) else 0
    case Waiting =>
      if s.i >= total then 0
      else 5 * (total - s.i) - (if !s.flag then 1 else if s.handler.FlagSet? then 2 else 3)
  }

  /** Every step but a spin of the waiting loop, or idling after the end, gets closer to the end. */
  lemma StepProgress(s: State, t: State, total: nat)
    requires Inv(s, total) && Next(s, t, total)
    ensures Inv(t, total)
    ensures t == s || Rank(t, total) < Rank(s, total)
    ensures t == s ==> s.kernel.Done? || (s.kernel.Waiting? && s.handler.Idle? && s.pending)
  {
  }

  lemma {:induction false} InvAlways(run: nat -> State, total: nat, n: nat)
    requires IsInfiniteRun(run, total)
    ensures Inv(run(n), total)
  {
    if n > 0 {
      InvAlways(run, total, n - 1);
      assert StepAt(run, total, n - 1);
      StepProgress(run(n - 1), run(n), total);
    }
  }

  /** Before a delivery at m, some step from n on changes the state, and the first such leaves n's state. */
  lemma {:induction false} FirstChange(run: nat -> State, total: nat, n: nat, m: nat) returns (k: nat)
    requires IsInfiniteRun(run, total) && n <= m && DeliverAt(run, m)
    ensures n <= k <= m && run(k) == run(n) && run(k + 1) != run(k)
    decreases m - n
  {
    if run(n + 1) != run(n) {
      k := n;
    } else {
      assert n != m;
      k := FirstChange(run, total, n + 1, m);
    }
  }

  /** In a fair run the loop does not spin for ever. */
  lemma NextChange(run: nat -> State, total: nat, n: nat) returns (k: nat)
    requires IsInfiniteRun(run, total) && Fair(run) && !run(n).kernel.Done?
    ensures n <= k && run(k) == run(n) && run(k + 1) != run(k)
  {
    if run(n + 1) != run(n) { return n; }
    InvAlways(run, total, n);
    assert StepAt(run, total, n) && Deliverable(run, n) == (run(n).handler.Idle? && run(n).pending);
    StepProgress(run(n), run(n + 1), total);
    var m: nat :| n <= m && DeliverAt(run, m);
    k := FirstChange(run, total, n, m);
  }

  /** Every fair run leaves the loop, after exactly `total` interrupts. */
  lemma {:induction false} Terminates(run: nat -> State, total: nat, n: nat) returns (end: nat)
    requires IsInfiniteRun(run, total) && Fair(run)
    ensures n <= end && run(end).kernel.Done? && run(end).handled == total
    decreases Rank(run(n), total)
  {
    InvAlways(run, total, n);
    if run(n).kernel.Done? { return n; }
    var k := NextChange(run, total, n);
    assert StepAt(run, total, k);
    StepProgress(run(k), run(k + 1), total);
    end := Terminates(run, total, k + 1);
  }
}
