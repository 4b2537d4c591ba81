/**
 The elastic VRAM budget: requests are queued in any phase and committed only
 while idle, a grow walking down its ladder of rungs until one fits.
 */
module ElasticBudget {
  import opened Wrappers
  import opened Arithmetic

  datatype Phase = Idle | Prefill | Decode

  datatype Policy = Policy(minVramBytes: u64, maxVramBytes: u64, stepBytes: u64, headroomBytes: u64) {
    predicate Valid() {
      stepBytes > 0 && minVramBytes <= maxVramBytes
    }

    /** Measured free bytes that a grow may use. */
    function Usable(measuredFree: u64): u64 {
      if measuredFree < headroomBytes then 0 else measuredFree - headroomBytes
    }

    function Clamp(target: u64): u64
      requires minVramBytes <= maxVramBytes
    {
      Max(minVramBytes, Min(target, maxVramBytes))
    }
  }

  datatype Kind = Grow | Shrink

  datatype Adjustment = Adjustment(
    epoch: nat, kind: Kind, requestedBytes: u64, committedBytes: u64, rollbackRungs: u32, reason: string
  )

  datatype Pending = Pending(kind: Kind, targetBytes: u64, reason: string)

  datatype BudgetError = AlreadyPending | NotIdle | NothingPending | GrowRefused

  datatype Budget = Budget(
    policy: Policy, initialBytes: u64, phase: Phase, currentBytes: u64, epoch: nat, pending: Option<Pending>,
    log: seq<Adjustment>
  )

  // ---- the ladder ----------------------------------------------------------------

  function Rung(target: int, step: int, k: nat): int {
    target - k * step
  }

  /** Rung k lies above the current budget and needs no more than the usable bytes. */
  predicate RungFits(current: int, target: int, step: int, usable: int, k: nat) {
    Rung(target, step, k) > current && Rung(target, step, k) - current <= usable
  }

  /** k is the first rung that fits: the largest committable size on the ladder. */
  ghost predicate FirstRung(current: int, target: int, step: int, usable: int, k: nat) {
    RungFits(current, target, step, usable, k) && forall j: nat :: j < k ==> !RungFits(current, target, step, usable, j)
  }

  lemma NextRung(target: int, step: int, k: nat)
    ensures Rung(target, step, 0) == target
    ensures Rung(target, step, k + 1) == Rung(target, step, k) - step
  {
    assert (k + 1) * step == k * step + step;
  }

  lemma RungsDescend(target: int, step: int, j: nat, k: nat)
    requires step > 0 && j <= k
    ensures Rung(target, step, k) <= Rung(target, step, j)
    ensures j < k ==> Rung(target, step, k) <= Rung(target, step, j) - step
  {
    assert Rung(target, step, k) == Rung(target, step, j) - (k - j) * step;
    if j < k {
      MulAtLeast(k - j, step);
    }
  }

  /** So every fitting rung is at most the first one. */
  lemma FirstRungIsLargest(current: int, target: int, step: int, usable: int, k: nat, j: nat)
    requires step > 0 && FirstRung(current, target, step, usable, k) && RungFits(current, target, step, usable, j)
    ensures k <= j && Rung(target, step, j) <= Rung(target, step, k)
  {
    RungsDescend(target, step, k, if k <= j then j else k);
  }

  // ---- the invariant ---------------------------------------------------------------

  predicate InWindow(p: Policy, bytes: int) {
    p.minVramBytes <= bytes <= p.maxVramBytes
  }

  /** The budget before log entry i was committed. */
  function Before(b: Budget, i: nat): u64
    requires i <= |b.log|
  {
    if i == 0 then b.initialBytes else b.log[i - 1].committedBytes
  }

  /** Entry i moved the budget toward its request, and never past it. */
  ghost predicate EntryOk(b: Budget, i: nat)
    requires i < |b.log|
  {
    var e := b.log[i];
    && e.epoch == i + 1
    && InWindow(b.policy, e.committedBytes) && InWindow(b.policy, e.requestedBytes)
    && match e.kind
       case Grow =>
         && Before(b, i) < e.committedBytes <= e.requestedBytes
         && exists k: nat :: e.committedBytes == Rung(e.requestedBytes, b.policy.stepBytes, k)
              && e.rollbackRungs == k % TWO_32
       case Shrink => e.committedBytes == e.requestedBytes < Before(b, i) && e.rollbackRungs == 0
  }

  /** A pending request still points away from the current budget, in its own direction. */
  ghost predicate PendingOk(b: Budget) {
    b.pending.Some? ==>
      && InWindow(b.policy, b.pending.value.targetBytes)
      && match b.pending.value.kind
         case Grow => b.currentBytes < b.pending.value.targetBytes
         case Shrink => b.pending.value.targetBytes < b.currentBytes
  }

  ghost predicate Valid(b: Budget) {
    && b.policy.Valid()
    && InWindow(b.policy, b.currentBytes)
    && b.epoch == |b.log|
    && b.currentBytes == Before(b, |b.log|)
    && (forall i :: 0 <= i < |b.log| ==> EntryOk(b, i))
    && PendingOk(b)
  }

  // ---- the steps -------------------------------------------------------------------

  function Requested(b: Budget, targetBytes: u64, reason: string): (Budget, Result<(), BudgetError>)
    requires b.policy.Valid()
  {
    var target := b.policy.Clamp(targetBytes);
    if target == b.currentBytes then (b, Ok(()))
    else if b.pending.Some? then (b, Err(AlreadyPending))
    else
      var kind := if target > b.currentBytes then Grow else Shrink;
      (b.(pending := Some(Pending(kind, target, reason))), Ok(()))
  }

  /**
   Commit: only while idle and with a request pending, which is consumed.  A
   shrink always commits; a grow commits its first fitting rung, or is refused
   when no rung fits.
   */
  ghost predicate Committed(b: Budget, measuredFree: u64, c: Budget, r: Result<Adjustment, BudgetError>) {
    if b.phase != Idle then c == b && r == Err(NotIdle)
    else if b.pending.None? then c == b && r == Err(NothingPending)
    else
      var p, step, usable := b.pending.value, b.policy.stepBytes, b.policy.Usable(measuredFree);
      match r
      case Err(e) =>
        && e == GrowRefused && c == b.(pending := None)
        && p.kind == Grow && forall k: nat :: !RungFits(b.currentBytes, p.targetBytes, step, usable, k)
      case Ok(a) =>
        && a == Adjustment(b.epoch + 1, p.kind, p.targetBytes, a.committedBytes, a.rollbackRungs, p.reason)
        && c == b.(pending := None, currentBytes := a.committedBytes, epoch := b.epoch + 1, log := b.log + [a])
        && match p.kind
           case Shrink => a.committedBytes == p.targetBytes && a.rollbackRungs == 0
           case Grow =>
             exists k: nat ::
               && FirstRung(b.currentBytes, p.targetBytes, step, usable, k)
               && a.committedBytes == Rung(p.targetBytes, step, k) && a.rollbackRungs == k % TWO_32
  }

  function Distance(a: int, b: int): nat {
    if a < b then b - a else a - b
  }

  /** A size in the window with no other one nearer to what was asked for. */
  ghost predicate Nearest(p: Policy, asked: int, target: int) {
    && p.minVramBytes <= target <= p.maxVramBytes
    && forall x :: p.minVramBytes <= x <= p.maxVramBytes ==> Distance(target, asked) <= Distance(x, asked)
  }

  lemma NearestIsUnique(p: Policy, asked: u64, x: int, y: int)
    requires Nearest(p, asked, x) && Nearest(p, asked, y)
    ensures x == y
  {
    assert Distance(asked, asked) == 0;
    assert Distance(x, asked) == Distance(y, asked);
  }

  /**
   What is queued is the size in the window nearest to the one asked for, as a grow
   or a shrink by where it lies; the current size asks for nothing, whatever is
   pending, and any other is refused while something is.
   */
  lemma RequestIs(b: Budget, asked: u64, reason: string) returns (target: u64)
    requires Valid(b)
    ensures Nearest(b.policy, asked, target)
    ensures var (c, r) := Requested(b, asked, reason);
            && (r.Ok? <==> target == b.currentBytes || b.pending.None?)
            && (r.Err? ==> c == b && r.error == AlreadyPending)
            && (target == b.currentBytes ==> c == b)
            && (target > b.currentBytes && b.pending.None? ==>
                  c == Budget(b.policy, b.initialBytes, b.phase, b.currentBytes, b.epoch,
                              Some(Pending(Grow, target, reason)), b.log))
            && (target < b.currentBytes && b.pending.None? ==>
                  c == Budget(b.policy, b.initialBytes, b.phase, b.currentBytes, b.epoch,
                              Some(Pending(Shrink, target, reason)), b.log))
  {
    target := b.policy.Clamp(asked);
  }

  lemma RequestKeepsValid(b: Budget, targetBytes: u64, reason: string)
    requires Valid(b)
    ensures Valid(Requested(b, targetBytes, reason).0)
  {
    SameLog(b, Requested(b, targetBytes, reason).0);
  }

  lemma SameLog(b: Budget, c: Budget)
    requires b.log == c.log && b.policy == c.policy && b.initialBytes == c.initialBytes
    requires forall i :: 0 <= i < |b.log| ==> EntryOk(b, i)
    ensures forall i :: 0 <= i < |c.log| ==> EntryOk(c, i)
  {
    forall i | 0 <= i < |c.log| ensures EntryOk(c, i) {
      assert EntryOk(b, i);
    }
  }

  lemma CommitKeepsValid(b: Budget, measuredFree: u64, c: Budget, r: Result<Adjustment, BudgetError>)
    requires Valid(b) && Committed(b, measuredFree, c, r)
    ensures Valid(c)
  {
    if r.Ok? {
      var a, p := r.value, b.pending.value;
      forall i | 0 <= i < |c.log| ensures EntryOk(c, i) {
        if i < |b.log| {
          assert EntryOk(b, i);
          assert Before(c, i) == Before(b, i);
        } else if p.kind == Grow {
          var k: nat :| FirstRung(b.currentBytes, p.targetBytes, b.policy.stepBytes, b.policy.Usable(measuredFree), k)
                        && a.committedBytes == Rung(p.targetBytes, b.policy.stepBytes, k)
                        && a.rollbackRungs == k % TWO_32;
          RungsDescend(p.targetBytes, b.policy.stepBytes, 0, k);
        }
      }
    } else {
      SameLog(b, c);
    }
  }

  /** A committed grow leaves at least the headroom of the measured free bytes unused. */
  lemma HeadroomIsPreserved(b: Budget, measuredFree: u64, c: Budget, a: Adjustment)
    requires Valid(b) && Committed(b, measuredFree, c, Ok(a)) && a.kind == Grow
    ensures measuredFree - (c.currentBytes - b.currentBytes) >= b.policy.headroomBytes
  {
  }

  /**
   A size k steps below the target, above the current one, whose grow leaves the headroom of the measured bytes
   free.
   */
  ghost predicate SafeRung(b: Budget, target: int, measuredFree: int, size: int, k: nat) {
    && size == target - k * b.policy.stepBytes && size > b.currentBytes
    && measuredFree - (size - b.currentBytes) >= b.policy.headroomBytes
  }

  /**
   A grow that reaches its commit takes the largest safe size on its ladder, and is refused exactly when there is
   none.
   */
  lemma GrowTakesLargestSafe(b: Budget, measuredFree: u64, c: Budget, r: Result<Adjustment, BudgetError>)
    requires Valid(b) && b.phase == Idle && b.pending.Some? && b.pending.value.kind == Grow
    requires Committed(b, measuredFree, c, r)
    ensures var target := b.pending.value.targetBytes;
            && (r.Err? <==> forall size, k :: !SafeRung(b, target, measuredFree, size, k))
            && (r.Ok? ==>
                  && (exists k :: SafeRung(b, target, measuredFree, c.currentBytes, k))
                  && forall size, k :: SafeRung(b, target, measuredFree, size, k) ==> size <= c.currentBytes)
  {
    var target, step, usable := b.pending.value.targetBytes, b.policy.stepBytes, b.policy.Usable(measuredFree);
    forall size, k: nat
      ensures SafeRung(b, target, measuredFree, size, k)
              <==> size == Rung(target, step, k) && RungFits(b.currentBytes, target, step, usable, k)
    {
    }
    if r.Ok? {
      var k := GrowsToRung(b, measuredFree, c, r.value);
      assert SafeRung(b, target, measuredFree, c.currentBytes, k);
      forall size, j: nat | SafeRung(b, target, measuredFree, size, j) ensures size <= c.currentBytes {
        FirstRungIsLargest(b.currentBytes, target, step, usable, k, j);
      }
    }
  }

  /** The first fitting rung is within u32 exactly when that many steps bring the grow within the usable bytes. */
  lemma RungCountFits(current: int, target: int, step: int, usable: int, k: nat)
    requires step > 0 && FirstRung(current, target, step, usable, k)
    ensures k < TWO_32 <==> target - current - usable <= (TWO_32 - 1) * step
  {
    if k < TWO_32 {
      RungsDescend(target, step, k, TWO_32 - 1);
    } else {
      RungsDescend(target, step, TWO_32 - 1, k - 1);
      NextRung(target, step, k - 1);
      assert !RungFits(current, target, step, usable, k - 1);
    }
  }

  lemma SameRung(target: int, step: int, j: nat, k: nat)
    requires step > 0 && Rung(target, step, j) == Rung(target, step, k)
    ensures j == k
  {
    RungsDescend(target, step, Min(j, k), Max(j, k));
  }

  lemma GrowsToRung(b: Budget, measuredFree: u64, c: Budget, a: Adjustment) returns (k: nat)
    requires Valid(b) && Committed(b, measuredFree, c, Ok(a)) && a.kind == Grow
    ensures b.pending.Some? && b.policy.stepBytes > 0
    ensures var target, step := b.pending.value.targetBytes, b.policy.stepBytes;
            && FirstRung(b.currentBytes, target, step, b.policy.Usable(measuredFree), k)
            && a.committedBytes == Rung(target, step, k) && a.rollbackRungs == k % TWO_32
  {
    hide FirstRung, Rung;
    var target, step, usable := b.pending.value.targetBytes, b.policy.stepBytes, b.policy.Usable(measuredFree);
    k :| FirstRung(b.currentBytes, target, step, usable, k)
         && a.committedBytes == Rung(target, step, k) && a.rollbackRungs == k % TWO_32;
  }

  /** Whether the recorded rung count is right is decided before the commit; u32 wraps exactly beyond. */
  lemma RecordedRungs(b: Budget, measuredFree: u64, c: Budget, a: Adjustment)
    requires Valid(b) && Committed(b, measuredFree, c, Ok(a)) && a.kind == Grow
    ensures a.committedBytes == Rung(b.pending.value.targetBytes, b.policy.stepBytes, a.rollbackRungs)
            <==> b.pending.value.targetBytes - b.currentBytes - b.policy.Usable(measuredFree)
                 <= (TWO_32 - 1) * b.policy.stepBytes
  {
    var target, step, usable := b.pending.value.targetBytes, b.policy.stepBytes, b.policy.Usable(measuredFree);
    var k := GrowsToRung(b, measuredFree, c, a);
    hide FirstRung, Rung, Valid, Committed;
    RungCountFits(b.currentBytes, target, step, usable, k);
    if a.committedBytes == Rung(target, step, a.rollbackRungs) {
      SameRung(target, step, k, a.rollbackRungs);
    }
  }

  /** One byte a step, one byte free, and a target of 2^32 + 1 bytes. */
  function ManyRungs(): Budget {
    Budget(Policy(0, TWO_64 - 1, 1, 0), 0, Idle, 0, 0, Some(Pending(Grow, TWO_32 + 1, "")), [])
  }

  /** That grow goes down 2^32 rungs and records none. */
  lemma RungsWrap()
    ensures var b, a := ManyRungs(), Adjustment(1, Grow, TWO_32 + 1, 1, 0, "");
            && Valid(b) && Committed(b, 1, b.(pending := None, currentBytes := 1, epoch := 1, log := [a]), Ok(a))
            && a.committedBytes == Rung(a.requestedBytes, b.policy.stepBytes, TWO_32)
            && a.committedBytes != Rung(a.requestedBytes, b.policy.stepBytes, a.rollbackRungs)
  {
    var b, a := ManyRungs(), Adjustment(1, Grow, TWO_32 + 1, 1, 0, "");
    assert FirstRung(0, TWO_32 + 1, 1, b.policy.Usable(1), TWO_32);
    assert b.log + [a] == [a];
  }

  /** The state, the request and the measurement determine the outcome of a commit. */
  lemma CommitIsDetermined(
    b: Budget, measuredFree: u64, c: Budget, r: Result<Adjustment, BudgetError>, d: Budget,
    q: Result<Adjustment, BudgetError>
  )
    requires Valid(b) && Committed(b, measuredFree, c, r) && Committed(b, measuredFree, d, q)
    ensures c == d && r == q
  {
    if r.Ok? && q.Ok? && b.pending.value.kind == Grow {
      var target, step, usable := b.pending.value.targetBytes, b.policy.stepBytes, b.policy.Usable(measuredFree);
      var j: nat :| FirstRung(b.currentBytes, target, step, usable, j)
                    && r.value.committedBytes == Rung(target, step, j) && r.value.rollbackRungs == j % TWO_32;
      var k: nat :| FirstRung(b.currentBytes, target, step, usable, k)
                    && q.value.committedBytes == Rung(target, step, k) && q.value.rollbackRungs == k % TWO_32;
      assert j == k;
    }
  }

  // ---- runs ------------------------------------------------------------------------

  ghost predicate Step(b: Budget, c: Budget) {
    || (exists target, reason :: b.policy.Valid() && c == Requested(b, target, reason).0)
    || (exists free, r :: Committed(b, free, c, r))
    || (exists phase :: c == b.(phase := phase))
    || c == b.(pending := None)
  }

  ghost predicate Run(states: seq<Budget>) {
    && states != [] && Valid(states[0])
    && forall i :: 0 < i < |states| ==> Step(states[i - 1], states[i])
  }

  lemma StepKeepsValid(b: Budget, c: Budget)
    requires Valid(b) && Step(b, c)
    ensures Valid(c) && b.log <= c.log && c.policy == b.policy && c.initialBytes == b.initialBytes
    ensures b.phase != Idle ==> c.log == b.log && c.currentBytes == b.currentBytes
  {
    if target, reason :| b.policy.Valid() && c == Requested(b, target, reason).0 {
      RequestKeepsValid(b, target, reason);
    } else if free, r :| Committed(b, free, c, r) {
      CommitKeepsValid(b, free, c, r);
    } else {
      SameLog(b, c);
    }
  }

  /**
   In every run the budget stays in its window, the epoch counts the log, the
   log's last entry is the current budget, and the log only grows.
   */
  lemma {:induction false} RunKeepsValid(states: seq<Budget>, n: nat)
    requires Run(states) && n < |states|
    ensures Valid(states[n]) && states[0].log <= states[n].log && states[0].policy == states[n].policy
    decreases n
  {
    if n > 0 {
      RunKeepsValid(states, n - 1);
      assert Step(states[n - 1], states[n]);
      StepKeepsValid(states[n - 1], states[n]);
    }
  }

  // ---- the object ------------------------------------------------------------------

  class ElasticVramBudget {
    const policy: Policy
    ghost const initialBytes: u64
    var phase: Phase
    var currentBytes: u64
    var epoch: nat
    var pending: Option<Pending>
    var log: seq<Adjustment>

    ghost function View(): Budget
      reads this
    {
      Budget(policy, initialBytes, phase, currentBytes, epoch, pending, log)
    }

    constructor (policy: Policy, initialBytes: u64)
      requires policy.Valid() && InWindow(policy, initialBytes)
      ensures Valid(View()) && View() == Budget(policy, initialBytes, Idle, initialBytes, 0, None, [])
    {
      this.policy := policy;
      this.initialBytes := initialBytes;
      phase := Idle;
      currentBytes := initialBytes;
      epoch := 0;
      pending := None;
      log := [];
    }

    static method New(policy: Policy, initialBytes: u64) returns (r: Option<ElasticVramBudget>)
      ensures r.Some? <==> policy.stepBytes > 0 && policy.minVramBytes <= initialBytes <= policy.maxVramBytes
      ensures r.Some? ==>
                && fresh(r.value)
                && r.value.View() == Budget(policy, initialBytes, Idle, initialBytes, 0, None, [])
      ensures r.Some? ==> Valid(r.value.View())
    {
      if !policy.Valid() || !InWindow(policy, initialBytes) {
        return None;
      }
      var budget := new ElasticVramBudget(policy, initialBytes);
      r := Some(budget);
    }

    method SetPhase(phase: Phase)
      requires Valid(View())
      modifies this
      ensures Valid(View()) && View() == old(View()).(phase := phase)
    {
      ghost var before := View();
      this.phase := phase;
      SameLog(before, View());
    }

    method CancelPending()
      requires Valid(View())
      modifies this
      ensures Valid(View()) && View() == old(View()).(pending := None)
    {
      ghost var before := View();
      pending := None;
      SameLog(before, View());
    }

    method Request(targetBytes: u64, reason: string) returns (r: Result<(), BudgetError>)
      requires Valid(View())
      modifies this
      ensures Valid(View()) && (View(), r) == Requested(old(View()), targetBytes, reason)
    {
      RequestKeepsValid(View(), targetBytes, reason);
      var target := policy.Clamp(targetBytes);
      var kind := if target >= currentBytes then Grow else Shrink;
      if target == currentBytes {
        return Ok(());
      }
      if pending.Some? {
        return Err(AlreadyPending);
      }
      pending := Some(Pending(kind, target, reason));
      r := Ok(());
    }

    /** Walk down from the target until a rung fits or the current budget is reached. */
    method WalkLadder(target: u64, usable: u64) returns (candidate: u64, rungs: u32)
      requires policy.stepBytes > 0 && currentBytes < target
      ensures candidate == currentBytes
              ==> forall k: nat :: !RungFits(currentBytes, target, policy.stepBytes, usable, k)
      ensures candidate != currentBytes ==>
                exists k: nat ::
                  && FirstRung(currentBytes, target, policy.stepBytes, usable, k)
                  && candidate == Rung(target, policy.stepBytes, k) && rungs == k % TWO_32
    {
      hide Rung;
      candidate, rungs := target, 0;
      ghost var k: nat := 0;
      NextRung(target, policy.stepBytes, 0);
      while true
        invariant currentBytes <= candidate && candidate == Max(Rung(target, policy.stepBytes, k), currentBytes)
        invariant rungs == k % TWO_32
        invariant forall j: nat :: j < k ==> !RungFits(currentBytes, target, policy.stepBytes, usable, j)
        decreases candidate - currentBytes
      {
        var delta := candidate - currentBytes;
        if delta <= usable || candidate == currentBytes {
          break;
        }
        assert !RungFits(currentBytes, target, policy.stepBytes, usable, k);
        NextRung(target, policy.stepBytes, k);
        candidate := Max(if candidate < policy.stepBytes then 0 else candidate - policy.stepBytes, currentBytes);
        rungs := (rungs + 1) % TWO_32;
        k := k + 1;
      }
      if candidate == currentBytes {
        forall j: nat ensures !RungFits(currentBytes, target, policy.stepBytes, usable, j) {
          if j >= k {
            RungsDescend(target, policy.stepBytes, k, j);
          }
        }
      }
    }

    method CommitIdle(measuredFree: u64) returns (r: Result<Adjustment, BudgetError>)
      requires Valid(View())
      modifies this
      ensures Valid(View()) && Committed(old(View()), measuredFree, View(), r)
    {
      ghost var before := View();
      if phase != Idle {
        return Err(NotIdle);
      }
      if pending.None? {
        return Err(NothingPending);
      }
      var request := pending.value;
      pending := None;
      var rollbackRungs: u32 := 0;
      var committed: u64;
      match request.kind {
        case Shrink => committed := request.targetBytes;
        case Grow => committed, rollbackRungs := WalkLadder(request.targetBytes, policy.Usable(measuredFree));
      }
      if committed == currentBytes {
        r := Err(GrowRefused);
        CommitKeepsValid(before, measuredFree, View(), r);
        return;
      }
      currentBytes := committed;
      epoch := epoch + 1;
      var record := Adjustment(epoch, request.kind, request.targetBytes, committed, rollbackRungs, request.reason);
      log := log + [record];
      r := Ok(record);
      CommitKeepsValid(before, measuredFree, View(), r);
    }
  }
}
