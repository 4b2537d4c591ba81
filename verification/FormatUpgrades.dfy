/** Spending spare bytes on measured upgrades, best loss-per-byte first. */
module FormatUpgrades {
  import opened Wrappers
  import opened FormatSpecs
  import opened FormatOffers

  datatype Choice = Choice(
    tensorId: string,
    format: string,
    bytes: nat,
    loss: Option<real>,
    behavioral: bool,
    isProtected: bool,
    routedBytes: nat,
    kernel: string)

  /** What the upgrade loop reads and never changes. */
  datatype Setting = Setting(tensors: seq<Tensor>, policy: Policy, evidence: Evidence)

  function FindTensor(tensors: seq<Tensor>, id: string): (r: Option<Tensor>)
    ensures r.Some? ==> r.value in tensors && r.value.id == id
    ensures r.None? ==> forall k :: 0 <= k < |tensors| ==> tensors[k].id != id
  {
    if tensors == [] then None
    else if tensors[0].id == id then Some(tensors[0])
    else FindTensor(tensors[1..], id)
  }

  function LossOf(choice: Choice): real {
    if choice.loss.Some? then choice.loss.value else 1.0
  }

  function Routed(tensor: Tensor, bytes: nat): nat {
    if tensor.role.IsRoutedExpert() then bytes else 0
  }

  datatype Upgrade = Upgrade(choice: Choice, score: real)

  /** The upgrade of a choice to a candidate format, if it is measured, lowers the loss and fits. */
  function UpgradeOf(s: Setting, current: Choice, candidate: string, remaining: nat): Option<Upgrade> {
    var found := FindTensor(s.tensors, current.tensorId);
    if found.None? || Spec(current.format).None? || Spec(candidate).None? then None
    else
      var tensor, spec := found.value, Spec(candidate).value;
      if spec.bits <= Spec(current.format).value.bits || spec.name == current.format then None
      else
        match LossFor(s.evidence, tensor.id, candidate)
        case None => None
        case Some(loss) =>
          var bytes := QuantizedBytes(spec, tensor.elements);
          if bytes <= current.bytes || bytes - current.bytes > remaining then None
          else if LossOf(current) - loss <= 0.0 then None
          else
            Some(Upgrade(Choice(tensor.id, spec.name, bytes, Some(loss), true, current.isProtected,
                                Routed(tensor, bytes),
                                KernelFor(spec.name, s.policy.backend)),
                         (LossOf(current) - loss) / (bytes - current.bytes) as real))
  }

  /** What every upgrade does: same tensor, more bits, more bytes that still fit, and a strictly lower loss. */
  lemma UpgradeImproves(s: Setting, current: Choice, candidate: string, remaining: nat)
    requires UpgradeOf(s, current, candidate, remaining).Some?
    ensures var next := UpgradeOf(s, current, candidate, remaining).value.choice;
            && next.tensorId == current.tensorId && next.isProtected == current.isProtected
            && Spec(current.format).Some? && Spec(next.format).Some?
            && Spec(current.format).value.bits < Spec(next.format).value.bits <= TOP_BITS
            && current.bytes < next.bytes <= current.bytes + remaining
            && next.loss.Some? && LossOf(next) < LossOf(current)
            && UpgradeOf(s, current, candidate, remaining).value.score > 0.0
  {
    SpecFacts(candidate);
    hide Spec, QuantizedBytes, KernelFor, LossFor;
    var gain, extra := LossOf(current) - LossFor(s.evidence, current.tensorId, candidate).value,
                       UpgradeOf(s, current, candidate, remaining).value.choice.bytes - current.bytes;
    PositiveQuotient(gain, extra as real);
  }

  lemma PositiveQuotient(a: real, b: real)
    requires a > 0.0 && b > 0.0
    ensures a / b > 0.0
  {
  }

  // ---- the best upgrade ------------------------------------------------------------------

  datatype Pick = Pick(index: nat, upgrade: Upgrade)

  function Better(best: Option<Pick>, index: nat, offered: Option<Upgrade>): Option<Pick> {
    if offered.Some? && (best.None? || offered.value.score > best.value.upgrade.score) then
      Some(Pick(index, offered.value))
    else best
  }

  /** The best pick among all candidates for choices before the i-th and the first c candidates for the i-th. */
  function BestBefore(s: Setting, choices: seq<Choice>, remaining: nat, i: nat, c: nat): (r: Option<Pick>)
    requires i <= |choices| && c <= |s.policy.Candidates()| && (i == |choices| ==> c == 0)
    decreases i, c
  {
    if c > 0 then
      Better(BestBefore(s, choices, remaining, i, c - 1), i,
             UpgradeOf(s, choices[i], s.policy.Candidates()[c - 1], remaining))
    else if i > 0 then BestBefore(s, choices, remaining, i - 1, |s.policy.Candidates()|)
    else None
  }

  function BestUpgrade(s: Setting, choices: seq<Choice>, remaining: nat): Option<Pick> {
    BestBefore(s, choices, remaining, |choices|, 0)
  }

  method FindBestUpgrade(s: Setting, choices: seq<Choice>, remaining: nat) returns (best: Option<Pick>)
    ensures best == BestUpgrade(s, choices, remaining)
  {
    hide UpgradeOf;
    var candidates := s.policy.Candidates();
    best := None;
    for i := 0 to |choices|
      invariant best == BestBefore(s, choices, remaining, i, 0)
    {
      for c := 0 to |candidates|
        invariant best == BestBefore(s, choices, remaining, i, c)
      {
        var offered := UpgradeOf(s, choices[i], candidates[c], remaining);
        if offered.Some? && (best.None? || offered.value.score > best.value.upgrade.score) {
          best := Some(Pick(i, offered.value));
        }
      }
    }
  }

  /** Choice k and candidate d come before (i, c). */
  predicate Earlier(k: int, d: int, i: int, c: int) {
    k < i || (k == i && d < c)
  }

  ghost predicate InRange(s: Setting, choices: seq<Choice>, k: int, d: int) {
    0 <= k < |choices| && 0 <= d < |s.policy.Candidates()|
  }

  ghost function At(s: Setting, choices: seq<Choice>, remaining: nat, k: int, d: int): Option<Upgrade>
    requires InRange(s, choices, k, d)
  {
    UpgradeOf(s, choices[k], s.policy.Candidates()[d], remaining)
  }

  /** The pick stands at (k, d), no earlier upgrade scores as much, and none before (i, c) scores more. */
  ghost predicate FirstMax(s: Setting, choices: seq<Choice>, remaining: nat, i: nat, c: nat, p: Pick, d: nat) {
    && InRange(s, choices, p.index, d) && Earlier(p.index, d, i, c)
    && At(s, choices, remaining, p.index, d) == Some(p.upgrade)
    && forall k, e :: InRange(s, choices, k, e) && Earlier(k, e, i, c) && At(s, choices, remaining, k, e).Some? ==>
         if Earlier(k, e, p.index, d) then At(s, choices, remaining, k, e).value.score < p.upgrade.score
         else At(s, choices, remaining, k, e).value.score <= p.upgrade.score
  }

  ghost predicate NoneEarlier(s: Setting, choices: seq<Choice>, remaining: nat, i: nat, c: nat) {
    forall k, e :: InRange(s, choices, k, e) && Earlier(k, e, i, c) ==> At(s, choices, remaining, k, e).None?
  }

  lemma {:induction false} BestIsFirstMax(
    s: Setting, choices: seq<Choice>, remaining: nat, i: nat, c: nat
  ) returns (d: nat)
    requires i <= |choices| && c <= |s.policy.Candidates()| && (i == |choices| ==> c == 0)
    ensures var best := BestBefore(s, choices, remaining, i, c);
            if best.None? then NoneEarlier(s, choices, remaining, i, c)
            else FirstMax(s, choices, remaining, i, c, best.value, d)
    decreases i, c
  {
    hide UpgradeOf;
    if c > 0 {
      d := BestIsFirstMax(s, choices, remaining, i, c - 1);
      var before, here := BestBefore(s, choices, remaining, i, c - 1), At(s, choices, remaining, i, c - 1);
      OneMore(s, choices, remaining, i, c, before, d);
      if here.Some? && (before.None? || here.value.score > before.value.upgrade.score) {
        d := c - 1;
      }
    } else if i > 0 {
      d := BestIsFirstMax(s, choices, remaining, i - 1, |s.policy.Candidates()|);
      NextRow(s, choices, remaining, i, BestBefore(s, choices, remaining, i, c), d);
    } else {
      d := 0;
    }
  }

  lemma OneMore(s: Setting, choices: seq<Choice>, remaining: nat, i: nat, c: nat, before: Option<Pick>, d: nat)
    requires i < |choices| && 0 < c <= |s.policy.Candidates()|
    requires if before.None? then NoneEarlier(s, choices, remaining, i, c - 1)
             else FirstMax(s, choices, remaining, i, c - 1, before.value, d)
    ensures var here := At(s, choices, remaining, i, c - 1);
            var best := Better(before, i, here);
            var better := here.Some? && (before.None? || here.value.score > before.value.upgrade.score);
            var d' := if better then c - 1 else d;
            if best.None? then NoneEarlier(s, choices, remaining, i, c)
            else FirstMax(s, choices, remaining, i, c, best.value, d')
  {
    hide At;
    forall k, e | InRange(s, choices, k, e) && Earlier(k, e, i, c)
      ensures Earlier(k, e, i, c - 1) || (k == i && e == c - 1)
    {
    }
  }

  lemma NextRow(s: Setting, choices: seq<Choice>, remaining: nat, i: nat, best: Option<Pick>, d: nat)
    requires 0 < i <= |choices|
    requires var m := |s.policy.Candidates()|;
             if best.None? then NoneEarlier(s, choices, remaining, i - 1, m)
             else FirstMax(s, choices, remaining, i - 1, m, best.value, d)
    ensures if best.None? then NoneEarlier(s, choices, remaining, i, 0)
            else FirstMax(s, choices, remaining, i, 0, best.value, d)
  {
    hide At;
    forall k, e | InRange(s, choices, k, e) && Earlier(k, e, i, 0)
      ensures Earlier(k, e, i - 1, |s.policy.Candidates()|)
    {
    }
  }

  /** No measured, loss-lowering upgrade of any choice fits the remaining bytes. */
  ghost predicate NothingFits(s: Setting, choices: seq<Choice>, remaining: nat) {
    forall k, d :: InRange(s, choices, k, d) ==> At(s, choices, remaining, k, d).None?
  }

  /** The best upgrade is the first with the highest score, and there is none exactly when nothing fits. */
  lemma BestUpgradeIs(s: Setting, choices: seq<Choice>, remaining: nat) returns (d: nat)
    ensures var best := BestUpgrade(s, choices, remaining);
            && (best.None? <==> NothingFits(s, choices, remaining))
            && (best.Some? ==> FirstMax(s, choices, remaining, |choices|, 0, best.value, d))
  {
    hide UpgradeOf, BestBefore;
    d := BestIsFirstMax(s, choices, remaining, |choices|, 0);
    var best := BestUpgrade(s, choices, remaining);
    if best.Some? {
      assert InRange(s, choices, best.value.index, d) && At(s, choices, remaining, best.value.index, d).Some?;
    }
  }

  // ---- the loop -----------------------------------------------------------------------------

  function Total(choices: seq<Choice>): nat {
    if choices == [] then 0 else Total(choices[..|choices| - 1]) + choices[|choices| - 1].bytes
  }

  function Remaining(s: Setting, choices: seq<Choice>): nat {
    if Total(choices) <= s.policy.Budget() then s.policy.Budget() - Total(choices) else 0
  }

  function BitsBelowTop(choice: Choice): nat {
    if Spec(choice.format).Some? && Spec(choice.format).value.bits < TOP_BITS then
      TOP_BITS - Spec(choice.format).value.bits
    else 0
  }

  /** How far all choices together are from the top format: every round brings it down. */
  function Headroom(choices: seq<Choice>): nat {
    if choices == [] then 0 else Headroom(choices[..|choices| - 1]) + BitsBelowTop(choices[|choices| - 1])
  }

  lemma {:induction false} ReplacedSums(choices: seq<Choice>, i: nat, choice: Choice)
    requires i < |choices|
    ensures Total(choices[i := choice]) == Total(choices) - choices[i].bytes + choice.bytes
    ensures Headroom(choices[i := choice]) == Headroom(choices) - BitsBelowTop(choices[i]) + BitsBelowTop(choice)
  {
    hide BitsBelowTop;
    var last := |choices| - 1;
    if i < last {
      ReplacedSums(choices[..last], i, choice);
      assert choices[i := choice][..last] == choices[..last][i := choice];
    } else {
      assert choices[i := choice][..last] == choices[..last];
    }
  }

  /** One round: some choice is upgraded, with all that an upgrade means. */
  ghost predicate Round(s: Setting, choices: seq<Choice>, p: Pick) {
    && p.index < |choices|
    && exists d :: 0 <= d < |s.policy.Candidates()|
                   && UpgradeOf(s, choices[p.index], s.policy.Candidates()[d], Remaining(s, choices)) == Some(p.upgrade)
  }

  lemma PickIsRound(s: Setting, choices: seq<Choice>)
    ensures var best := BestUpgrade(s, choices, Remaining(s, choices));
            best.Some? ==> best.value.index < |choices| && Round(s, choices, best.value)
  {
    hide UpgradeOf, BestUpgrade;
    var d := BestUpgradeIs(s, choices, Remaining(s, choices));
    var best := BestUpgrade(s, choices, Remaining(s, choices));
    if best.Some? {
      assert 0 <= d < |s.policy.Candidates()|;
    }
  }

  /** A round brings the headroom down, takes only bytes that remain, and leaves an over-budget plan alone. */
  lemma RoundProgress(s: Setting, choices: seq<Choice>, p: Pick)
    requires Round(s, choices, p)
    ensures var choices' := choices[p.index := p.upgrade.choice];
            && Headroom(choices') < Headroom(choices)
            && Total(choices) < Total(choices') <= s.policy.Budget()
  {
    hide UpgradeOf, Spec, Total;
    var d :| 0 <= d < |s.policy.Candidates()|
             && UpgradeOf(s, choices[p.index], s.policy.Candidates()[d], Remaining(s, choices)) == Some(p.upgrade);
    UpgradeImproves(s, choices[p.index], s.policy.Candidates()[d], Remaining(s, choices));
    ReplacedSums(choices, p.index, p.upgrade.choice);
  }

  /** The whole loop. */
  function Upgraded(s: Setting, choices: seq<Choice>): seq<Choice>
    decreases Headroom(choices)
  {
    match BestUpgrade(s, choices, Remaining(s, choices))
    case None => choices
    case Some(p) =>
      PickIsRound(s, choices);
      RoundProgress(s, choices, p);
      Upgraded(s, choices[p.index := p.upgrade.choice])
  }

  lemma UpgradedUnfolds(s: Setting, choices: seq<Choice>)
    ensures var best := BestUpgrade(s, choices, Remaining(s, choices));
            if best.None? then Upgraded(s, choices) == choices
            else
              best.value.index < |choices|
              && Upgraded(s, choices) == Upgraded(s, choices[best.value.index := best.value.upgrade.choice])
  {
    hide BestUpgrade, Round, Remaining;
    PickIsRound(s, choices);
  }

  method SumBytes(choices: seq<Choice>) returns (total: nat)
    ensures total == Total(choices)
  {
    total := 0;
    for i := 0 to |choices|
      invariant total == Total(choices[..i])
    {
      assert choices[..i + 1][..i] == choices[..i];
      total := total + choices[i].bytes;
    }
    assert choices[..|choices|] == choices;
  }

  method SpendSpareBytes(s: Setting, start: seq<Choice>) returns (choices: seq<Choice>)
    ensures choices == Upgraded(s, start)
  {
    hide BestUpgrade, Round, Upgraded, Headroom, Total;
    choices := start;
    var done := false;
    while !done
      invariant Upgraded(s, start) == if done then choices else Upgraded(s, choices)
      decreases !done, Headroom(choices)
    {
      var total := SumBytes(choices);
      var remaining := if total <= s.policy.Budget() then s.policy.Budget() - total else 0;
      var best := FindBestUpgrade(s, choices, remaining);
      PickIsRound(s, choices);
      UpgradedUnfolds(s, choices);
      if best.Some? {
        RoundProgress(s, choices, best.value);
        choices := choices[best.value.index := best.value.upgrade.choice];
      } else {
        done := true;
      }
    }
  }

  // ---- what the loop keeps and reaches -----------------------------------------------------------

  /** A plan within budget stays within it, and one over budget is not touched. */
  lemma {:induction false} UpgradesKeepBudget(s: Setting, choices: seq<Choice>)
    ensures Total(choices) <= Total(Upgraded(s, choices))
    ensures Total(choices) <= s.policy.Budget() ==> Total(Upgraded(s, choices)) <= s.policy.Budget()
    ensures Total(choices) > s.policy.Budget() ==> Upgraded(s, choices) == choices
    decreases Headroom(choices)
  {
    hide BestUpgrade, Round, Total;
    PickIsRound(s, choices);
    var best := BestUpgrade(s, choices, Remaining(s, choices));
    if best.Some? {
      RoundProgress(s, choices, best.value);
      UpgradesKeepBudget(s, choices[best.value.index := best.value.upgrade.choice]);
    }
  }

  /** The loop stops only when nothing more fits. */
  lemma {:induction false} UpgradesExhaust(s: Setting, choices: seq<Choice>)
    ensures var end := Upgraded(s, choices); NothingFits(s, end, Remaining(s, end))
    decreases Headroom(choices)
  {
    hide BestUpgrade, Round, Remaining, NothingFits;
    PickIsRound(s, choices);
    var best := BestUpgrade(s, choices, Remaining(s, choices));
    if best.Some? {
      RoundProgress(s, choices, best.value);
      UpgradesExhaust(s, choices[best.value.index := best.value.upgrade.choice]);
    } else {
      var _ := BestUpgradeIs(s, choices, Remaining(s, choices));
    }
  }

  /** A choice's bytes are those its format takes for its tensor, and its routed bytes follow. */
  ghost predicate BytesExact(s: Setting, choice: Choice) {
    var found := FindTensor(s.tensors, choice.tensorId);
    && found.Some? && Spec(choice.format).Some?
    && choice.bytes == QuantizedBytes(Spec(choice.format).value, found.value.elements)
    && choice.routedBytes == Routed(found.value, choice.bytes)
    && choice.kernel == KernelFor(choice.format, s.policy.backend)
  }

  lemma UpgradeIsExact(s: Setting, current: Choice, candidate: string, remaining: nat)
    requires UpgradeOf(s, current, candidate, remaining).Some?
    ensures BytesExact(s, UpgradeOf(s, current, candidate, remaining).value.choice)
  {
    SpecFacts(candidate);
    hide Spec, QuantizedBytes, KernelFor, LossFor, Routed;
  }

  /** How a later choice stands to an earlier one for the same tensor. */
  ghost predicate Improves(s: Setting, before: Choice, after: Choice) {
    && after.tensorId == before.tensorId && after.isProtected == before.isProtected
    && (after == before
        || (&& Spec(before.format).Some? && Spec(after.format).Some?
            && Spec(before.format).value.bits < Spec(after.format).value.bits
            && before.bytes < after.bytes && after.behavioral && after.loss.Some? && LossOf(after) < LossOf(before)
            && BytesExact(s, after)))
  }

  lemma ImprovesTransitive(s: Setting, a: Choice, b: Choice, c: Choice)
    requires Improves(s, a, b) && Improves(s, b, c)
    ensures Improves(s, a, c)
  {
    hide Spec, BytesExact;
  }

  /** Choice by choice, the result improves on the start: every change has more bits and strictly less loss. */
  lemma {:induction false} UpgradesImprove(s: Setting, choices: seq<Choice>)
    ensures |Upgraded(s, choices)| == |choices|
    ensures forall k :: 0 <= k < |choices| ==> Improves(s, choices[k], Upgraded(s, choices)[k])
    decreases Headroom(choices)
  {
    hide BestUpgrade, Round, Improves, Remaining;
    PickIsRound(s, choices);
    var best := BestUpgrade(s, choices, Remaining(s, choices));
    forall k | 0 <= k < |choices| ensures Improves(s, choices[k], choices[k]) {
      ImprovesItself(s, choices[k]);
    }
    if best.Some? {
      var next := choices[best.value.index := best.value.upgrade.choice];
      RoundProgress(s, choices, best.value);
      UpgradesImprove(s, next);
      RoundImproves(s, choices, best.value);
      forall k | 0 <= k < |choices| ensures Improves(s, choices[k], Upgraded(s, choices)[k]) {
        ImprovesTransitive(s, choices[k], next[k], Upgraded(s, next)[k]);
      }
    }
  }

  lemma ImprovesItself(s: Setting, a: Choice)
    ensures Improves(s, a, a)
  {
  }

  lemma RoundImproves(s: Setting, choices: seq<Choice>, p: Pick)
    requires Round(s, choices, p)
    ensures p.index < |choices| && Improves(s, choices[p.index], p.upgrade.choice)
  {
    hide Spec, BytesExact, Remaining;
    var d :| 0 <= d < |s.policy.Candidates()|
             && UpgradeOf(s, choices[p.index], s.policy.Candidates()[d], Remaining(s, choices)) == Some(p.upgrade);
    UpgradeImproves(s, choices[p.index], s.policy.Candidates()[d], Remaining(s, choices));
    UpgradeIsExact(s, choices[p.index], s.policy.Candidates()[d], Remaining(s, choices));
  }

  /** A choice at the top format is never changed. */
  lemma TopStays(s: Setting, before: Choice, after: Choice)
    requires Improves(s, before, after) && before.format == TOP
    ensures after == before
  {
    TopSpec();
    SpecFacts(after.format);
    hide Spec;
  }

  /** A changed choice has the format of some candidate and that candidate's measured loss. */
  ghost predicate FromCandidate(s: Setting, before: Choice, after: Choice) {
    || after == before
    || exists d :: 0 <= d < |s.policy.Candidates()| && MeasuredAs(s, after, s.policy.Candidates()[d])
  }

  ghost predicate MeasuredAs(s: Setting, choice: Choice, candidate: string) {
    && Spec(candidate).Some? && Spec(candidate).value.name == choice.format
    && choice.loss.Some? && LossFor(s.evidence, choice.tensorId, candidate) == choice.loss
  }

  lemma RoundIsMeasured(s: Setting, choices: seq<Choice>, p: Pick)
    requires Round(s, choices, p)
    ensures p.index < |choices| && FromCandidate(s, choices[p.index], p.upgrade.choice)
  {
    hide Spec, QuantizedBytes, KernelFor, LossFor, Remaining;
    var d :| 0 <= d < |s.policy.Candidates()|
             && UpgradeOf(s, choices[p.index], s.policy.Candidates()[d], Remaining(s, choices)) == Some(p.upgrade);
    assert MeasuredAs(s, p.upgrade.choice, s.policy.Candidates()[d]);
  }

  lemma {:induction false} UpgradesAreMeasured(s: Setting, choices: seq<Choice>)
    ensures |Upgraded(s, choices)| == |choices|
    ensures forall k :: 0 <= k < |choices| ==> FromCandidate(s, choices[k], Upgraded(s, choices)[k])
    decreases Headroom(choices)
  {
    hide BestUpgrade, Round, Remaining, MeasuredAs;
    PickIsRound(s, choices);
    var best := BestUpgrade(s, choices, Remaining(s, choices));
    if best.Some? {
      var next := choices[best.value.index := best.value.upgrade.choice];
      RoundProgress(s, choices, best.value);
      UpgradesAreMeasured(s, next);
      RoundIsMeasured(s, choices, best.value);
    }
  }
}
