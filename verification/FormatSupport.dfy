/**
 Whether plans keep to the formats the hardware supports. Base choices do;
 upgrades do not ask. So the policy decides, and exactly how is stated here.
 */
module FormatSupport {
  import opened Wrappers
  import Arithmetic
  import opened AsciiText
  import opened FormatSpecs
  import opened FormatOffers
  import opened FormatUpgrades
  import opened FormatAllocator

  predicate Runnable(policy: Policy, name: string) {
    policy.Supports(name) && policy.HasKernel(name)
  }

  /** A runnable candidate with fewer bits than one that is not: where upgrades can go wrong. */
  ghost predicate Trap(policy: Policy, b: string, c: string) {
    && b in policy.Candidates() && c in policy.Candidates() && Spec(b).Some? && Spec(c).Some?
    && Runnable(policy, Spec(b).value.name) && !Runnable(policy, Spec(c).value.name)
    && Spec(b).value.bits < Spec(c).value.bits && Spec(c).value.blockBytes <= policy.Budget()
  }

  /** Every role is protected, or no candidate that fits the budget is a trap. */
  ghost predicate KeepsSupport(policy: Policy) {
    (forall role :: policy.Protects(role)) || (forall b, c :: !Trap(policy, b, c))
  }

  /** In every plan under this policy, for any tensors and any evidence, every format can be run. */
  ghost predicate PlansRunnable(policy: Policy) {
    forall tensors, rows, j :: 0 <= j < |Selected(Setting(tensors, policy, EvidenceOf(rows)))| ==>
      Runnable(policy, Selected(Setting(tensors, policy, EvidenceOf(rows)))[j].format)
  }

  // ---- when it holds ---------------------------------------------------------------------

  /** A base choice is a runnable candidate; a protected one is at the top. */
  lemma BaseIsRunnable(s: Setting, k: nat) returns (candidate: string)
    requires k < |s.tensors| && BaseChoice(s, k).Some?
    ensures candidate in s.policy.Candidates() && Spec(candidate).Some?
    ensures Spec(candidate).value.name == BaseChoice(s, k).value.format
            && Runnable(s.policy, BaseChoice(s, k).value.format)
    ensures Spec(BaseChoice(s, k).value.format) == Spec(candidate)
    ensures LossFor(s.evidence, s.tensors[k].id, candidate) == BaseChoice(s, k).value.loss
    ensures BaseChoice(s, k).value.bytes == QuantizedBytes(Spec(candidate).value, s.tensors[k].elements)
  {
    var offer, tensor := Earliest(OffersFor(s, k)), s.tensors[k];
    BaseIsLeast(s.policy, s.evidence, tensor);
    hide Offers, Earliest, Spec, LossFor, QuantizedBytes;
    var i :| 0 <= i < |s.policy.Candidates()|
        && OfferOf(s.policy, s.evidence, tensor, s.policy.Candidates()[i]) == Some(offer);
    candidate := s.policy.Candidates()[i];
    SpecFacts(candidate);
  }

  lemma {:induction false} OneOfTotal(choices: seq<Choice>, j: nat)
    requires j < |choices|
    ensures choices[j].bytes <= Total(choices)
  {
    if j < |choices| - 1 {
      OneOfTotal(choices[..|choices| - 1], j);
    }
  }

  lemma BlockAtMost(spec: FormatSpec, elements: nat)
    requires QuantizedBytes(spec, elements) > 0
    ensures spec.blockBytes <= QuantizedBytes(spec, elements)
  {
    var blocks := DivCeil(elements, BLOCK_ELEMENTS);
    if blocks >= 1 && spec.blockBytes > 0 {
      Arithmetic.MulAtLeast(blocks, spec.blockBytes);
    }
  }

  /** A changed choice that cannot be run names a trap and an unprotected role. */
  lemma ChangedIsTrapped(s: Setting, k: nat, base: Choice, choice: Choice)
    requires k < |s.tensors| && BaseChoice(s, k) == Some(base) && choice != base
    requires Improves(s, base, choice) && FromCandidate(s, base, choice) && choice.bytes <= s.policy.Budget()
    requires !Runnable(s.policy, choice.format)
    ensures !s.policy.Protects(s.tensors[k].role) && exists b, c :: Trap(s.policy, b, c)
  {
    BaseChoiceFacts(s, k);
    var b := BaseIsRunnable(s, k);
    hide Spec, QuantizedBytes, BaseChoice, Runnable, LossFor;
    var d :| 0 <= d < |s.policy.Candidates()| && MeasuredAs(s, choice, s.policy.Candidates()[d]);
    var c := s.policy.Candidates()[d];
    SpecFacts(c);
    BlockAtMost(Spec(c).value, FindTensor(s.tensors, choice.tensorId).value.elements);
    if base.isProtected {
      TopStays(s, base, choice);
    }
    assert Trap(s.policy, b, c);
  }

  lemma SelectedIsRunnable(s: Setting, j: nat)
    requires KeepsSupport(s.policy) && j < |Selected(s)|
    ensures Runnable(s.policy, Selected(s)[j].format)
  {
    hide Upgraded, BaseChoices, BaseChoice, WithOptions, Improves, FromCandidate, Total, Runnable, Trap;
    var n := |s.tensors|;
    BaseChoicesAre(s, n);
    UpgradesImprove(s, BaseChoices(s, n));
    UpgradesAreMeasured(s, BaseChoices(s, n));
    UpgradesKeepBudget(s, BaseChoices(s, n));
    OneOfTotal(Selected(s), j);
    var k, base, choice := WithOptions(s, n)[j], BaseChoices(s, n)[j], Selected(s)[j];
    if choice == base {
      var _ := BaseIsRunnable(s, k);
    } else if !Runnable(s.policy, choice.format) {
      ChangedIsTrapped(s, k, base, choice);
    }
  }

  // ---- when it fails ------------------------------------------------------------------------

  /** One tensor of one block, and one measurement of the trap's format, without loss. */
  function TrapPlan(policy: Policy, c: string, role: Role): Setting {
    Setting([Tensor("t", 256, role, 0, None, None)], policy, EvidenceOf([TrapRow(c)]))
  }

  function TrapRow(c: string): Row {
    Row("t", c, map[], Some(0.0), true)
  }

  lemma TrapLoss(policy: Policy, c: string, role: Role, candidate: string)
    ensures LossFor(TrapPlan(policy, c, role).evidence, "t", candidate)
            == if Upper(candidate) == Upper(c) then Some(0.0) else None
  {
    hide Upper;
    var rows := [TrapRow(c)];
    assert rows[..0] == [];
    assert EvidenceOf(rows) == map[("t", Upper(c)) := TrapRow(c)];
  }

  /** The base choice is cheaper than the trap's format, and unmeasured. */
  lemma TrapBase(policy: Policy, b: string, c: string, role: Role)
    requires Trap(policy, b, c) && !policy.Protects(role)
    ensures var s := TrapPlan(policy, c, role);
            && BaseChoice(s, 0).Some?
            && var base := BaseChoice(s, 0).value;
               && base.loss == None && base.bytes < Spec(c).value.blockBytes && base.tensorId == "t"
               && Spec(base.format).Some? && Spec(base.format).value.bits < Spec(c).value.bits
  {
    var s := TrapPlan(policy, c, role);
    var i :| 0 <= i < |policy.Candidates()| && policy.Candidates()[i] == b;
    hide Spec, LossFor, Offers, Earliest;
    var offer := OfferOf(policy, s.evidence, s.tensors[0], b).value;
    assert Permits(policy, s.evidence, s.tensors[0], offer);
    BaseIsLeast(policy, s.evidence, s.tensors[0]);
    var candidate := BaseIsRunnable(s, 0);
    OneBlock(Spec(candidate).value);
    OneBlock(Spec(b).value);
    TrapLoss(policy, c, role, candidate);
    SameUpperSameSpec(candidate, c);
    BlocksFollowBits(b, c);
    BlocksFollowBits(candidate, c);
  }

  lemma OneBlock(spec: FormatSpec)
    ensures QuantizedBytes(spec, 256) == spec.blockBytes
  {
  }

  lemma SameUpperSameSpec(a: string, b: string)
    ensures Upper(a) == Upper(b) ==> Spec(a) == Spec(b)
  {
  }

  /** That base choice can still be upgraded. */
  lemma TrapUpgrade(policy: Policy, b: string, c: string, role: Role)
    requires Trap(policy, b, c) && !policy.Protects(role)
    ensures var s := TrapPlan(policy, c, role);
            && BaseChoice(s, 0).Some?
            && var base := BaseChoice(s, 0).value;
               UpgradeOf(s, base, c, Remaining(s, [base])).Some?
  {
    var s := TrapPlan(policy, c, role);
    TrapBase(policy, b, c, role);
    TrapLoss(policy, c, role, c);
    OneBlock(Spec(c).value);
    SpecFacts(BaseChoice(s, 0).value.format);
    hide BaseChoice, LossFor, KernelFor, QuantizedBytes, Spec, EvidenceOf;
    var base := BaseChoice(s, 0).value;
    assert FindTensor(s.tensors, "t") == Some(s.tensors[0]);
    assert [base][..0] == [] && Total([base]) == base.bytes;
    SpecNamesDiffer(base.format, c);
  }

  lemma SpecNamesDiffer(a: string, c: string)
    requires Spec(a).Some? && Spec(c).Some? && Spec(a).value.bits < Spec(c).value.bits
    ensures Spec(c).value.name != a
  {
    SpecFacts(c);
    hide Spec;
  }

  /** So the plan selects a format that cannot be run. */
  lemma TrapIsTaken(policy: Policy, b: string, c: string, role: Role)
    requires Trap(policy, b, c) && !policy.Protects(role)
    ensures var selected := Selected(TrapPlan(policy, c, role));
            |selected| == 1 && selected[0].format == Spec(c).value.name && !Runnable(policy, selected[0].format)
  {
    var s := TrapPlan(policy, c, role);
    TrapUpgrade(policy, b, c, role);
    hide Spec, BaseChoice, Upgraded, UpgradeOf, Remaining, LossFor, Runnable, EvidenceOf;
    var base := BaseChoice(s, 0).value;
    assert BaseChoices(s, 1) == [base];
    UpgradesImprove(s, [base]);
    UpgradesAreMeasured(s, [base]);
    UpgradesExhaust(s, [base]);
    var end := Upgraded(s, [base]);
    var i :| 0 <= i < |policy.Candidates()| && policy.Candidates()[i] == c;
    assert At(s, end, Remaining(s, end), 0, i).None? by { assert InRange(s, end, 0, i); }
    assert end != [base];
    assert FromCandidate(s, base, end[0]) && Improves(s, base, end[0]);
    var d :| 0 <= d < |policy.Candidates()| && MeasuredAs(s, end[0], policy.Candidates()[d]);
    BaseIsForT(s);
    TrapLoss(policy, c, role, policy.Candidates()[d]);
    SameUpperSameSpec(policy.Candidates()[d], c);
  }

  lemma BaseIsForT(s: Setting)
    requires |s.tensors| == 1 && s.tensors[0].id == "t" && BaseChoice(s, 0).Some?
    ensures BaseChoice(s, 0).value.tensorId == "t"
  {
    hide OffersFor, Earliest;
  }

  /**
   Every plan keeps to runnable formats exactly when every role is protected or no
   candidate that fits the budget has more bits than a runnable one without
   being runnable itself.
   */
  lemma PlansRunnableIff(policy: Policy)
    ensures PlansRunnable(policy) <==> KeepsSupport(policy)
  {
    hide Selected, Runnable, Trap, EvidenceOf;
    if KeepsSupport(policy) {
      forall tensors, rows, j | 0 <= j < |Selected(Setting(tensors, policy, EvidenceOf(rows)))|
        ensures Runnable(policy, Selected(Setting(tensors, policy, EvidenceOf(rows)))[j].format)
      {
        SelectedIsRunnable(Setting(tensors, policy, EvidenceOf(rows)), j);
      }
    } else {
      var role :| !policy.Protects(role);
      var b, c :| Trap(policy, b, c);
      TrapIsTaken(policy, b, c, role);
      assert !PlansRunnable(policy) by {
        var tensors, rows := [Tensor("t", 256, role, 0, None, None)], [TrapRow(c)];
        assert Setting(tensors, policy, EvidenceOf(rows)) == TrapPlan(policy, c, role);
      }
    }
  }

  /** Hardware that supports Q4_K_S only, with Q8_K_XL also among the candidates and no limit. */
  function NarrowPolicy(): Policy {
    Policy(None, ["Q4_K_S", "Q8_K_XL"], [], ["Q4_K_S"], [], "vulkan", 1)
  }

  lemma NarrowIsTrap()
    ensures Trap(NarrowPolicy(), "Q4_K_S", TOP) && !NarrowPolicy().Supports(TOP) && !NarrowPolicy().Protects(Embedding)
  {
    var policy := NarrowPolicy();
    UpperNames();
    hide Upper;
    assert policy.Candidates()[0] == "Q4_K_S" && policy.Candidates()[1] == TOP;
    assert policy.supportedFormats[0] == "Q4_K_S";
  }

  /** Its plan for one measured tensor selects what it does not support. */
  lemma UnsupportedIsPlanned()
    ensures var selected := Selected(TrapPlan(NarrowPolicy(), TOP, Embedding));
            |selected| == 1 && selected[0].format == TOP && !NarrowPolicy().Supports(TOP)
  {
    NarrowIsTrap();
    TopSpec();
    hide NarrowPolicy, Trap, Selected, Spec, TrapPlan, Runnable;
    TrapIsTaken(NarrowPolicy(), "Q4_K_S", TOP, Embedding);
  }
}
