/** What a plan is, field by field, in terms of the tensors, the policy and the calibration rows. */
module PlanLaws {
  import opened Wrappers
  import MapSum
  import opened AsciiText
  import opened FormatSpecs
  import opened FormatOffers
  import opened FormatUpgrades
  import opened UpgradeLaw
  import opened FormatAllocator
  import ByLayer = RoutedBytes

  // ---- base choices ------------------------------------------------------------------------

  /** Named by the policy, or one of the three roles that always are. */
  predicate Protected(policy: Policy, role: Role) {
    role in policy.protectRoles || role == Router || role == Output || role == Mtp
  }

  predicate RoutedRole(role: Role) {
    role == RoutedExpertGate || role == RoutedExpertUp || role == RoutedExpertDown
  }

  /** A known format, the top one if protected, that the hardware lists and has a kernel for, if it lists any. */
  predicate Allowed(policy: Policy, role: Role, candidate: string, spec: FormatSpec) {
    && Spec(candidate) == Some(spec) && (Protected(policy, role) ==> spec.name == TOP)
    && (policy.supportedFormats == []
        || exists i :: 0 <= i < |policy.supportedFormats| && SameButCase(policy.supportedFormats[i], spec.name))
    && (policy.kernelPaths == [] || KernelFor(spec.name, policy.backend) in policy.kernelPaths)
  }

  lemma OfferIs(policy: Policy, evidence: Evidence, tensor: Tensor, candidate: string, spec: FormatSpec)
    ensures Allowed(policy, tensor.role, candidate, spec)
            <==> Spec(candidate) == Some(spec) && OfferOf(policy, evidence, tensor, candidate).Some?
    ensures Allowed(policy, tensor.role, candidate, spec) ==>
              OfferOf(policy, evidence, tensor, candidate)
              == Some(Offer(spec, QuantizedBytes(spec, tensor.elements), KernelFor(spec.name, policy.backend),
                            LossFor(evidence, tensor.id, candidate)))
  {
    SpecFacts(candidate);
    hide Spec, QuantizedBytes, KernelFor, LossFor, SameButCase;
  }

  /** The candidate whose offer a stable sort by bytes and bits puts first. */
  ghost predicate FirstLeast(s: Setting, tensor: Tensor, from: nat, c: int, least: Offer) {
    var candidates := s.policy.Candidates();
    && from <= c < |candidates| && OfferOf(s.policy, s.evidence, tensor, candidates[c]) == Some(least)
    && forall j, o :: from <= j < |candidates| && OfferOf(s.policy, s.evidence, tensor, candidates[j]) == Some(o) ==>
         if j < c then Before(least, o) else !Before(o, least)
  }

  lemma {:induction false} EarliestIsFirstLeast(s: Setting, tensor: Tensor, i: nat) returns (c: int)
    requires i <= |s.policy.Candidates()| && Offers(s.policy, s.evidence, tensor, s.policy.Candidates(), i) != []
    ensures FirstLeast(s, tensor, i, c, Earliest(Offers(s.policy, s.evidence, tensor, s.policy.Candidates(), i)))
    decreases |s.policy.Candidates()| - i
  {
    hide OfferOf, Earliest;
    var candidates := s.policy.Candidates();
    var here, rest := OfferOf(s.policy, s.evidence, tensor, candidates[i]),
                      Offers(s.policy, s.evidence, tensor, candidates, i + 1);
    if here.None? {
      c := EarliestIsFirstLeast(s, tensor, i + 1);
    } else if rest == [] {
      c := i;
      NoOffers(s, tensor, i + 1);
      EarliestOfOne(here.value);
    } else {
      var d := EarliestIsFirstLeast(s, tensor, i + 1);
      EarliestStep(here.value, rest);
      c := if Before(Earliest(rest), here.value) then d else i;
      hide Offers;
      OneCandidateMore(s, tensor, i, d, here.value, Earliest(rest));
    }
  }

  lemma EarliestOfOne(offer: Offer)
    ensures Earliest([offer] + []) == offer
  {
  }

  lemma EarliestStep(offer: Offer, rest: seq<Offer>)
    requires rest != []
    ensures Earliest([offer] + rest) == if Before(Earliest(rest), offer) then Earliest(rest) else offer
  {
    assert ([offer] + rest)[1..] == rest;
  }

  lemma OneCandidateMore(s: Setting, tensor: Tensor, i: nat, d: int, offer: Offer, later: Offer)
    requires i < |s.policy.Candidates()| && FirstLeast(s, tensor, i + 1, d, later)
    requires OfferOf(s.policy, s.evidence, tensor, s.policy.Candidates()[i]) == Some(offer)
    ensures if Before(later, offer) then FirstLeast(s, tensor, i, d, later) else FirstLeast(s, tensor, i, i, offer)
  {
    hide OfferOf;
    forall j, o | i <= j < |s.policy.Candidates()|
                  && OfferOf(s.policy, s.evidence, tensor, s.policy.Candidates()[j]) == Some(o)
      ensures if Before(later, offer) then (if j < d then Before(later, o) else !Before(o, later))
              else !Before(o, offer)
    {
      if j > i {
        assert if j < d then Before(later, o) else !Before(o, later);
      }
    }
  }

  lemma {:induction false} NoOffers(s: Setting, tensor: Tensor, i: nat)
    requires i <= |s.policy.Candidates()| && Offers(s.policy, s.evidence, tensor, s.policy.Candidates(), i) == []
    ensures forall j :: i <= j < |s.policy.Candidates()| ==>
              OfferOf(s.policy, s.evidence, tensor, s.policy.Candidates()[j]).None?
    decreases |s.policy.Candidates()| - i
  {
    hide OfferOf;
    if i < |s.policy.Candidates()| {
      NoOffers(s, tensor, i + 1);
    }
  }

  /** Everything a base choice holds, from its tensor, its candidate and the evidence. */
  ghost predicate ChoiceOf(s: Setting, tensor: Tensor, candidate: string, spec: FormatSpec, choice: Choice) {
    && choice.tensorId == tensor.id && choice.format == spec.name
    && choice.bytes == QuantizedBytes(spec, tensor.elements)
    && choice.loss == LossFor(s.evidence, tensor.id, candidate) && choice.behavioral == choice.loss.Some?
    && choice.isProtected == Protected(s.policy, tensor.role)
    && choice.routedBytes == (if RoutedRole(tensor.role) then choice.bytes else 0)
    && choice.kernel == KernelFor(spec.name, s.policy.backend)
  }

  /** No allowed candidate takes fewer bytes, nor as many with fewer bits, and no earlier one as many with as few. */
  ghost predicate LeastAllowed(s: Setting, tensor: Tensor, c: int, spec: FormatSpec) {
    forall j, other :: 0 <= j < |s.policy.Candidates()|
                       && Allowed(s.policy, tensor.role, s.policy.Candidates()[j], other) ==>
      var mine, theirs := QuantizedBytes(spec, tensor.elements), QuantizedBytes(other, tensor.elements);
      mine < theirs || (mine == theirs && (spec.bits < other.bits || (spec.bits == other.bits && c <= j)))
  }

  ghost predicate NoneAllowed(policy: Policy, role: Role) {
    forall j, spec :: 0 <= j < |policy.Candidates()| ==> !Allowed(policy, role, policy.Candidates()[j], spec)
  }

  /** A tensor has a base choice exactly when some candidate is allowed, and it is the least of those. */
  lemma BaseChoiceIs(s: Setting, k: nat) returns (c: int, spec: FormatSpec)
    requires k < |s.tensors|
    ensures BaseChoice(s, k).None?
            <==> NoneAllowed(s.policy, s.tensors[k].role)
    ensures BaseChoice(s, k).Some? ==>
              && 0 <= c < |s.policy.Candidates()|
              && Allowed(s.policy, s.tensors[k].role, s.policy.Candidates()[c], spec)
              && ChoiceOf(s, s.tensors[k], s.policy.Candidates()[c], spec, BaseChoice(s, k).value)
              && LeastAllowed(s, s.tensors[k], c, spec)
  {
    hide Offers, OfferOf, Earliest, Allowed, QuantizedBytes, Spec;
    var tensor, candidates := s.tensors[k], s.policy.Candidates();
    if OffersFor(s, k) == [] {
      NoOffers(s, tensor, 0);
      forall j, other | 0 <= j < |candidates| ensures !Allowed(s.policy, tensor.role, candidates[j], other) {
        OfferIs(s.policy, s.evidence, tensor, candidates[j], other);
      }
      c, spec := 0, FormatSpec("", 0, 0);
    } else {
      c := EarliestIsFirstLeast(s, tensor, 0);
      spec := Earliest(OffersFor(s, k)).spec;
      OfferNamesSpec(s, tensor, candidates[c]);
      OfferIs(s.policy, s.evidence, tensor, candidates[c], spec);
      FirstLeastIsLeast(s, tensor, c, Earliest(OffersFor(s, k)));
    }
  }

  lemma FirstLeastIsLeast(s: Setting, tensor: Tensor, c: int, least: Offer)
    requires FirstLeast(s, tensor, 0, c, least) && least.bytes == QuantizedBytes(least.spec, tensor.elements)
    ensures LeastAllowed(s, tensor, c, least.spec)
  {
    hide OfferOf, Allowed, QuantizedBytes, Spec;
    var candidates := s.policy.Candidates();
    forall j, other | 0 <= j < |candidates| && Allowed(s.policy, tensor.role, candidates[j], other)
      ensures var mine, theirs := least.bytes, QuantizedBytes(other, tensor.elements);
              mine < theirs
                  || (mine == theirs && (least.spec.bits < other.bits || (least.spec.bits == other.bits && c <= j)))
    {
      OfferIs(s.policy, s.evidence, tensor, candidates[j], other);
      var offer := OfferOf(s.policy, s.evidence, tensor, candidates[j]).value;
      assert if j < c then Before(least, offer) else !Before(offer, least);
    }
  }

  lemma OfferNamesSpec(s: Setting, tensor: Tensor, candidate: string)
    requires OfferOf(s.policy, s.evidence, tensor, candidate).Some?
    ensures Spec(candidate) == Some(OfferOf(s.policy, s.evidence, tensor, candidate).value.spec)
  {
    hide Spec, QuantizedBytes, KernelFor, LossFor;
  }

  // ---- the risks -----------------------------------------------------------------------------

  lemma {:induction false} BaseRisksAre(s: Setting, n: nat, risk: Risk)
    requires n <= |s.tensors|
    ensures risk in BaseRisks(s, n)
            <==> exists k :: 0 <= k < n && RiskOf(s, k, risk)
  {
    hide BaseChoice;
    if n > 0 {
      BaseRisksAre(s, n - 1, risk);
      BehavioralIsMeasured(s, n - 1);
      assert risk in RisksOf(s, n - 1) <==> RiskOf(s, n - 1, risk);
    }
  }

  lemma BehavioralIsMeasured(s: Setting, k: nat)
    requires k < |s.tensors|
    ensures BaseChoice(s, k).Some? ==> BaseChoice(s, k).value.behavioral == BaseChoice(s, k).value.loss.Some?
  {
    hide Offers, Earliest;
  }

  /** This tensor has no base choice, or one without a behavioral measurement. */
  ghost predicate RiskOf(s: Setting, k: nat, risk: Risk)
    requires k < |s.tensors|
  {
    || (BaseChoice(s, k).None? && risk == NoOption(s.tensors[k].id))
    || (BaseChoice(s, k).Some? && BaseChoice(s, k).value.loss.None?
        && risk == Unmeasured(s.tensors[k].id, BaseChoice(s, k).value.format))
  }

  /** What stays unresolved: exactly those tensors, and the budget exactly when it is exceeded. */
  lemma RisksAre(s: Setting, risk: Risk)
    ensures risk in Risks(s)
            <==> || (exists k :: 0 <= k < |s.tensors| && RiskOf(s, k, risk))
                 || (Total(Selected(s)) > s.policy.Budget()
                     && risk == OverBudget(Total(Selected(s)), s.policy.Budget()))
  {
    BaseRisksAre(s, |s.tensors|, risk);
    hide Total, Selected, BaseRisks, RiskOf;
  }

  /** They come in the order of the tensors, one risk a tensor at most, and the budget last. */
  lemma {:induction false} RisksInOrder(s: Setting, n: nat) returns (at: seq<nat>)
    requires n <= |s.tensors|
    ensures |at| == |BaseRisks(s, n)| && forall i, j :: 0 <= i < j < |at| ==> at[i] < at[j]
    ensures forall i :: 0 <= i < |at| ==> at[i] < n && RiskOf(s, at[i], BaseRisks(s, n)[i])
    ensures n == |s.tensors| ==> BaseRisks(s, n) <= Risks(s) && |Risks(s)| <= |at| + 1
    ensures n == |s.tensors| && |Risks(s)| == |at| + 1 ==> Risks(s)[|at|].OverBudget?
  {
    hide BaseChoice, Total, Selected;
    at := [];
    if n > 0 {
      at := RisksInOrder(s, n - 1);
      BehavioralIsMeasured(s, n - 1);
      at := at + (if RisksOf(s, n - 1) == [] then [] else [n - 1]);
    }
  }

  // ---- sums --------------------------------------------------------------------------------------

  lemma {:induction false} TotalJoins(a: seq<Choice>, b: seq<Choice>)
    ensures Total(a + b) == Total(a) + Total(b)
  {
    if b == [] {
      assert a + b == a;
    } else {
      assert (a + b)[..|a + b| - 1] == a + b[..|b| - 1];
      TotalJoins(a, b[..|b| - 1]);
    }
  }

  lemma TotalOfOne(choice: Choice)
    ensures Total([choice]) == choice.bytes && Total([]) == 0
  {
    assert [choice][..0] == [];
    assert Total([choice]) == Total([choice][..0]) + choice.bytes;
  }

  lemma {:induction false} SourceTotalJoins(a: seq<Tensor>, b: seq<Tensor>)
    ensures SourceTotal(a + b) == SourceTotal(a) + SourceTotal(b)
  {
    if b == [] {
      assert a + b == a;
    } else {
      assert (a + b)[..|a + b| - 1] == a + b[..|b| - 1];
      SourceTotalJoins(a, b[..|b| - 1]);
    }
  }

  lemma SourceTotalOfOne(tensor: Tensor)
    ensures SourceTotal([tensor]) == tensor.sourceBytes && SourceTotal([]) == 0
  {
    assert [tensor][..0] == [];
    assert SourceTotal([tensor]) == SourceTotal([tensor][..0]) + tensor.sourceBytes;
  }

  /** The largest expert of each layer. */
  ghost function LargestByLayer(layers: ByLayer.Layers): map<Option<Arithmetic.u32>, nat> {
    map layer | layer in layers :: ByLayer.Largest(layers[layer])
  }

  /** Routed bytes: the sum over the layers of their largest expert, as often as experts are active. */
  lemma {:induction false} RoutedTotalIs(layers: ByLayer.Layers, active: nat)
    ensures ByLayer.RoutedTotal(layers, active) == active * MapSum.Sum(LargestByLayer(layers))
    decreases |layers|
  {
    hide ByLayer.Largest, ByLayer.RoutedTotal, LargestByLayer, MapSum.Sum;
    if layers == map[] {
      NothingRouted(active);
    } else {
      var layer :| layer in layers;
      var rest := layers - {layer};
      assert rest.Keys == layers.Keys - {layer};
      RoutedTotalIs(rest, active);
      ByLayer.OneLayerLess(layers, active, layer);
      OneLargestLess(layers, layer);
      Spread(active, ByLayer.Largest(layers[layer]), MapSum.Sum(LargestByLayer(rest)));
    }
  }

  lemma NothingRouted(active: nat)
    ensures ByLayer.RoutedTotal(map[], active) == 0 && MapSum.Sum(LargestByLayer(map[])) == 0
  {
    assert ByLayer.LayerBytes(map[], active) == map[] && LargestByLayer(map[]) == map[];
  }

  lemma OneLargestLess(layers: ByLayer.Layers, layer: Option<Arithmetic.u32>)
    requires layer in layers
    ensures MapSum.Sum(LargestByLayer(layers))
            == ByLayer.Largest(layers[layer]) + MapSum.Sum(LargestByLayer(layers - {layer}))
  {
    hide ByLayer.Largest;
    MapSum.SumRemove(LargestByLayer(layers), layer);
    assert LargestByLayer(layers) - {layer} == LargestByLayer(layers - {layer});
  }

  lemma Spread(a: nat, x: nat, y: nat)
    ensures x * a + a * y == a * (x + y)
  {
  }

  // ---- the whole plan ---------------------------------------------------------------------------

  /**
   A plan: the upgraded base choices, their total and kernels, the budget and the
   routed bytes, what is unresolved, and whether anything was measured.
   */
  lemma PlanIs(s: Setting, rows: seq<Row>) returns (trace: seq<seq<Choice>>)
    ensures var plan := PlanFor(s, rows);
            && Rounds(s, trace) && trace[0] == BaseChoices(s, |s.tensors|) && trace[|trace| - 1] == plan.selected
            && plan.budget == (if s.policy.budget.Some? then s.policy.budget.value else 0xFFFF_FFFF_FFFF_FFFF)
            && plan.expectedTotal == Total(plan.selected) && plan.sourceTotal == SourceTotal(s.tensors)
            && plan.routedPerToken
               == (if s.policy.activeExperts == 0 then 1 else s.policy.activeExperts)
                  * MapSum.Sum(LargestByLayer(ByLayer.Grouped(s, plan.selected)))
            && (forall kernel :: kernel in plan.kernels
                                 <==> exists k :: 0 <= k < |plan.selected| && plan.selected[k].kernel == kernel)
            && plan.unresolved == Risks(s)
            && (plan.measured <==> exists i :: 0 <= i < |rows| && MeasuredLoss(rows[i]).Some?)
            && (plan.feasible <==> SomeAssignmentFits(s) && IdsAreClear(s, |s.tensors|))
  {
    hide Upgraded, BaseChoices, Total, Risks, SomeAssignmentFits, IdsAreClear, Feasible, Rounds, ByLayer.Grouped,
        SourceTotal, ByLayer.RoutedTotal;
    trace := UpgradedByRounds(s, BaseChoices(s, |s.tensors|));
    RoutedTotalIs(ByLayer.Grouped(s, Selected(s)), Arithmetic.Max(s.policy.activeExperts, 1));
    FeasibleIff(s);
    forall i | 0 <= i < |rows| ensures MeasuredLoss(rows[i]).Some? ==> rows[i].behavioral {
    }
  }

  /** Without candidates of its own a policy has these four, in the order of the digit in their names. */
  lemma CandidatesAre(policy: Policy)
    ensures policy.candidateFormats != [] ==> policy.Candidates() == policy.candidateFormats
    ensures policy.candidateFormats == [] ==>
              && |policy.Candidates()| == 4
              && (forall f :: f in {"Q4_K_S", "Q5_K_M", "Q6_K", "Q8_K_XL"} <==> f in policy.Candidates())
              && forall i, j :: 0 <= i < j < 4 ==>
                   var less, more := policy.Candidates()[i], policy.Candidates()[j];
                   |less| > 1 && |more| > 1 && less[1] < more[1]
  {
  }
}
