/** The allocation plan: the least permitted format for every tensor, then measured upgrades. */
module FormatAllocator {
  import opened Wrappers
  import opened Arithmetic
  import opened AsciiText
  import opened FormatSpecs
  import opened FormatOffers
  import opened FormatUpgrades
  import ByLayer = RoutedBytes

  datatype Risk = NoOption(id: string) | Unmeasured(id: string, format: string) | OverBudget(total: nat, budget: nat)

  function Number(n: nat): string {
    if n < 10 then [('0' as int + n) as char] else Number(n / 10) + [('0' as int + n % 10) as char]
  }

  const OVER: string := "exceeds budget"

  /** The risk as the plan words it. */
  function Wording(risk: Risk): string {
    match risk
    case NoOption(id) => id + [':'] + " no supported option satisfies protection/kernel constraints"
    case Unmeasured(id, format) => id + [':'] + (" selected " + format + " without behavioral calibration")
    case OverBudget(total, budget) => "minimum/selected allocation " + Number(total) + " " + OVER + " " + Number(budget)
  }

  // ---- base choices -----------------------------------------------------------------

  function BaseFrom(s: Setting, tensor: Tensor, offer: Offer): Choice {
    Choice(tensor.id, offer.spec.name, offer.bytes, offer.loss, offer.loss.Some?, s.policy.Protects(tensor.role),
           Routed(tensor, offer.bytes), offer.kernel)
  }

  function OffersFor(s: Setting, k: nat): seq<Offer>
    requires k < |s.tensors|
  {
    Offers(s.policy, s.evidence, s.tensors[k], s.policy.Candidates(), 0)
  }

  function BaseChoice(s: Setting, k: nat): Option<Choice>
    requires k < |s.tensors|
  {
    if OffersFor(s, k) == [] then None else Some(BaseFrom(s, s.tensors[k], Earliest(OffersFor(s, k))))
  }

  /** The base choices for the first n tensors; a tensor without an option gets none. */
  function BaseChoices(s: Setting, n: nat): (r: seq<Choice>)
    requires n <= |s.tensors|
    ensures |r| <= n
  {
    if n == 0 then []
    else
      match BaseChoice(s, n - 1)
      case None => BaseChoices(s, n - 1)
      case Some(choice) => BaseChoices(s, n - 1) + [choice]
  }

  function RisksOf(s: Setting, k: nat): seq<Risk>
    requires k < |s.tensors|
  {
    match BaseChoice(s, k)
    case None => [NoOption(s.tensors[k].id)]
    case Some(choice) => if choice.behavioral then [] else [Unmeasured(s.tensors[k].id, choice.format)]
  }

  function BaseRisks(s: Setting, n: nat): seq<Risk>
    requires n <= |s.tensors|
  {
    if n == 0 then [] else BaseRisks(s, n - 1) + RisksOf(s, n - 1)
  }

  // ---- the plan ------------------------------------------------------------------------

  datatype Plan = Plan(
    feasible: bool,
    budget: u64,
    expectedTotal: nat,
    sourceTotal: nat,
    routedPerToken: nat,
    selected: seq<Choice>,
    kernels: set<string>,
    unresolved: seq<Risk>,
    measured: bool)

  function Selected(s: Setting): seq<Choice> {
    Upgraded(s, BaseChoices(s, |s.tensors|))
  }

  function Risks(s: Setting): seq<Risk> {
    var total := Total(Selected(s));
    BaseRisks(s, |s.tensors|) + if total > s.policy.Budget() then [OverBudget(total, s.policy.Budget())] else []
  }

  /** No risk is worded as one of the budget. */
  predicate Quiet(risks: seq<Risk>) {
    forall k :: 0 <= k < |risks| ==> !Contains(Wording(risks[k]), OVER)
  }

  /** As the plan decides it: by the wording of its risks and the number of its choices. */
  predicate Feasible(s: Setting) {
    Quiet(Risks(s)) && |Selected(s)| == |s.tensors|
  }

  function KernelsOf(choices: seq<Choice>): set<string> {
    set k | 0 <= k < |choices| :: choices[k].kernel
  }

  predicate AnyMeasured(rows: seq<Row>) {
    exists i :: 0 <= i < |rows| && rows[i].behavioral && MeasuredLoss(rows[i]).Some?
  }

  function SourceTotal(tensors: seq<Tensor>): nat {
    if tensors == [] then 0 else SourceTotal(tensors[..|tensors| - 1]) + tensors[|tensors| - 1].sourceBytes
  }

  ghost function PlanFor(s: Setting, rows: seq<Row>): Plan {
    Plan(Feasible(s), s.policy.Budget(), Total(Selected(s)), SourceTotal(s.tensors),
         ByLayer.RoutedTotal(ByLayer.Grouped(s, Selected(s)), Max(s.policy.activeExperts, 1)),
         Selected(s), KernelsOf(Selected(s)), Risks(s), AnyMeasured(rows))
  }

  method AllocateFormats(tensors: seq<Tensor>, policy: Policy, rows: seq<Row>) returns (plan: Plan)
    ensures plan == PlanFor(Setting(tensors, policy, EvidenceOf(rows)), rows)
  {
    hide Offers, Earliest, Upgraded, EvidenceOf, Quiet, KernelsOf, MeasuredLoss, Total, ByLayer.RoutedTotal,
        ByLayer.Grouped;
    var evidence := ByGroupFormat(rows);
    var s := Setting(tensors, policy, evidence);
    var choices, unresolved := [], [];
    for k := 0 to |tensors|
      invariant choices == BaseChoices(s, k) && unresolved == BaseRisks(s, k)
    {
      var offers := CollectOffers(policy, evidence, tensors[k], policy.Candidates());
      if offers == [] {
        unresolved := unresolved + [NoOption(tensors[k].id)];
      } else {
        var choice := BaseFrom(s, tensors[k], Earliest(offers));
        if !choice.behavioral {
          unresolved := unresolved + [Unmeasured(tensors[k].id, choice.format)];
        }
        choices := choices + [choice];
      }
    }
    choices := SpendSpareBytes(s, choices);
    var total := SumBytes(choices);
    if total > policy.Budget() {
      unresolved := unresolved + [OverBudget(total, policy.Budget())];
    }
    assert unresolved == Risks(s) by {
      assert BaseRisks(s, |tensors|) + [] == BaseRisks(s, |tensors|);
    }
    var feasible := Quiet(unresolved) && |choices| == |tensors|;
    var sourceTotal := 0;
    for k := 0 to |tensors|
      invariant sourceTotal == SourceTotal(tensors[..k])
    {
      assert tensors[..k + 1][..k] == tensors[..k];
      sourceTotal := sourceTotal + tensors[k].sourceBytes;
    }
    assert tensors[..|tensors|] == tensors;
    var routed := ByLayer.RoutedPerToken(s, choices, policy.activeExperts);
    plan := Plan(feasible, policy.Budget(), total, sourceTotal, routed, choices, KernelsOf(choices), unresolved,
                 AnyMeasured(rows));
  }

  // ---- the least total -------------------------------------------------------------------

  ghost predicate AllHaveOptions(s: Setting, n: nat)
    requires n <= |s.tensors|
  {
    forall k :: 0 <= k < n ==> OffersFor(s, k) != []
  }

  lemma {:induction false} AllChosenIff(s: Setting, n: nat)
    requires n <= |s.tensors|
    ensures |BaseChoices(s, n)| == n <==> AllHaveOptions(s, n)
    ensures AllHaveOptions(s, n) ==> forall k :: 0 <= k < n ==> BaseChoice(s, k) == Some(BaseChoices(s, n)[k])
  {
    hide OffersFor;
    if n > 0 {
      AllChosenIff(s, n - 1);
    }
  }

  /** One permitted offer for each of the first n tensors. */
  ghost predicate Assignment(s: Setting, offers: seq<Offer>, n: nat) {
    n == |offers| <= |s.tensors| && forall k :: 0 <= k < n ==> Permits(s.policy, s.evidence, s.tensors[k], offers[k])
  }

  function OfferedBytes(offers: seq<Offer>): nat {
    if offers == [] then 0 else OfferedBytes(offers[..|offers| - 1]) + offers[|offers| - 1].bytes
  }

  /** Some choice of a permitted format for every tensor fits the budget. */
  ghost predicate SomeAssignmentFits(s: Setting) {
    exists offers :: Assignment(s, offers, |s.tensors|) && OfferedBytes(offers) <= s.policy.Budget()
  }

  /** The base choices are themselves an assignment, and no assignment takes fewer bytes. */
  lemma {:induction false} BaseIsLeastTotal(s: Setting, n: nat) returns (least: seq<Offer>)
    requires n <= |s.tensors| && AllHaveOptions(s, n)
    ensures Assignment(s, least, n) && OfferedBytes(least) == Total(BaseChoices(s, n))
    ensures forall offers :: Assignment(s, offers, n) ==> Total(BaseChoices(s, n)) <= OfferedBytes(offers)
  {
    hide Offers, Earliest, Permits;
    if n == 0 {
      least := [];
    } else {
      var front := BaseIsLeastTotal(s, n - 1);
      var offer := Earliest(OffersFor(s, n - 1));
      BaseIsLeast(s.policy, s.evidence, s.tensors[n - 1]);
      least := front + [offer];
      assert least[..n - 1] == front;
      assert BaseChoices(s, n)[..|BaseChoices(s, n)| - 1] == BaseChoices(s, n - 1);
      forall offers | Assignment(s, offers, n) ensures Total(BaseChoices(s, n)) <= OfferedBytes(offers) {
        assert Assignment(s, offers[..n - 1], n - 1);
      }
    }
  }

  lemma AssignmentNeedsOptions(s: Setting, offers: seq<Offer>)
    requires Assignment(s, offers, |s.tensors|)
    ensures AllHaveOptions(s, |s.tensors|)
  {
    hide Offers, Permits;
    forall k | 0 <= k < |s.tensors| ensures OffersFor(s, k) != [] {
      BaseIsLeast(s.policy, s.evidence, s.tensors[k]);
    }
  }

  /** Every tensor has an option and the plan is within budget exactly when some assignment fits. */
  lemma PlanFitsIffSomeAssignmentFits(s: Setting)
    ensures |Selected(s)| == |s.tensors| && Total(Selected(s)) <= s.policy.Budget() <==> SomeAssignmentFits(s)
  {
    hide Upgraded, Total, BaseChoices, OffersFor, Assignment, OfferedBytes, Improves;
    var n := |s.tensors|;
    UpgradesImprove(s, BaseChoices(s, n));
    UpgradesKeepBudget(s, BaseChoices(s, n));
    AllChosenIff(s, n);
    if AllHaveOptions(s, n) {
      var least := BaseIsLeastTotal(s, n);
      assert Assignment(s, least, n);
    }
    if SomeAssignmentFits(s) {
      var offers :| Assignment(s, offers, n) && OfferedBytes(offers) <= s.policy.Budget();
      AssignmentNeedsOptions(s, offers);
    }
  }

  // ---- what feasible says -------------------------------------------------------------------

  lemma OverBudgetIsWorded(total: nat, budget: nat)
    ensures Contains(Wording(OverBudget(total, budget)), OVER)
  {
    var front := "minimum/selected allocation " + Number(total) + " ";
    var back := " " + Number(budget);
    assert Wording(OverBudget(total, budget)) == front + OVER + back;
    assert OccursAt(front + OVER + back, OVER, |front|);
  }

  /** The other wordings contain the phrase only when the tensor's own id does. */
  lemma OtherRisksAreWorded(id: string, format: string)
    requires 'x' !in format
    ensures Contains(Wording(Unmeasured(id, format)), OVER) <==> Contains(id, OVER)
  {
    var tail := " selected " + format + " without behavioral calibration";
    assert OVER[1] == 'x' && 'x' !in " selected " && 'x' !in " without behavioral calibration";
    LacksChar(tail, OVER, 1);
    ContainsAcross(id, ':', tail, OVER);
  }

  /** A tensor whose base format has no behavioral measurement. */
  ghost predicate Flagged(s: Setting, k: nat)
    requires k < |s.tensors|
  {
    BaseChoice(s, k).Some? && !BaseChoice(s, k).value.behavioral
  }

  /** No flagged tensor has the budget phrase in its id. */
  ghost predicate IdsAreClear(s: Setting, n: nat)
    requires n <= |s.tensors|
  {
    forall k :: 0 <= k < n && Flagged(s, k) ==> !Contains(s.tensors[k].id, OVER)
  }

  lemma BaseFormatLacksX(s: Setting, k: nat)
    requires k < |s.tensors| && BaseChoice(s, k).Some?
    ensures 'x' !in BaseChoice(s, k).value.format
  {
    var offers := OffersFor(s, k);
    var offer := Earliest(offers);
    BaseIsLeast(s.policy, s.evidence, s.tensors[k]);
    hide Offers, Earliest, Spec;
    var i :| 0 <= i < |s.policy.Candidates()|
        && OfferOf(s.policy, s.evidence, s.tensors[k], s.policy.Candidates()[i]) == Some(offer);
    SpecFacts(s.policy.Candidates()[i]);
  }

  lemma {:induction false} BaseRisksQuietIff(s: Setting, n: nat)
    requires n <= |s.tensors| && AllHaveOptions(s, n)
    ensures Quiet(BaseRisks(s, n)) <==> IdsAreClear(s, n)
  {
    hide OffersFor, Wording, Contains, Earliest, Quiet;
    if n == 0 {
      QuietOne([]);
    } else {
      BaseRisksQuietIff(s, n - 1);
      if Flagged(s, n - 1) {
        BaseFormatLacksX(s, n - 1);
        OtherRisksAreWorded(s.tensors[n - 1].id, BaseChoice(s, n - 1).value.format);
      }
      QuietConcat(BaseRisks(s, n - 1), RisksOf(s, n - 1));
      QuietOne(RisksOf(s, n - 1));
    }
  }

  lemma QuietOne(risks: seq<Risk>)
    requires |risks| <= 1
    ensures Quiet(risks) <==> risks == [] || !Contains(Wording(risks[0]), OVER)
  {
    hide Contains, Wording;
  }

  lemma QuietConcat(a: seq<Risk>, b: seq<Risk>)
    ensures Quiet(a + b) <==> Quiet(a) && Quiet(b)
  {
    hide Contains, Wording;
    if Quiet(a + b) {
      forall k | 0 <= k < |a| ensures !Contains(Wording(a[k]), OVER) {
        assert (a + b)[k] == a[k];
      }
      forall k | 0 <= k < |b| ensures !Contains(Wording(b[k]), OVER) {
        assert (a + b)[|a| + k] == b[k];
      }
    }
  }

  /**
   A plan is reported feasible exactly when some permitted assignment fits the
   budget and no tensor without behavioral evidence has the words "exceeds
   budget" in its id.
   */
  lemma FeasibleIff(s: Setting)
    ensures Feasible(s) <==> SomeAssignmentFits(s) && IdsAreClear(s, |s.tensors|)
  {
    hide Upgraded, Total, BaseChoices, OffersFor, Wording, Contains, SomeAssignmentFits, IdsAreClear, BaseRisks,
        Improves, Quiet;
    var n, total := |s.tensors|, Total(Selected(s));
    PlanFitsIffSomeAssignmentFits(s);
    UpgradesImprove(s, BaseChoices(s, n));
    AllChosenIff(s, n);
    if |Selected(s)| == n {
      BaseRisksQuietIff(s, n);
      var extra := if total > s.policy.Budget() then [OverBudget(total, s.policy.Budget())] else [];
      QuietConcat(BaseRisks(s, n), extra);
      OverBudgetIsWorded(total, s.policy.Budget());
      QuietOne(extra);
    }
  }

  /** One tensor with that phrase as its id, no evidence, and no limit on bytes. */
  function PhraseAsId(): Setting {
    Setting([Tensor(OVER, 256, Embedding, 0, None, None)], Policy(None, ["Q6_K"], [], [], [], "vulkan", 1), map[])
  }

  lemma PhraseOffer() returns (offer: Offer)
    ensures var s := PhraseAsId();
            && |s.tensors| == 1 && |s.policy.Candidates()| == 1 && s.policy.Budget() == U64_MAX
            && OfferOf(s.policy, s.evidence, s.tensors[0], s.policy.Candidates()[0]) == Some(offer)
            && offer.bytes == 210 && offer.loss == None
  {
    UpperNames();
    hide Upper, KernelFor;
    offer := Offer(FormatSpec("Q6_K", 65625, 210), 210, KernelFor("Q6_K", "vulkan"), None);
    assert QuantizedBytes(FormatSpec("Q6_K", 65625, 210), 256) == 210;
  }

  /** That tensor makes the plan infeasible although its only assignment fits. */
  lemma FeasibleMisreads()
    ensures SomeAssignmentFits(PhraseAsId()) && !Feasible(PhraseAsId())
  {
    var s := PhraseAsId();
    var offer := PhraseOffer();
    OnlyOffer(s, offer);
    hide OfferOf, Feasible, Offers, Earliest, Contains;
    assert Permits(s.policy, s.evidence, s.tensors[0], offer);
    assert [offer][..0] == [] && OfferedBytes([offer]) == 210;
    assert Assignment(s, [offer], 1);
    assert SomeAssignmentFits(s);
    assert Contains(s.tensors[0].id, OVER) by { ContainsItself(OVER); }
    assert Flagged(s, 0) && !IdsAreClear(s, 1);
    hide SomeAssignmentFits, IdsAreClear;
    FeasibleIff(s);
  }

  lemma ContainsItself(text: string)
    ensures Contains(text, text)
  {
    assert OccursAt(text, text, 0);
  }

  lemma OnlyOffer(s: Setting, offer: Offer)
    requires |s.tensors| == 1 && |s.policy.Candidates()| == 1
    requires OfferOf(s.policy, s.evidence, s.tensors[0], s.policy.Candidates()[0]) == Some(offer)
    ensures OffersFor(s, 0) == [offer] && Earliest(OffersFor(s, 0)) == offer
  {
    hide OfferOf;
    assert Offers(s.policy, s.evidence, s.tensors[0], s.policy.Candidates(), 1) == [];
    assert [offer] + [] == [offer];
  }

  // ---- what every selected choice is --------------------------------------------------------------

  ghost predicate DistinctIds(tensors: seq<Tensor>) {
    forall i, j :: 0 <= i < j < |tensors| ==> tensors[i].id != tensors[j].id
  }

  lemma {:induction false} FindsOwn(tensors: seq<Tensor>, k: nat)
    requires DistinctIds(tensors) && k < |tensors|
    ensures FindTensor(tensors, tensors[k].id) == Some(tensors[k])
  {
    if k > 0 {
      FindsOwn(tensors[1..], k - 1);
    }
  }

  /** A base choice belongs to its tensor, with that tensor's bytes and the top format if protected. */
  lemma BaseChoiceFacts(s: Setting, k: nat)
    requires k < |s.tensors| && BaseChoice(s, k).Some?
    ensures var choice, tensor := BaseChoice(s, k).value, s.tensors[k];
            && choice.tensorId == tensor.id && choice.isProtected == s.policy.Protects(tensor.role)
            && (choice.isProtected ==> choice.format == TOP)
            && (DistinctIds(s.tensors) ==> BytesExact(s, choice))
  {
    var offer, tensor := Earliest(OffersFor(s, k)), s.tensors[k];
    BaseIsLeast(s.policy, s.evidence, tensor);
    hide Offers, Earliest, Spec, FindTensor;
    if s.policy.Protects(tensor.role) {
      ProtectedOffersAreTop(s.policy, s.evidence, tensor, offer);
    }
    var i :| 0 <= i < |s.policy.Candidates()|
        && OfferOf(s.policy, s.evidence, tensor, s.policy.Candidates()[i]) == Some(offer);
    SpecFacts(s.policy.Candidates()[i]);
    if DistinctIds(s.tensors) {
      FindsOwn(s.tensors, k);
    }
  }

  /** The tensors among the first n that have an option, in order. */
  ghost function WithOptions(s: Setting, n: nat): seq<nat>
    requires n <= |s.tensors|
  {
    if n == 0 then []
    else if BaseChoice(s, n - 1).None? then WithOptions(s, n - 1)
    else WithOptions(s, n - 1) + [n - 1]
  }

  /** They are exactly the tensors with a base choice, each once, and the base choices are theirs. */
  lemma {:induction false} BaseChoicesAre(s: Setting, n: nat)
    requires n <= |s.tensors|
    ensures var ks, choices := WithOptions(s, n), BaseChoices(s, n);
            && |ks| == |choices|
            && (forall j :: 0 <= j < |ks| ==> ks[j] < n && BaseChoice(s, ks[j]) == Some(choices[j]))
            && (forall i, j :: 0 <= i < j < |ks| ==> ks[i] < ks[j])
            && (forall k :: 0 <= k < n && BaseChoice(s, k).Some? ==> k in ks)
    decreases n
  {
    hide BaseChoice;
    if n > 0 {
      BaseChoicesAre(s, n - 1);
    }
  }

  /**
   Whichever tensors have no option: the j-th selected choice is for the j-th
   tensor with one and improves on its base choice; it has exactly the bytes of
   its format; a protected tensor has the top format; and nothing more fits.
   */
  lemma SelectedFacts(s: Setting, j: nat)
    requires DistinctIds(s.tensors) && j < |Selected(s)|
    ensures |WithOptions(s, |s.tensors|)| == |Selected(s)|
    ensures var k := WithOptions(s, |s.tensors|)[j];
            && k < |s.tensors| && BaseChoice(s, k).Some?
            && var choice, tensor := Selected(s)[j], s.tensors[k];
               && choice.tensorId == tensor.id && Improves(s, BaseChoice(s, k).value, choice) && BytesExact(s, choice)
               && choice.bytes == QuantizedBytes(Spec(choice.format).value, tensor.elements)
               && (s.policy.Protects(tensor.role) ==> choice.format == TOP)
    ensures NothingFits(s, Selected(s), Remaining(s, Selected(s)))
  {
    hide Upgraded, Spec, FindTensor, Remaining, NothingFits, QuantizedBytes, Routed, KernelFor, WithOptions,
        BaseChoices;
    hide BaseChoice;
    var n := |s.tensors|;
    BaseChoicesAre(s, n);
    UpgradesImprove(s, BaseChoices(s, n));
    UpgradesExhaust(s, BaseChoices(s, n));
    var k := WithOptions(s, n)[j];
    BaseChoiceFacts(s, k);
    FindsOwn(s.tensors, k);
    var base, choice := BaseChoice(s, k).value, Selected(s)[j];
    assert Improves(s, base, choice);
    if base.isProtected {
      TopStays(s, base, choice);
    }
  }


  /** The number that a decimal text spells. */
  function Spelled(s: string): int {
    if s == "" then 0 else Spelled(s[..|s| - 1]) * 10 + (s[|s| - 1] as int - '0' as int)
  }

  /** Totals and budgets are worded in decimal. */
  lemma {:induction false} NumberSpells(n: nat)
    ensures Spelled(Number(n)) == n && Number(n) != "" && (Number(n) == "0" || Number(n)[0] != '0')
    ensures forall i :: 0 <= i < |Number(n)| ==> '0' <= Number(n)[i] <= '9'
  {
    var s := Number(n);
    if n >= 10 {
      NumberSpells(n / 10);
      assert s[..|s| - 1] == Number(n / 10);
    } else {
      assert s[..0] == "";
    }
  }
}
