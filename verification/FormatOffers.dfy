/** What a tensor may be quantized to, and the least of it. */
module FormatOffers {
  import opened Wrappers
  import opened Arithmetic
  import AsciiText
  import opened FormatSpecs

  datatype Role =
    | Embedding | AttentionQ | AttentionK | AttentionV | AttentionO
    | DenseFfnGate | DenseFfnUp | DenseFfnDown
    | RoutedExpertGate | RoutedExpertUp | RoutedExpertDown | SharedExpert
    | Router | Normalization | Output | Mtp | MetadataOther
  {
    predicate IsRoutedExpert() {
      RoutedExpertGate? || RoutedExpertUp? || RoutedExpertDown?
    }

    predicate IsProtectedDefault() {
      Router? || Output? || Mtp?
    }
  }

  datatype Tensor = Tensor(
    id: string, elements: u64, role: Role, sourceBytes: u64, layer: Option<u32>, expert: Option<u32>
  )

  datatype Policy = Policy(
    budget: Option<u64>,
    candidateFormats: seq<string>,
    protectRoles: seq<Role>,
    supportedFormats: seq<string>,
    kernelPaths: seq<string>,
    backend: string,
    activeExperts: u32)
  {
    function Budget(): u64 {
      if budget.Some? then budget.value else U64_MAX
    }

    function Candidates(): seq<string> {
      if candidateFormats == [] then ["Q4_K_S", "Q5_K_M", "Q6_K", "Q8_K_XL"] else candidateFormats
    }

    predicate Protects(role: Role) {
      role in protectRoles || role.IsProtectedDefault()
    }

    predicate Supports(name: string) {
      supportedFormats == []
          || exists i :: 0 <= i < |supportedFormats| && AsciiText.SameButCase(supportedFormats[i], name)
    }

    predicate HasKernel(name: string) {
      kernelPaths == [] || KernelFor(name, backend) in kernelPaths
    }
  }

  // ---- calibration evidence ------------------------------------------------------------

  datatype Row = Row(
    group: string, format: string, metrics: map<string, real>, qualityLoss: Option<real>, behavioral: bool
  )

  const AGREEMENTS: seq<string> :=
    ["top_token_agreement", "routing_topk_agreement", "mtp_acceptance", "rare_fact_exact", "code_math_score",
     "long_context_retrieval"]

  function NonNegative(x: real): real {
    if x < 0.0 then 0.0 else x
  }

  /** The losses that the metrics from the i-th agreement on contribute. */
  function AgreementLosses(metrics: map<string, real>, i: nat): seq<real>
    requires i <= |AGREEMENTS|
    decreases |AGREEMENTS| - i
  {
    if i == |AGREEMENTS| then []
    else
      (if AGREEMENTS[i] in metrics then [NonNegative(1.0 - metrics[AGREEMENTS[i]])] else [])
      + AgreementLosses(metrics, i + 1)
  }

  function Losses(metrics: map<string, real>): seq<real> {
    (if "logit_kl" in metrics then [NonNegative(metrics["logit_kl"])] else []) + AgreementLosses(metrics, 0)
  }

  function SumOf(s: seq<real>): real {
    if s == [] then 0.0 else SumOf(s[..|s| - 1]) + s[|s| - 1]
  }

  function MeasuredLoss(row: Row): Option<real> {
    if !row.behavioral then None
    else if row.qualityLoss.Some? then row.qualityLoss
    else if Losses(row.metrics) == [] then None
    else Some(SumOf(Losses(row.metrics)) / |Losses(row.metrics)| as real)
  }

  /** A mean of non-negative losses is non-negative; only a stated loss can be below zero. */
  lemma MeasuredLossIsNonNegative(row: Row)
    ensures MeasuredLoss(row).Some? && row.qualityLoss.None? ==> MeasuredLoss(row).value >= 0.0
  {
    hide Losses, SumOf;
    LossesNonNegative(row.metrics);
    SumNonNegative(Losses(row.metrics));
    if Losses(row.metrics) != [] {
      NonNegativeQuotient(SumOf(Losses(row.metrics)), |Losses(row.metrics)| as real);
    }
  }

  lemma NonNegativeQuotient(a: real, b: real)
    requires a >= 0.0 && b > 0.0
    ensures a / b >= 0.0
  {
  }

  lemma LossesNonNegative(metrics: map<string, real>)
    ensures forall k :: 0 <= k < |Losses(metrics)| ==> Losses(metrics)[k] >= 0.0
  {
    hide AgreementLosses;
    AgreementLossesNonNegative(metrics, 0);
  }

  lemma {:induction false} AgreementLossesNonNegative(metrics: map<string, real>, i: nat)
    requires i <= |AGREEMENTS|
    ensures forall k :: 0 <= k < |AgreementLosses(metrics, i)| ==> AgreementLosses(metrics, i)[k] >= 0.0
    decreases |AGREEMENTS| - i
  {
    if i < |AGREEMENTS| {
      AgreementLossesNonNegative(metrics, i + 1);
    }
  }

  lemma {:induction false} SumNonNegative(s: seq<real>)
    requires forall k :: 0 <= k < |s| ==> s[k] >= 0.0
    ensures SumOf(s) >= 0.0
  {
    if s != [] {
      SumNonNegative(s[..|s| - 1]);
    }
  }

  type Evidence = map<(string, string), Row>

  /** One row a group and format; the last one counts. */
  function EvidenceOf(rows: seq<Row>): Evidence {
    if rows == [] then map[]
    else
      var row := rows[|rows| - 1];
      EvidenceOf(rows[..|rows| - 1])[(row.group, AsciiText.Upper(row.format)) := row]
  }

  method ByGroupFormat(rows: seq<Row>) returns (evidence: Evidence)
    ensures evidence == EvidenceOf(rows)
  {
    evidence := map[];
    for i := 0 to |rows|
      invariant evidence == EvidenceOf(rows[..i])
    {
      assert rows[..i + 1][..i] == rows[..i];
      evidence := evidence[(rows[i].group, AsciiText.Upper(rows[i].format)) := rows[i]];
    }
    assert rows[..|rows|] == rows;
  }

  function LossFor(evidence: Evidence, id: string, format: string): Option<real> {
    if (id, AsciiText.Upper(format)) in evidence then MeasuredLoss(evidence[(id, AsciiText.Upper(format))]) else None
  }

  // ---- offers ----------------------------------------------------------------------------

  datatype Offer = Offer(spec: FormatSpec, bytes: nat, kernel: string, loss: Option<real>)

  /** What one candidate format offers a tensor, if protection, support and kernels permit it. */
  function OfferOf(policy: Policy, evidence: Evidence, tensor: Tensor, format: string): (r: Option<Offer>) {
    match Spec(format)
    case None => None
    case Some(spec) =>
      if policy.Protects(tensor.role) && spec.bits < TOP_BITS then None
      else if !policy.Supports(spec.name) then None
      else if !policy.HasKernel(spec.name) then None
      else Some(Offer(spec, QuantizedBytes(spec, tensor.elements), KernelFor(spec.name, policy.backend),
                      LossFor(evidence, tensor.id, format)))
  }

  /** Fewer bytes first, then fewer bits. */
  predicate Before(a: Offer, b: Offer) {
    a.bytes < b.bytes || (a.bytes == b.bytes && a.spec.bits < b.spec.bits)
  }

  /** The offers of the candidates from the i-th on, in order. */
  function Offers(policy: Policy, evidence: Evidence, tensor: Tensor, candidates: seq<string>, i: nat): seq<Offer>
    requires i <= |candidates|
    decreases |candidates| - i
  {
    if i == |candidates| then []
    else
      var rest := Offers(policy, evidence, tensor, candidates, i + 1);
      match OfferOf(policy, evidence, tensor, candidates[i])
      case None => rest
      case Some(offer) => [offer] + rest
  }

  /** What a stable sort puts first: the earliest of the least. */
  function Earliest(offers: seq<Offer>): (r: Offer)
    requires offers != []
    ensures r in offers && forall k :: 0 <= k < |offers| ==> !Before(offers[k], r)
  {
    if |offers| == 1 then offers[0]
    else
      var rest := Earliest(offers[1..]);
      if Before(rest, offers[0]) then rest else offers[0]
  }

  method CollectOffers(
    policy: Policy, evidence: Evidence, tensor: Tensor, candidates: seq<string>
  ) returns (offers: seq<Offer>)
    ensures offers == Offers(policy, evidence, tensor, candidates, 0)
  {
    hide OfferOf, Offers;
    offers := [];
    assert offers + Offers(policy, evidence, tensor, candidates, 0) == Offers(policy, evidence, tensor, candidates, 0);
    for i := 0 to |candidates|
      invariant offers + Offers(policy, evidence, tensor, candidates, i)
                == Offers(policy, evidence, tensor, candidates, 0)
    {
      var offer := OfferOf(policy, evidence, tensor, candidates[i]);
      ghost var rest := Offers(policy, evidence, tensor, candidates, i + 1);
      OffersStep(policy, evidence, tensor, candidates, i);
      if offer.Some? {
        Regroup(offers, offer.value, rest);
        offers := offers + [offer.value];
      }
    }
    OffersStep(policy, evidence, tensor, candidates, |candidates|);
    assert offers + [] == offers;
  }

  lemma Regroup(front: seq<Offer>, offer: Offer, rest: seq<Offer>)
    ensures front + ([offer] + rest) == front + [offer] + rest
  {
  }

  lemma OffersStep(policy: Policy, evidence: Evidence, tensor: Tensor, candidates: seq<string>, i: nat)
    requires i <= |candidates|
    ensures Offers(policy, evidence, tensor, candidates, i)
            == if i == |candidates| then []
               else
                 var rest := Offers(policy, evidence, tensor, candidates, i + 1);
                 match OfferOf(policy, evidence, tensor, candidates[i])
                 { case None => rest case Some(offer) => [offer] + rest }
  {
    hide OfferOf;
  }

  /** A tensor may take the format of this offer. */
  ghost predicate Permits(policy: Policy, evidence: Evidence, tensor: Tensor, offer: Offer) {
    exists i :: 0 <= i < |policy.Candidates()|
        && OfferOf(policy, evidence, tensor, policy.Candidates()[i]) == Some(offer)
  }

  lemma {:induction false} OffersAre(
    policy: Policy, evidence: Evidence, tensor: Tensor, candidates: seq<string>, i: nat, offer: Offer
  )
    requires i <= |candidates|
    ensures offer in Offers(policy, evidence, tensor, candidates, i)
            <==> exists k :: i <= k < |candidates| && OfferOf(policy, evidence, tensor, candidates[k]) == Some(offer)
    decreases |candidates| - i
  {
    hide OfferOf;
    if i < |candidates| {
      OffersAre(policy, evidence, tensor, candidates, i + 1, offer);
      assert OfferOf(policy, evidence, tensor, candidates[i]) == Some(offer)
             ==> offer in Offers(policy, evidence, tensor, candidates, i);
    }
  }

  ghost function AllOffers(policy: Policy, evidence: Evidence, tensor: Tensor): seq<Offer> {
    Offers(policy, evidence, tensor, policy.Candidates(), 0)
  }

  /** The base choice is permitted, and no permitted format takes fewer bytes. */
  lemma BaseIsLeast(policy: Policy, evidence: Evidence, tensor: Tensor)
    ensures AllOffers(policy, evidence, tensor) != [] <==> exists offer :: Permits(policy, evidence, tensor, offer)
    ensures var offers := AllOffers(policy, evidence, tensor);
            offers != [] ==> Permits(policy, evidence, tensor, Earliest(offers))
                             && forall offer :: Permits(policy, evidence, tensor, offer)
                                  ==> Earliest(offers).bytes <= offer.bytes
  {
    hide Offers, OfferOf, Earliest;
    var offers := AllOffers(policy, evidence, tensor);
    forall offer ensures offer in offers <==> Permits(policy, evidence, tensor, offer) {
      OffersAre(policy, evidence, tensor, policy.Candidates(), 0, offer);
    }
    if offers != [] {
      assert offers[0] in offers;
      forall offer | Permits(policy, evidence, tensor, offer) ensures Earliest(offers).bytes <= offer.bytes {
        var k :| 0 <= k < |offers| && offers[k] == offer;
        assert !Before(offers[k], Earliest(offers));
      }
    }
  }

  /** A protected tensor is offered the top format or nothing. */
  lemma ProtectedOffersAreTop(policy: Policy, evidence: Evidence, tensor: Tensor, offer: Offer)
    requires policy.Protects(tensor.role) && Permits(policy, evidence, tensor, offer)
    ensures offer.spec.name == TOP && offer.spec.bits == TOP_BITS
  {
    hide Spec;
    var i :| 0 <= i < |policy.Candidates()| && OfferOf(policy, evidence, tensor, policy.Candidates()[i]) == Some(offer);
    SpecFacts(policy.Candidates()[i]);
  }
}
