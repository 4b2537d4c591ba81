/**
 What an upgrade round picks, in terms of bytes, bits and measured losses alone:
 among all admissible upgrades one with the greatest loss reduction a byte.
 */
module UpgradeLaw {
  import opened FormatSpecs
  import opened FormatOffers
  import opened FormatUpgrades

  /**
   The same tensor in a candidate format with more bits: its exact bytes fit into
   what remains, and its measured loss is lower.
   */
  ghost predicate Admissible(s: Setting, current: Choice, x: Choice, remaining: nat) {
    && Spec(current.format).Some? && Spec(x.format).Some?
    && Spec(current.format).value.bits < Spec(x.format).value.bits
    && x.tensorId == current.tensorId && x.isProtected == current.isProtected && x.behavioral
    && BytesExact(s, x) && current.bytes < x.bytes <= current.bytes + remaining
    && (exists d :: 0 <= d < |s.policy.Candidates()| && MeasuredAs(s, x, s.policy.Candidates()[d]))
    && LossOf(x) < LossOf(current)
  }

  /** What is offered is admissible. */
  lemma OfferedIsAdmissible(s: Setting, current: Choice, d: nat, remaining: nat)
    requires d < |s.policy.Candidates()| && UpgradeOf(s, current, s.policy.Candidates()[d], remaining).Some?
    ensures Admissible(s, current, UpgradeOf(s, current, s.policy.Candidates()[d], remaining).value.choice, remaining)
  {
    var candidate := s.policy.Candidates()[d];
    hide UpgradeOf, Spec, QuantizedBytes, KernelFor, LossFor, Routed, FindTensor, BytesExact, MeasuredAs;
    UpgradeImproves(s, current, candidate, remaining);
    UpgradeIsExact(s, current, candidate, remaining);
    UpgradeIsMeasured(s, current, candidate, remaining);
  }

  /** Its loss is the candidate's measured one, and its score the loss reduction a byte. */
  lemma UpgradeIsMeasured(s: Setting, current: Choice, candidate: string, remaining: nat)
    requires UpgradeOf(s, current, candidate, remaining).Some?
    ensures var offered := UpgradeOf(s, current, candidate, remaining).value;
            && MeasuredAs(s, offered.choice, candidate) && offered.choice.behavioral
            && offered.choice.bytes > current.bytes
            && offered.score
                 == (LossOf(current) - LossOf(offered.choice)) / (offered.choice.bytes - current.bytes) as real
  {
    hide Spec, QuantizedBytes, KernelFor, LossFor, Routed;
  }

  /** And what is admissible is offered, for some candidate. */
  lemma AdmissibleIsOffered(s: Setting, current: Choice, x: Choice, remaining: nat) returns (d: nat)
    requires Admissible(s, current, x, remaining)
    ensures d < |s.policy.Candidates()| && UpgradeOf(s, current, s.policy.Candidates()[d], remaining).Some?
    ensures UpgradeOf(s, current, s.policy.Candidates()[d], remaining).value.choice == x
  {
    d :| 0 <= d < |s.policy.Candidates()| && MeasuredAs(s, x, s.policy.Candidates()[d]);
    SpecFacts(s.policy.Candidates()[d]);
    SpecFacts(current.format);
    hide Spec, QuantizedBytes, KernelFor, LossFor, Routed;
  }

  lemma CrossMultiplied(a: real, b: real, c: real, d: real)
    requires b > 0.0 && d > 0.0
    ensures c / d <= a / b <==> c * b <= a * d
  {
    var p, q := a / b, c / d;
    assert a == p * b && c == q * d;
    assert a * d == p * (b * d) && c * b == q * (b * d);
    assert b * d > 0.0;
    if q <= p {
      ScaledAtMost(q, p, b * d);
    } else {
      ScaledLess(p, q, b * d);
    }
  }

  lemma ScaledAtMost(x: real, y: real, m: real)
    requires x <= y && m > 0.0
    ensures x * m <= y * m
  {
  }

  lemma ScaledLess(x: real, y: real, m: real)
    requires x < y && m > 0.0
    ensures x * m < y * m
  {
  }

  /** The loss that one choice takes away, and the bytes it takes for it. */
  function Gain(current: Choice, x: Choice): real {
    LossOf(current) - LossOf(x)
  }

  function Extra(current: Choice, x: Choice): real {
    (x.bytes - current.bytes) as real
  }

  /**
   This upgrade is admissible and no admissible one takes away more loss a byte, none of an earlier choice as much.
   */
  ghost predicate BestOf(s: Setting, choices: seq<Choice>, remaining: nat, index: nat, x: Choice) {
    && index < |choices| && Admissible(s, choices[index], x, remaining)
    && forall k: nat, y :: k < |choices| && Admissible(s, choices[k], y, remaining) ==>
         var mine, other := Gain(choices[index], x) * Extra(choices[k], y),
             Gain(choices[k], y) * Extra(choices[index], x);
         if k < index then other < mine else other <= mine
  }

  ghost predicate NoneAdmissible(s: Setting, choices: seq<Choice>, remaining: nat) {
    forall k: nat, y :: k < |choices| ==> !Admissible(s, choices[k], y, remaining)
  }

  lemma ScoresCompare(s: Setting, choices: seq<Choice>, remaining: nat, p: Pick, d: nat, k: nat, y: Choice)
    requires FirstMax(s, choices, remaining, |choices|, 0, p, d)
    requires k < |choices| && Admissible(s, choices[k], y, remaining)
    ensures p.index < |choices|
    ensures var mine, other := Gain(choices[p.index], p.upgrade.choice) * Extra(choices[k], y),
                               Gain(choices[k], y) * Extra(choices[p.index], p.upgrade.choice);
            if k < p.index then other < mine else other <= mine
  {
    hide UpgradeOf, Admissible;
    var e := AdmissibleIsOffered(s, choices[k], y, remaining);
    UpgradeIsMeasured(s, choices[k], s.policy.Candidates()[e], remaining);
    UpgradeIsMeasured(s, choices[p.index], s.policy.Candidates()[d], remaining);
    assert InRange(s, choices, k, e) && Earlier(k, e, |choices|, 0);
    var x := p.upgrade.choice;
    CrossMultiplied(Gain(choices[p.index], x), Extra(choices[p.index], x), Gain(choices[k], y), Extra(choices[k], y));
    CrossMultiplied(Gain(choices[k], y), Extra(choices[k], y), Gain(choices[p.index], x), Extra(choices[p.index], x));
  }

  /** A round takes the best admissible upgrade, and there is no round exactly when none is admissible. */
  lemma RoundTakesBest(s: Setting, choices: seq<Choice>, remaining: nat)
    ensures var best := BestUpgrade(s, choices, remaining);
            && (best.None? <==> NoneAdmissible(s, choices, remaining))
            && (best.Some? ==> BestOf(s, choices, remaining, best.value.index, best.value.upgrade.choice))
  {
    hide UpgradeOf, BestUpgrade, Admissible;
    var d := BestUpgradeIs(s, choices, remaining);
    var best := BestUpgrade(s, choices, remaining);
    if best.Some? {
      OfferedIsAdmissible(s, choices[best.value.index], d, remaining);
      forall k: nat, y | k < |choices| && Admissible(s, choices[k], y, remaining)
        ensures var mine, other := Gain(choices[best.value.index], best.value.upgrade.choice) * Extra(choices[k], y),
                                   Gain(choices[k], y) * Extra(choices[best.value.index], best.value.upgrade.choice);
                if k < best.value.index then other < mine else other <= mine
      {
        ScoresCompare(s, choices, remaining, best.value, d, k, y);
      }
    } else {
      forall k: nat, y | k < |choices| ensures !Admissible(s, choices[k], y, remaining) {
        if Admissible(s, choices[k], y, remaining) {
          AdmissibleFits(s, choices, remaining, k, y);
        }
      }
    }
  }

  lemma AdmissibleFits(s: Setting, choices: seq<Choice>, remaining: nat, k: nat, y: Choice)
    requires k < |choices| && Admissible(s, choices[k], y, remaining)
    ensures !NothingFits(s, choices, remaining)
  {
    hide UpgradeOf, Admissible;
    var e := AdmissibleIsOffered(s, choices[k], y, remaining);
    assert InRange(s, choices, k, e);
  }

  // ---- the whole loop -------------------------------------------------------------------

  /** One round: the best admissible upgrade within what the budget leaves replaces its choice. */
  ghost predicate BestRound(s: Setting, choices: seq<Choice>, next: seq<Choice>) {
    exists index: nat, x ::
      BestOf(s, choices, Remaining(s, choices), index, x) && next == choices[index := x]
  }

  /** Rounds from a start until nothing is admissible any more. */
  ghost predicate Rounds(s: Setting, trace: seq<seq<Choice>>) {
    && trace != []
    && (forall i :: 0 < i < |trace| ==> BestRound(s, trace[i - 1], trace[i]))
    && NoneAdmissible(s, trace[|trace| - 1], Remaining(s, trace[|trace| - 1]))
  }

  /** The loop's result is where such rounds end. */
  lemma {:induction false} UpgradedByRounds(s: Setting, choices: seq<Choice>) returns (trace: seq<seq<Choice>>)
    ensures Rounds(s, trace) && trace[0] == choices && trace[|trace| - 1] == Upgraded(s, choices)
    decreases Headroom(choices)
  {
    hide BestUpgrade, Round, Remaining, BestOf, NoneAdmissible, Headroom;
    PickIsRound(s, choices);
    RoundTakesBest(s, choices, Remaining(s, choices));
    UpgradedUnfolds(s, choices);
    var best := BestUpgrade(s, choices, Remaining(s, choices));
    if best.None? {
      trace := [choices];
    } else {
      RoundProgress(s, choices, best.value);
      var next := choices[best.value.index := best.value.upgrade.choice];
      var rest := UpgradedByRounds(s, next);
      hide Upgraded;
      trace := [choices] + rest;
      IsBestRound(s, choices, best.value);
      forall i | 0 < i < |trace| ensures BestRound(s, trace[i - 1], trace[i]) {
        if i > 1 {
          assert trace[i - 1] == rest[i - 2] && trace[i] == rest[i - 1];
        }
      }
    }
  }

  lemma IsBestRound(s: Setting, choices: seq<Choice>, p: Pick)
    requires BestOf(s, choices, Remaining(s, choices), p.index, p.upgrade.choice)
    ensures p.index < |choices| && BestRound(s, choices, choices[p.index := p.upgrade.choice])
  {
    hide Admissible;
  }
}
