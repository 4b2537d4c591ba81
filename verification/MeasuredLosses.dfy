/** What calibration rows say of a tensor's loss, metric by metric. */
module MeasuredLosses {
  import opened Wrappers
  import opened FormatOffers

  // ---- one row --------------------------------------------------------------------------

  ghost function NamesFrom(i: nat): set<string> {
    set k: nat | i <= k < |AGREEMENTS| :: AGREEMENTS[k]
  }

  /** The divergence and the six agreements. */
  ghost function Names(): set<string> {
    {"logit_kl", "top_token_agreement", "routing_topk_agreement", "mtp_acceptance", "rare_fact_exact",
     "code_math_score", "long_context_retrieval"}
  }

  /** A divergence counts as it is, an agreement by what it lacks to one, neither below zero. */
  function Contribution(metrics: map<string, real>, name: string): real
    requires name in metrics
  {
    var x := if name == "logit_kl" then metrics[name] else 1.0 - metrics[name];
    if x > 0.0 then x else 0.0
  }

  ghost function SumOver(metrics: map<string, real>, names: set<string>): real
    requires names <= metrics.Keys
  {
    if names == {} then 0.0
    else
      var name :| name in names;
      Contribution(metrics, name) + SumOver(metrics, names - {name})
  }

  lemma {:induction false} SumOverRemove(metrics: map<string, real>, names: set<string>, name: string)
    requires names <= metrics.Keys && name in names
    ensures SumOver(metrics, names) == Contribution(metrics, name) + SumOver(metrics, names - {name})
    decreases |names|
  {
    hide Contribution;
    var first :| first in names
                 && SumOver(metrics, names) == Contribution(metrics, first) + SumOver(metrics, names - {first});
    if first != name {
      SumOverRemove(metrics, names - {first}, name);
      SumOverRemove(metrics, names - {name}, first);
      assert names - {first} - {name} == names - {name} - {first};
    }
  }

  lemma {:induction false} SumOfFront(x: real, rest: seq<real>)
    ensures SumOf([x] + rest) == x + SumOf(rest)
  {
    if rest == [] {
      assert [x] + rest == [x] && [x][..0] == [];
      assert SumOf([x]) == SumOf([x][..0]) + x;
    } else {
      var s := [x] + rest;
      assert s[..|s| - 1] == [x] + rest[..|rest| - 1];
      SumOfFront(x, rest[..|rest| - 1]);
    }
  }

  lemma AgreementsDiffer(i: nat)
    requires i < |AGREEMENTS|
    ensures NamesFrom(i) == {AGREEMENTS[i]} + NamesFrom(i + 1) && AGREEMENTS[i] !in NamesFrom(i + 1)
    ensures AGREEMENTS[i] != "logit_kl"
  {
    forall k: nat | i < k < |AGREEMENTS| ensures AGREEMENTS[k] != AGREEMENTS[i] {
      assert |AGREEMENTS[k]| != |AGREEMENTS[i]| || AGREEMENTS[k][0] != AGREEMENTS[i][0];
    }
    assert |AGREEMENTS[i]| != |"logit_kl"|;
  }

  /** The agreements from the i-th on contribute exactly those that are there, each once. */
  lemma {:induction false} AgreementsAre(metrics: map<string, real>, i: nat)
    requires i <= |AGREEMENTS|
    ensures var there := NamesFrom(i) * metrics.Keys;
            |AgreementLosses(metrics, i)| == |there| && SumOf(AgreementLosses(metrics, i)) == SumOver(metrics, there)
    decreases |AGREEMENTS| - i
  {
    if i == |AGREEMENTS| {
      assert NamesFrom(i) * metrics.Keys == {};
    } else {
      hide Contribution, SumOf, SumOver, NamesFrom, AgreementLosses;
      AgreementsDiffer(i);
      AgreementStep(metrics, i);
      AgreementsAre(metrics, i + 1);
      OneNameMore(metrics, AGREEMENTS[i], NamesFrom(i + 1), NamesFrom(i), AgreementLosses(metrics, i + 1),
                  AgreementLosses(metrics, i));
    }
  }

  lemma AgreementStep(metrics: map<string, real>, i: nat)
    requires i < |AGREEMENTS| && AGREEMENTS[i] != "logit_kl"
    ensures AgreementLosses(metrics, i)
            == (if AGREEMENTS[i] in metrics then [Contribution(metrics, AGREEMENTS[i])] else [])
               + AgreementLosses(metrics, i + 1)
  {
  }

  lemma OneNameMore(
    metrics: map<string, real>, name: string, names: set<string>, names': set<string>, losses: seq<real>,
    losses': seq<real>
  )
    requires name !in names && names' == {name} + names
    requires |losses| == |names * metrics.Keys| && SumOf(losses) == SumOver(metrics, names * metrics.Keys)
    requires losses' == (if name in metrics then [Contribution(metrics, name)] else []) + losses
    ensures |losses'| == |names' * metrics.Keys| && SumOf(losses') == SumOver(metrics, names' * metrics.Keys)
  {
    hide Contribution, SumOver, SumOf;
    var there, there' := names * metrics.Keys, names' * metrics.Keys;
    if name in metrics {
      assert there' - {name} == there;
      SumOverRemove(metrics, there', name);
      SumOfFront(Contribution(metrics, name), losses);
    } else {
      assert there' == there && [] + losses == losses;
    }
  }

  lemma LossesAre(metrics: map<string, real>)
    ensures var there := Names() * metrics.Keys;
            |Losses(metrics)| == |there| && SumOf(Losses(metrics)) == SumOver(metrics, there)
  {
    AgreementsAre(metrics, 0);
    LogitIsNoAgreement();
    AllNames();
    hide NamesFrom, AgreementLosses, SumOver, SumOf, Names;
    OneNameMore(metrics, "logit_kl", NamesFrom(0), Names(), AgreementLosses(metrics, 0), Losses(metrics));
  }

  lemma AllNames()
    ensures Names() == {"logit_kl"} + NamesFrom(0)
  {
    assert |AGREEMENTS| == 6;
    assert NamesFrom(0) == {AGREEMENTS[0], AGREEMENTS[1], AGREEMENTS[2], AGREEMENTS[3], AGREEMENTS[4], AGREEMENTS[5]};
  }

  lemma LogitIsNoAgreement()
    ensures "logit_kl" !in NamesFrom(0)
  {
    forall k: nat | k < |AGREEMENTS| ensures AGREEMENTS[k] != "logit_kl" {
      AgreementsDiffer(k);
    }
  }

  /** No behavior, no loss; a stated loss as it is; otherwise the mean of what the metrics there contribute. */
  lemma MeasuredLossIs(row: Row)
    ensures !row.behavioral ==> MeasuredLoss(row) == None
    ensures row.behavioral && row.qualityLoss.Some? ==> MeasuredLoss(row) == row.qualityLoss
    ensures row.behavioral && row.qualityLoss.None? ==>
              var there := Names() * row.metrics.Keys;
              && (MeasuredLoss(row).None? <==> there == {})
              && (there != {} ==> MeasuredLoss(row).value * |there| as real == SumOver(row.metrics, there))
  {
    LossesAre(row.metrics);
    hide Losses, SumOf, SumOver, Names;
    var losses, there := Losses(row.metrics), Names() * row.metrics.Keys;
    if losses != [] {
      MeanTimesCount(SumOf(losses), |losses| as real);
    }
    assert losses == [] <==> there == {};
  }

  lemma MeanTimesCount(sum: real, count: real)
    requires count > 0.0
    ensures sum / count * count == sum
  {
  }

  // ---- all rows -----------------------------------------------------------------------------

  /** The last row for a group and a format, whatever the format's case. */
  ghost predicate LastRow(rows: seq<Row>, group: string, format: string, i: int) {
    && 0 <= i < |rows| && rows[i].group == group && AsciiText.SameButCase(rows[i].format, format)
    && forall k :: i < k < |rows| ==> !(rows[k].group == group && AsciiText.SameButCase(rows[k].format, format))
  }

  ghost predicate NoRow(rows: seq<Row>, group: string, format: string) {
    forall k :: 0 <= k < |rows| ==> !(rows[k].group == group && AsciiText.SameButCase(rows[k].format, format))
  }

  /** What a tensor is known to lose in a format is what the last row about both measures. */
  lemma {:induction false} LossIsLastMeasured(rows: seq<Row>, id: string, format: string) returns (i: int)
    ensures NoRow(rows, id, format) ==> LossFor(EvidenceOf(rows), id, format) == None
    ensures !NoRow(rows, id, format) ==>
              LastRow(rows, id, format, i) && LossFor(EvidenceOf(rows), id, format) == MeasuredLoss(rows[i])
  {
    hide MeasuredLoss, AsciiText.Upper;
    if rows == [] {
      i := -1;
    } else {
      var last := |rows| - 1;
      i := LossIsLastMeasured(rows[..last], id, format);
      if rows[last].group == id && AsciiText.SameButCase(rows[last].format, format) {
        i := last;
      } else if !NoRow(rows[..last], id, format) {
        assert LastRow(rows[..last], id, format, i);
        assert rows[..last][i] == rows[i];
      }
    }
  }
}
