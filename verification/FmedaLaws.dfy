/**
 What the FMEDA figures mean (tools/fmeda-calculator.py), row by row and as a
 whole: which rows are accepted, where each share of a failure rate goes, and how
 coverage moves the metrics.
 */
module FmedaLaws {
  import opened Wrappers
  import opened Fmeda

  // ---------------------------------------------------------------------------
  // Rows
  // ---------------------------------------------------------------------------

  predicate IsShare(x: real) { 0.0 <= x <= 1.0 }

  /** A row is accepted exactly when its numbers are in range and its coverage claims belong to its kind. */
  lemma RowIsAcceptedIff(r: Row)
    ensures Classify(r).Some? <==>
            && r.fitTotal >= 0.0 && IsShare(r.fraction) && IsShare(r.dcSpf) && IsShare(r.dcLatent)
            && (r.excluded
                || if r.violates then r.namesSpf <==> r.dcSpf > 0.0
                   else r.dcSpf == 0.0 && (r.relevant || (r.dcLatent == 0.0 && !r.namesLatent)))
  {
    hide Mode, Portion;
  }

  /** The class of an accepted row. */
  lemma ClassIs(r: Row)
    requires Classify(r).Some?
    ensures var c := Classify(r).value.class_;
      && (c == Excluded <==> r.excluded)
      && (c == Residual <==> !r.excluded && r.violates && r.dcSpf > 0.0)
      && (c == SinglePoint <==> !r.excluded && r.violates && r.dcSpf == 0.0)
      && (c == MultiplePoint <==> !r.excluded && !r.violates && r.relevant)
      && (c == Safe <==> !r.excluded && !r.violates && !r.relevant)
  {
    hide Mode, Portion;
  }

  /**
   Where the rate of a safety-related row goes: the uncovered part of a violation is
   single-point, and of the multiple-point share the uncovered part is latent.
   */
  lemma SharesAre(r: Row)
    requires Classify(r).Some? && !r.excluded
    ensures var s := Classify(r).value;
      && s.mode == r.fitTotal * r.fraction
      && s.spfRf == (if r.violates then s.mode * (1.0 - r.dcSpf) else 0.0)
      && s.safe == (if !r.violates && !r.relevant then s.mode else 0.0)
      && s.detected + s.latent == s.mode - s.spfRf - s.safe
      && s.latent == (s.detected + s.latent) * (1.0 - r.dcLatent)
      && (r.dcLatent == 1.0 ==> s.latent == 0.0) && (r.dcLatent == 0.0 ==> s.detected == 0.0)
  {
    RowConserves(r);
    ClassIs(r);
    var s := Classify(r).value;
    var covered := if r.violates then Portion(Mode(r), r.dcSpf) else Mode(r);
    PortionsIs(Mode(r), r.dcSpf);
    PortionsIs(Mode(r), r.dcLatent);
    PortionsIs(covered, r.dcLatent);
    ModeIs(r);
    hide Mode, Portion;
  }

  lemma PortionsIs(x: real, d: real)
    ensures Portion(x, d) + Portion(x, 1.0 - d) == x
    ensures Portion(x, 1.0 - d) == x * (1.0 - d)
    ensures d == 0.0 ==> Portion(x, d) == 0.0
    ensures d == 1.0 ==> Portion(x, 1.0 - d) == 0.0
  {
  }

  // ---------------------------------------------------------------------------
  // Sums
  // ---------------------------------------------------------------------------

  function Plus(a: Sums, b: Sums): Sums {
    Sums(a.all + b.all, a.related + b.related, a.safe + b.safe, a.spfRf + b.spfRf,
         a.detected + b.detected, a.latent + b.latent, a.excluded + b.excluded)
  }

  /** One row's sums are its shares. */
  lemma SumsOfOne(r: Row)
    requires Classify(r).Some?
    ensures Classified([r])
    ensures var s, a := Classify(r).value, Totals([r]);
      && a.all == s.mode
      && a.excluded == (if r.excluded then s.mode else 0.0) && a.related == (if r.excluded then 0.0 else s.mode)
      && a.safe == s.safe && a.spfRf == s.spfRf && a.detected == s.detected && a.latent == s.latent
  {
    RowConserves(r);
    ClassIs(r);
    NothingYet();
    assert [r][..0] == [];
    hide Classify;
  }

  lemma NothingYet()
    ensures Totals([]) == Sums(0.0, 0.0, 0.0, 0.0, 0.0, 0.0, 0.0)
  {
  }

  /** The sums of two ledgers one after the other are the sums of both. */
  lemma {:induction false} SumsAdd(rows: seq<Row>, more: seq<Row>)
    requires Classified(rows) && Classified(more)
    ensures Classified(rows + more) && Totals(rows + more) == Plus(Totals(rows), Totals(more))
  {
    hide Classify;
    if more == [] {
      assert rows + more == rows;
      NothingYet();
    } else {
      var n := |more| - 1;
      SumsAdd(rows, more[..n]);
      assert (rows + more)[..|rows| + n] == rows + more[..n];
      RowZeros(more[n]);
    }
  }

  lemma RowZeros(r: Row)
    requires Classify(r).Some?
    ensures var s := Classify(r).value;
      s.class_ == Excluded ==> s.safe == 0.0 && s.spfRf == 0.0 && s.detected == 0.0 && s.latent == 0.0
  {
    hide Mode, Portion;
  }

  // ---------------------------------------------------------------------------
  // Metrics
  // ---------------------------------------------------------------------------

  /** Sums are refused exactly when one is negative, the parts exceed the total, or the lifetime is not positive. */
  lemma MetricsExistIff(related: real, spfRf: real, detected: real, latent: real, lifetime: real)
    ensures MetricsOf(related, spfRf, detected, latent, lifetime).Some? <==>
            && lifetime > 0.0 && related >= 0.0 && spfRf >= 0.0 && detected >= 0.0 && latent >= 0.0
            && spfRf + detected + latent <= related
  {
  }

  /** What the metrics of accepted sums satisfy, without a division. */
  lemma MetricsSatisfy(related: real, spfRf: real, detected: real, latent: real, lifetime: real)
    requires MetricsOf(related, spfRf, detected, latent, lifetime).Some?
    ensures var m := MetricsOf(related, spfRf, detected, latent, lifetime).value;
      && (m.spfm.Some? <==> related > 0.0)
      && (m.spfm.Some? ==> m.spfm.value * related == related - spfRf)
      && (m.lfm.Some? <==> detected + latent > 0.0)
      && (m.lfm.Some? ==> m.lfm.value * (related - spfRf) == related - spfRf - latent)
      && m.singlePoint == spfRf && m.simplified == spfRf + latent
      && m.pmhf == spfRf + m.dualPoint && m.dualPoint * 1_000_000_000.0 == detected * latent * lifetime
  {
    if related > 0.0 { RatioOf(spfRf, related); }
    if related - spfRf > 0.0 { RatioOf(latent, related - spfRf); }
    Billionth(detected * latent * lifetime);
  }

  lemma RatioOf(x: real, y: real)
    requires y > 0.0
    ensures (1.0 - x / y) * y == y - x
  {
    assert x / y * y == x;
  }

  lemma Billionth(x: real)
    ensures x / 1_000_000_000.0 * 1_000_000_000.0 == x
  {
  }

  // ---------------------------------------------------------------------------
  // Latent coverage
  // ---------------------------------------------------------------------------

  /** Better latent coverage of a row with a multiple-point share moves rate from latent to detected and nothing else. */
  lemma LatentCoverageHelpsRow(r: Row, dc: real)
    requires Classify(r).Some? && Classify(r).value.class_ in [Residual, MultiplePoint] && r.dcLatent <= dc <= 1.0
    ensures var better := Classify(r.(dcLatent := dc));
      && better.Some? && better.value.class_ == Classify(r).value.class_
      && better.value.mode == Classify(r).value.mode && better.value.spfRf == Classify(r).value.spfRf
      && better.value.safe == Classify(r).value.safe
      && better.value.detected + better.value.latent == Classify(r).value.detected + Classify(r).value.latent
      && better.value.latent <= Classify(r).value.latent
  {
    var b := r.(dcLatent := dc);
    RowIsAcceptedIff(r);
    RowIsAcceptedIff(b);
    ClassIs(r);
    ClassIs(b);
    SharesAre(r);
    SharesAre(b);
    RowConserves(r);
    hide Classify;
    var share := Classify(r).value.detected + Classify(r).value.latent;
    var t := Classify(b).value;
    assert b.fitTotal * b.fraction == r.fitTotal * r.fraction && t.mode == Classify(r).value.mode;
    assert t.spfRf == Classify(r).value.spfRf;
    LessLatent(share, t.detected + t.latent, r.dcLatent, dc, Classify(r).value.latent, t.latent);
  }

  lemma LessLatent(share: real, same: real, dc: real, better: real, latent: real, less: real)
    requires share >= 0.0 && same == share && dc <= better
    requires latent == share * (1.0 - dc) && less == same * (1.0 - better)
    ensures less <= latent
  {
    assert share * (1.0 - better) <= share * (1.0 - dc);
  }

  lemma {:induction false} LatentCoverageHelpsSums(rows: seq<Row>, i: nat, dc: real)
    requires Classified(rows) && i < |rows|
    requires Classify(rows[i]).value.class_ in [Residual, MultiplePoint] && rows[i].dcLatent <= dc <= 1.0
    ensures var better := rows[i := rows[i].(dcLatent := dc)];
      Classified(better)
      && var a, b := Totals(rows), Totals(better);
      && b.related == a.related && b.spfRf == a.spfRf && b.detected + b.latent == a.detected + a.latent && b.latent <= a.latent
  {
    hide Classify;
    var n := |rows| - 1;
    var better := rows[i := rows[i].(dcLatent := dc)];
    LatentCoverageHelpsRow(rows[i], dc);
    if i < n {
      LatentCoverageHelpsSums(rows[..n], i, dc);
      assert better[..n] == rows[..n][i := rows[i].(dcLatent := dc)];
      assert better == better[..n] + [rows[n]];
    } else {
      assert better[..n] == rows[..n];
      assert better == better[..n] + [rows[i].(dcLatent := dc)];
    }
  }

  /** Raising the latent coverage of a row never lowers the latent fault metric and never raises the simplified failure rate. */
  lemma LatentCoverageHelps(rows: seq<Row>, i: nat, dc: real, lifetime: real)
    requires Classified(rows) && i < |rows| && lifetime > 0.0
    requires Classify(rows[i]).value.class_ in [Residual, MultiplePoint] && rows[i].dcLatent <= dc <= 1.0
    ensures var better := rows[i := rows[i].(dcLatent := dc)];
      Classified(better)
      && var a, b := Totals(rows), Totals(better);
      && var m, k := MetricsOf(a.related, a.spfRf, a.detected, a.latent, lifetime),
                     MetricsOf(b.related, b.spfRf, b.detected, b.latent, lifetime);
      m.Some? && k.Some? && (m.value.lfm.Some? <==> k.value.lfm.Some?) && m.value.spfm == k.value.spfm
      && (m.value.lfm.Some? ==> m.value.lfm.value <= k.value.lfm.value) && k.value.simplified <= m.value.simplified
  {
    hide Totals, Classify, Classified;
    LatentCoverageHelpsSums(rows, i, dc);
    var better := rows[i := rows[i].(dcLatent := dc)];
    TotalsHaveMetrics(rows, lifetime);
    TotalsHaveMetrics(better, lifetime);
    var a, b := Totals(rows), Totals(better);
    if a.related - a.spfRf > 0.0 { RatioMono(b.latent, a.latent, a.related - a.spfRf); }
  }

  // ---------------------------------------------------------------------------
  // Reports
  // ---------------------------------------------------------------------------

  /** All rows of a part give one failure rate, and their fractions add up to one. */
  predicate PartsAgree(rows: seq<Row>) {
    && (forall r, q | r in rows && q in rows && r.part == q.part :: r.fitTotal == q.fitTotal)
    && (forall r | r in rows :: FractionOf(rows, r.part) == 1.0)
  }

  lemma {:induction false} FirstFitIsOne(rows: seq<Row>, p: string) returns (r: Row)
    requires p in PartIds(rows)
    ensures r in rows && r.part == p && FirstFit(rows, p) == r.fitTotal
  {
    var n := |rows| - 1;
    if p in PartIds(rows[..n]) {
      r := FirstFitIsOne(rows[..n], p);
    } else {
      r := rows[n];
    }
  }

  lemma PartsAgreeIff(rows: seq<Row>)
    ensures PartsAgree(rows) <==> Consistent(rows) && Complete(rows)
  {
    hide FirstFit, FractionOf, PartIds;
    PartIdsAre(rows);
    if PartsAgree(rows) {
      forall r | r in rows ensures r.fitTotal == FirstFit(rows, r.part) {
        var q := FirstFitIsOne(rows, r.part);
      }
    }
  }

  /** A report is made exactly when every row is accepted, the parts agree and the lifetime is positive. */
  lemma ReportExistsIff(rows: seq<Row>, lifetime: real)
    ensures Aggregated(rows, lifetime).Some?
            <==> (forall r | r in rows :: Classify(r).Some?) && PartsAgree(rows) && lifetime > 0.0
  {
    hide Classify, FractionOf, Aggregated, Consistent, Complete;
    AggregatesIff(rows, lifetime);
    PartsAgreeIff(rows);
  }

  /** Its parts are those of the rows, each complete, with the rate that its rows give and the rate that they sum to. */
  lemma ReportPartsAre(rows: seq<Row>, lifetime: real, r: Row)
    requires Aggregated(rows, lifetime).Some? && r in rows
    ensures var report := Aggregated(rows, lifetime).value;
      && r.part in report.parts && report.parts[r.part] == Part(1.0, r.fitTotal, r.fitTotal)
    ensures forall p | p in Aggregated(rows, lifetime).value.parts :: exists q | q in rows :: q.part == p
  {
    hide FractionOf, FirstFit, LambdaOf, PartIds, Totals, MetricsOf;
    PartIdsAre(rows);
    LambdaIsShare(rows, r.part, r.fitTotal);
    assert r.fitTotal == FirstFit(rows, r.part);
  }

  /** And its figures are the sums of the rows and their metrics. */
  lemma ReportFiguresAre(rows: seq<Row>, lifetime: real)
    requires Aggregated(rows, lifetime).Some?
    ensures Classified(rows)
    ensures var report := Aggregated(rows, lifetime).value;
      && report.sums == Totals(rows)
      && Some(report.metrics) == MetricsOf(report.sums.related, report.sums.spfRf, report.sums.detected, report.sums.latent, lifetime)
  {
    hide Totals, MetricsOf, PartsOf;
  }
}
