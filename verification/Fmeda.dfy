/**
 The FMEDA calculator (tools/fmeda-calculator.py): exact rational failure rates
 split by fault class and summed into the metrics of ISO 26262-5:2018, Annex C.

 A text cell of a row is represented by the one question the calculator asks of it.
 A FmedaError is the result None.
 */
module Fmeda {
  import opened Wrappers
  import opened Names

  const FIT_PER_HOUR := 1_000_000_000.0

  datatype Row = Row(
    part: string, fitTotal: real, fraction: real, dcSpf: real, dcLatent: real,
    excluded: bool, violates: bool, relevant: bool, namesSpf: bool, namesLatent: bool)

  datatype Class = Excluded | Residual | SinglePoint | MultiplePoint | Safe

  datatype Split = Split(mode: real, safe: real, spfRf: real, detected: real, latent: real, class_: Class)

  datatype Sums = Sums(all: real, related: real, safe: real, spfRf: real, detected: real, latent: real, excluded: real)

  datatype Metrics = Metrics(spfm: Option<real>, lfm: Option<real>, singlePoint: real, dualPoint: real, pmhf: real, simplified: real)

  datatype Part = Part(fraction: real, fitTotal: real, lambda: real)

  datatype Report = Report(sums: Sums, metrics: Metrics, parts: map<string, Part>)

  // ---------------------------------------------------------------------------
  // Rows
  // ---------------------------------------------------------------------------

  predicate InRange(r: Row) {
    r.fitTotal >= 0.0 && 0.0 <= r.fraction <= 1.0 && 0.0 <= r.dcSpf <= 1.0 && 0.0 <= r.dcLatent <= 1.0
  }

  /** A fraction of a failure rate. */
  function Portion(x: real, d: real): real {
    x * d
  }

  function Mode(r: Row): real {
    Portion(r.fitTotal, r.fraction)
  }

  function Classify(r: Row): Option<Split> {
    var lambda := Mode(r);
    var mechanism := r.namesSpf && r.dcSpf > 0.0;
    if !InRange(r) then None
    else if r.excluded then Some(Split(lambda, 0.0, 0.0, 0.0, 0.0, Excluded))
    else if r.violates then
      if mechanism then
        var covered := Portion(lambda, r.dcSpf);
        Some(Split(lambda, 0.0, Portion(lambda, 1.0 - r.dcSpf),
                   Portion(covered, r.dcLatent), Portion(covered, 1.0 - r.dcLatent), Residual))
      else if r.namesSpf || r.dcSpf != 0.0 then None
      else Some(Split(lambda, 0.0, lambda, 0.0, 0.0, SinglePoint))
    else if mechanism || r.dcSpf != 0.0 then None
    else if r.relevant then
      Some(Split(lambda, 0.0, 0.0, Portion(lambda, r.dcLatent), Portion(lambda, 1.0 - r.dcLatent), MultiplePoint))
    else if r.dcLatent != 0.0 || r.namesLatent then None
    else Some(Split(lambda, lambda, 0.0, 0.0, 0.0, Safe))
  }

  method ClassifyRow(r: Row) returns (split: Option<Split>)
    ensures split == Classify(r)
  {
    hide Mode, Portion;
    if r.fitTotal < 0.0 || r.fraction < 0.0 || r.dcSpf < 0.0 || r.dcLatent < 0.0 { return None; }
    if r.fraction > 1.0 || r.dcSpf > 1.0 || r.dcLatent > 1.0 { return None; }
    var lambda := Mode(r);
    var s := Split(lambda, 0.0, 0.0, 0.0, 0.0, Excluded);
    if r.excluded { return Some(s); }
    var mechanism := r.namesSpf && r.dcSpf > 0.0;
    if r.violates {
      if mechanism {
        var residual := Portion(lambda, 1.0 - r.dcSpf);
        var covered := Portion(lambda, r.dcSpf);
        s := s.(spfRf := residual);
        s := s.(latent := Portion(covered, 1.0 - r.dcLatent));
        s := s.(detected := Portion(covered, r.dcLatent), class_ := Residual);
      } else {
        if r.namesSpf || r.dcSpf != 0.0 { return None; }
        s := s.(spfRf := lambda, class_ := SinglePoint);
      }
    } else {
      if mechanism || r.dcSpf != 0.0 { return None; }
      if r.relevant {
        s := s.(latent := Portion(lambda, 1.0 - r.dcLatent));
        s := s.(detected := Portion(lambda, r.dcLatent), class_ := MultiplePoint);
      } else {
        if r.dcLatent != 0.0 || r.namesLatent { return None; }
        s := s.(safe := lambda, class_ := Safe);
      }
    }
    return Some(s);
  }

  lemma Portions(x: real, d: real)
    requires x >= 0.0 && 0.0 <= d <= 1.0
    ensures Portion(x, d) >= 0.0 && Portion(x, 1.0 - d) >= 0.0 && Portion(x, d) + Portion(x, 1.0 - d) == x
  {
  }

  /** The shares of a safety-related row are non-negative and add up to its failure rate. */
  lemma RowConserves(r: Row)
    requires Classify(r).Some?
    ensures var s := Classify(r).value;
      && s.mode == r.fitTotal * r.fraction >= 0.0
      && s.safe >= 0.0 && s.spfRf >= 0.0 && s.detected >= 0.0 && s.latent >= 0.0
      && s.safe + s.spfRf + s.detected + s.latent == (if r.excluded then 0.0 else s.mode)
      && (s.class_ == Excluded <==> r.excluded)
  {
    ModeIs(r);
    hide Portion, Mode;
    var lambda := Mode(r);
    Portions(lambda, r.dcSpf);
    Portions(Portion(lambda, r.dcSpf), r.dcLatent);
    Portions(lambda, r.dcLatent);
  }

  lemma ModeIs(r: Row)
    ensures Mode(r) == r.fitTotal * r.fraction && (InRange(r) ==> Mode(r) >= 0.0)
  {
  }

  // ---------------------------------------------------------------------------
  // Sums
  // ---------------------------------------------------------------------------

  function Add(a: Sums, s: Split): Sums {
    if s.class_ == Excluded then a.(all := a.all + s.mode, excluded := a.excluded + s.mode)
    else Sums(a.all + s.mode, a.related + s.mode, a.safe + s.safe, a.spfRf + s.spfRf,
              a.detected + s.detected, a.latent + s.latent, a.excluded)
  }

  const NOTHING := Sums(0.0, 0.0, 0.0, 0.0, 0.0, 0.0, 0.0)

  predicate Classified(rows: seq<Row>) {
    forall r | r in rows :: Classify(r).Some?
  }

  function Totals(rows: seq<Row>): Sums
    requires Classified(rows)
  {
    if rows == [] then NOTHING else Add(Totals(rows[..|rows| - 1]), Classify(rows[|rows| - 1]).value)
  }

  predicate Balanced(a: Sums) {
    && a.all == a.related + a.excluded && a.related == a.safe + a.spfRf + a.detected + a.latent
    && a.safe >= 0.0 && a.spfRf >= 0.0 && a.detected >= 0.0 && a.latent >= 0.0 && a.excluded >= 0.0
  }

  /** Nothing is lost or counted twice on the way to the sums. */
  lemma {:induction false} TotalsBalance(rows: seq<Row>)
    requires Classified(rows)
    ensures Balanced(Totals(rows))
  {
    hide Classify;
    if rows != [] {
      TotalsBalance(rows[..|rows| - 1]);
      RowConserves(rows[|rows| - 1]);
    }
  }

  // ---------------------------------------------------------------------------
  // Metrics
  // ---------------------------------------------------------------------------

  function MetricsOf(related: real, spfRf: real, detected: real, latent: real, lifetime: real): Option<Metrics> {
    if lifetime <= 0.0 || related < 0.0 || spfRf < 0.0 || detected < 0.0 || latent < 0.0 then None
    else if spfRf > related || detected + latent > related - spfRf then None
    else
      var dual := detected * latent * lifetime / FIT_PER_HOUR;
      Some(Metrics(
        if related == 0.0 then None else Some(1.0 - spfRf / related),
        if detected + latent == 0.0 || related - spfRf == 0.0 then None else Some(1.0 - latent / (related - spfRf)),
        spfRf, dual, spfRf + dual, spfRf + latent))
  }

  lemma UnitRatio(x: real, y: real)
    requires 0.0 <= x <= y && y > 0.0
    ensures 0.0 <= x / y <= 1.0
  {
  }

  lemma NonNegative(a: real, b: real, c: real)
    requires a >= 0.0 && b >= 0.0 && c >= 0.0
    ensures a * b * c / FIT_PER_HOUR >= 0.0
  {
    assert a * b >= 0.0;
    assert a * b * c >= 0.0;
  }

  /** The metrics, where defined, are ratios; the failure probability is at least its single-point part. */
  lemma MetricsAreRatios(related: real, spfRf: real, detected: real, latent: real, lifetime: real)
    requires MetricsOf(related, spfRf, detected, latent, lifetime).Some?
    ensures var m := MetricsOf(related, spfRf, detected, latent, lifetime).value;
      && (m.spfm.Some? ==> 0.0 <= m.spfm.value <= 1.0)
      && (m.lfm.Some? ==> 0.0 <= m.lfm.value <= 1.0)
      && m.pmhf >= m.singlePoint && m.simplified >= m.singlePoint
  {
    if related != 0.0 { UnitRatio(spfRf, related); }
    if related - spfRf != 0.0 { UnitRatio(latent, related - spfRf); }
    NonNegative(detected, latent, lifetime);
  }

  /** Sums built from rows are never rejected. */
  lemma TotalsHaveMetrics(rows: seq<Row>, lifetime: real)
    requires Classified(rows)
    ensures var a := Totals(rows);
      MetricsOf(a.related, a.spfRf, a.detected, a.latent, lifetime).Some? <==> lifetime > 0.0
  {
    hide Totals;
    TotalsBalance(rows);
  }

  // ---------------------------------------------------------------------------
  // Parts
  // ---------------------------------------------------------------------------

  function FractionOf(rows: seq<Row>, p: string): real {
    if rows == [] then 0.0
    else
      var r := rows[|rows| - 1];
      FractionOf(rows[..|rows| - 1], p) + if r.part == p then r.fraction else 0.0
  }

  function LambdaOf(rows: seq<Row>, p: string): real {
    if rows == [] then 0.0
    else
      var r := rows[|rows| - 1];
      LambdaOf(rows[..|rows| - 1], p) + if r.part == p then Mode(r) else 0.0
  }

  /** The parts in the order in which they first appear. */
  function PartIds(rows: seq<Row>): seq<string> {
    if rows == [] then []
    else
      var before := PartIds(rows[..|rows| - 1]);
      var p := rows[|rows| - 1].part;
      if p in before then before else before + [p]
  }

  /** The failure rate that the first row of a part gives. */
  function FirstFit(rows: seq<Row>, p: string): real {
    if rows == [] then 0.0
    else if p in PartIds(rows[..|rows| - 1]) then FirstFit(rows[..|rows| - 1], p)
    else if rows[|rows| - 1].part == p then rows[|rows| - 1].fitTotal
    else 0.0
  }

  function SumFit(rows: seq<Row>, ids: seq<string>): real {
    if ids == [] then 0.0 else SumFit(rows, ids[..|ids| - 1]) + FirstFit(rows, ids[|ids| - 1])
  }

  function SumLambda(rows: seq<Row>, ids: seq<string>): real {
    if ids == [] then 0.0 else SumLambda(rows, ids[..|ids| - 1]) + LambdaOf(rows, ids[|ids| - 1])
  }

  /** All rows of a part give the same failure rate. */
  predicate Consistent(rows: seq<Row>) {
    forall r | r in rows :: r.fitTotal == FirstFit(rows, r.part)
  }

  /** The modes of every part make up the whole part. */
  predicate Complete(rows: seq<Row>) {
    forall p | p in PartIds(rows) :: FractionOf(rows, p) == 1.0
  }

  lemma {:induction false} PartIdsAre(rows: seq<Row>)
    ensures Distinct(PartIds(rows)) && forall p :: p in PartIds(rows) <==> exists r | r in rows :: r.part == p
  {
    if rows != [] {
      var n := |rows| - 1;
      PartIdsAre(rows[..n]);
      assert rows == rows[..n] + [rows[n]];
      assert rows[n] in rows;
    }
  }

  lemma {:induction false} NoLambda(rows: seq<Row>, p: string)
    requires p !in PartIds(rows)
    ensures LambdaOf(rows, p) == 0.0
  {
    if rows != [] { NoLambda(rows[..|rows| - 1], p); }
  }

  /** One more row adds its rate to the one part it belongs to. */
  lemma {:induction false} SumLambdaStep(rows: seq<Row>, r: Row, ids: seq<string>)
    requires Distinct(ids)
    ensures SumLambda(rows + [r], ids) == SumLambda(rows, ids) + if r.part in ids then Mode(r) else 0.0
  {
    hide Mode;
    if ids != [] {
      var n := |ids| - 1;
      SumLambdaStep(rows, r, ids[..n]);
      LambdaStep(rows, r, ids[n]);
      assert ids == ids[..n] + [ids[n]];
    }
  }

  lemma NoSum(rows: seq<Row>)
    ensures SumLambda(rows, []) == 0.0
  {
  }

  lemma LambdaStep(rows: seq<Row>, r: Row, p: string)
    ensures LambdaOf(rows + [r], p) == LambdaOf(rows, p) + if r.part == p then Mode(r) else 0.0
  {
    hide Mode;
    assert (rows + [r])[..|rows|] == rows;
  }

  lemma SumLambdaMore(rows: seq<Row>, ids: seq<string>, p: string)
    ensures SumLambda(rows, ids + [p]) == SumLambda(rows, ids) + LambdaOf(rows, p)
  {
    assert (ids + [p])[..|ids|] == ids;
  }

  /** Summing by part and summing by row is the same. */
  lemma {:induction false} RowsByPart(rows: seq<Row>)
    requires Classified(rows)
    ensures SumLambda(rows, PartIds(rows)) == Totals(rows).all
  {
    hide Classify, Mode, SumLambda, LambdaOf;
    NoSum(rows);
    if rows != [] {
      var n := |rows| - 1;
      var before, r := rows[..n], rows[n];
      assert rows == before + [r];
      RowsByPart(before);
      ModeOfRow(r);
      PartIdsAre(rows);
      PartIdsAre(before);
      var ids := PartIds(before);
      SumLambdaStep(before, r, ids);
      if r.part !in ids {
        NoLambda(before, r.part);
        LambdaStep(before, r, r.part);
        SumLambdaMore(rows, ids, r.part);
      }
    }
  }

  lemma ModeOfRow(r: Row)
    requires Classify(r).Some?
    ensures Classify(r).value.mode == Mode(r)
  {
  }

  lemma {:induction false} LambdaIsShare(rows: seq<Row>, p: string, fit: real)
    requires forall r | r in rows && r.part == p :: r.fitTotal == fit
    ensures LambdaOf(rows, p) == fit * FractionOf(rows, p)
  {
    if rows != [] {
      var n := |rows| - 1;
      LambdaIsShare(rows[..n], p, fit);
      assert rows[n] in rows;
      Share(fit, FractionOf(rows[..n], p), rows[n].fraction);
    }
  }

  lemma Share(a: real, b: real, c: real)
    ensures a * (b + c) == a * b + a * c
  {
  }

  lemma {:induction false} SumsAgree(rows: seq<Row>, ids: seq<string>)
    requires forall p | p in ids :: LambdaOf(rows, p) == FirstFit(rows, p)
    ensures SumLambda(rows, ids) == SumFit(rows, ids)
  {
    if ids != [] {
      var n := |ids| - 1;
      assert ids[n] in ids;
      SumsAgree(rows, ids[..n]);
    }
  }

  /** Once the fractions of each part check out, the grand total is that of the distinct parts. */
  lemma TotalIsSumOfParts(rows: seq<Row>)
    requires Classified(rows) && Consistent(rows) && Complete(rows)
    ensures Totals(rows).all == SumFit(rows, PartIds(rows)) == Totals(rows).related + Totals(rows).excluded
  {
    hide Totals, LambdaOf, FractionOf, FirstFit, SumLambda, SumFit;
    RowsByPart(rows);
    TotalsBalance(rows);
    forall p | p in PartIds(rows) ensures LambdaOf(rows, p) == FirstFit(rows, p) {
      LambdaIsShare(rows, p, FirstFit(rows, p));
      assert FractionOf(rows, p) == 1.0;
    }
    SumsAgree(rows, PartIds(rows));
  }

  // ---------------------------------------------------------------------------
  // The calculator
  // ---------------------------------------------------------------------------

  function PartsOf(rows: seq<Row>): map<string, Part> {
    map p | p in PartIds(rows) :: Part(FractionOf(rows, p), FirstFit(rows, p), LambdaOf(rows, p))
  }

  function Aggregated(rows: seq<Row>, lifetime: real): Option<Report> {
    if !Classified(rows) || !Consistent(rows) || !Complete(rows) then None
    else
      var a := Totals(rows);
      var metrics :- MetricsOf(a.related, a.spfRf, a.detected, a.latent, lifetime);
      Some(Report(a, metrics, PartsOf(rows)))
  }

  lemma {:induction false} FirstFitStable(rows: seq<Row>, n: nat, p: string)
    requires n <= |rows| && p in PartIds(rows[..n])
    ensures p in PartIds(rows) && FirstFit(rows, p) == FirstFit(rows[..n], p)
  {
    if n < |rows| {
      assert rows[..|rows| - 1][..n] == rows[..n];
      FirstFitStable(rows[..|rows| - 1], n, p);
    } else {
      assert rows[..n] == rows;
    }
  }

  /** What one more row does to the record of the parts. */
  lemma PartsStep(rows: seq<Row>, r: Row)
    ensures var before := PartsOf(rows);
      && var part := if r.part in before then before[r.part] else Part(0.0, r.fitTotal, 0.0);
      PartsOf(rows + [r]) == before[r.part := Part(part.fraction + r.fraction, part.fitTotal, part.lambda + Mode(r))]
  {
    hide Mode;
    var more := rows + [r];
    assert more[..|rows|] == rows;
    if r.part !in PartIds(rows) {
      NoLambda(rows, r.part);
      NoFraction(rows, r.part);
    }
    forall p | p in PartIds(rows) && p != r.part
      ensures FractionOf(more, p) == FractionOf(rows, p) && FirstFit(more, p) == FirstFit(rows, p)
      ensures LambdaOf(more, p) == LambdaOf(rows, p)
    {
    }
  }

  lemma {:induction false} NoFraction(rows: seq<Row>, p: string)
    requires p !in PartIds(rows)
    ensures FractionOf(rows, p) == 0.0
  {
    if rows != [] { NoFraction(rows[..|rows| - 1], p); }
  }

  /** Consistency of one more row, checked against the first row of its part. */
  lemma ConsistentStep(rows: seq<Row>, r: Row)
    requires Consistent(rows)
    ensures Consistent(rows + [r]) <==> r.part in PartIds(rows) ==> r.fitTotal == FirstFit(rows, r.part)
  {
    hide FirstFit, PartIds;
    var more := rows + [r];
    assert more[..|rows|] == rows && r in more;
    PartIdsAre(rows);
    forall q | q in rows ensures q in more && FirstFit(more, q.part) == FirstFit(rows, q.part) {
      FirstFitStable(more, |rows|, q.part);
    }
    if r.part in PartIds(rows) { FirstFitStable(more, |rows|, r.part); } else { FirstFitOfNew(rows, r); }
  }

  lemma FirstFitOfNew(rows: seq<Row>, r: Row)
    requires r.part !in PartIds(rows)
    ensures FirstFit(rows + [r], r.part) == r.fitTotal
  {
    assert (rows + [r])[..|rows|] == rows;
  }

  lemma ConsistentPrefix(rows: seq<Row>, n: nat)
    requires n <= |rows| && Consistent(rows)
    ensures Consistent(rows[..n])
  {
    hide FirstFit, PartIds;
    PartIdsAre(rows[..n]);
    forall r | r in rows[..n] ensures r.fitTotal == FirstFit(rows[..n], r.part) {
      FirstFitStable(rows, n, r.part);
    }
  }

  lemma TotalsStep(rows: seq<Row>, r: Row)
    requires Classified(rows) && Classify(r).Some?
    ensures Classified(rows + [r]) && Totals(rows + [r]) == Add(Totals(rows), Classify(r).value)
  {
    hide Classify;
    assert (rows + [r])[..|rows|] == rows;
  }

  method Aggregate(rows: seq<Row>, lifetime: real) returns (report: Option<Report>)
    ensures report == Aggregated(rows, lifetime)
  {
    hide Classify, Totals, Mode, MetricsOf, FirstFit, FractionOf, LambdaOf, PartIds, PartsOf, Consistent;
    var sums := NOTHING;
    var parts: map<string, Part> := map[];
    assert rows[..0] == [];
    StartEmpty();
    var i := 0;
    while i < |rows|
      invariant 0 <= i <= |rows|
      invariant Classified(rows[..i]) && Consistent(rows[..i])
      invariant sums == Totals(rows[..i]) && parts == PartsOf(rows[..i])
    {
      var r := rows[i];
      assert r in rows && rows[..i + 1] == rows[..i] + [r];
      var split := ClassifyRow(r);
      if split.None? { return None; }
      var lambda := split.value.mode;
      ModeOfRow(r);
      sums := sums.(all := sums.all + lambda);
      var part := if r.part in parts then parts[r.part] else Part(0.0, r.fitTotal, 0.0);
      part := part.(fraction := part.fraction + r.fraction);
      part := part.(lambda := part.lambda + lambda);
      PartsStep(rows[..i], r);
      ConsistentStep(rows[..i], r);
      PartsHold(rows[..i], r.part);
      parts := parts[r.part := part];
      if r.fitTotal != part.fitTotal {
        if Consistent(rows) { ConsistentPrefix(rows, i + 1); }
        return None;
      }
      TotalsStep(rows[..i], r);
      if split.value.class_ == Excluded {
        sums := sums.(excluded := sums.excluded + lambda);
      } else {
        sums := sums.(related := sums.related + lambda);
        sums := sums.(safe := sums.safe + split.value.safe);
        sums := sums.(spfRf := sums.spfRf + split.value.spfRf);
        sums := sums.(detected := sums.detected + split.value.detected);
        sums := sums.(latent := sums.latent + split.value.latent);
      }
      i := i + 1;
    }
    assert rows[..i] == rows;
    CompleteIff(rows);
    if exists p | p in parts :: parts[p].fraction != 1.0 { return None; }
    var metrics := MetricsOf(sums.related, sums.spfRf, sums.detected, sums.latent, lifetime);
    if metrics.None? { return None; }
    return Some(Report(sums, metrics.value, parts));
  }

  lemma StartEmpty()
    ensures Totals([]) == NOTHING && PartsOf([]) == map[] && Consistent([])
  {
  }

  lemma PartsHold(rows: seq<Row>, p: string)
    ensures p in PartsOf(rows) <==> p in PartIds(rows)
    ensures p in PartsOf(rows) ==> PartsOf(rows)[p].fitTotal == FirstFit(rows, p)
  {
  }

  lemma CompleteIff(rows: seq<Row>)
    ensures Complete(rows) <==> forall p | p in PartsOf(rows) :: PartsOf(rows)[p].fraction == 1.0
  {
    hide FractionOf, FirstFit, LambdaOf, PartIds;
    forall p | p in PartIds(rows) ensures p in PartsOf(rows) && PartsOf(rows)[p].fraction == FractionOf(rows, p) {}
    if Complete(rows) {
      forall p | p in PartsOf(rows) ensures PartsOf(rows)[p].fraction == 1.0 { assert p in PartIds(rows); }
    }
  }

  /** A report exists exactly for classified, consistent and complete rows and a positive lifetime. */
  lemma AggregatesIff(rows: seq<Row>, lifetime: real)
    ensures Aggregated(rows, lifetime).Some? <==> Classified(rows) && Consistent(rows) && Complete(rows) && lifetime > 0.0
  {
    hide Classified, Consistent, Complete, Totals, MetricsOf, PartsOf;
    if Classified(rows) { TotalsHaveMetrics(rows, lifetime); }
  }

  // ---------------------------------------------------------------------------
  // Coverage
  // ---------------------------------------------------------------------------

  /** Better coverage of a residual fault moves its rate from the single-point to the multiple-point share. */
  lemma CoverageHelpsRow(r: Row, dc: real)
    requires Classify(r).Some? && Classify(r).value.class_ == Residual && r.dcSpf <= dc <= 1.0
    ensures var better := Classify(r.(dcSpf := dc));
      && better.Some? && better.value.class_ == Residual && better.value.mode == Classify(r).value.mode
      && better.value.spfRf <= Classify(r).value.spfRf
  {
    ModeIs(r);
    PortionMono(Mode(r), 1.0 - dc, 1.0 - r.dcSpf);
    hide Mode, Portion;
    assert Mode(r.(dcSpf := dc)) == Mode(r) by { ModeIs(r); ModeIs(r.(dcSpf := dc)); }
  }

  lemma PortionMono(x: real, a: real, b: real)
    requires x >= 0.0 && a <= b
    ensures Portion(x, a) <= Portion(x, b)
  {
  }

  lemma {:induction false} CoverageHelpsTotals(rows: seq<Row>, i: nat, dc: real)
    requires Classified(rows) && i < |rows|
    requires Classify(rows[i]).value.class_ == Residual && rows[i].dcSpf <= dc <= 1.0
    ensures var better := rows[i := rows[i].(dcSpf := dc)];
      Classified(better) && Totals(better).related == Totals(rows).related && Totals(better).spfRf <= Totals(rows).spfRf
  {
    hide Classify;
    var n := |rows| - 1;
    var better := rows[i := rows[i].(dcSpf := dc)];
    CoverageHelpsRow(rows[i], dc);
    if i < n {
      CoverageHelpsTotals(rows[..n], i, dc);
      assert better[..n] == rows[..n][i := rows[i].(dcSpf := dc)];
      assert better == better[..n] + [rows[n]];
    } else {
      assert better[..n] == rows[..n];
      assert better == better[..n] + [rows[i].(dcSpf := dc)];
    }
  }

  /** Raising the single-point coverage of a residual row never lowers the single-point fault metric. */
  lemma CoverageNeverLowersSpfm(rows: seq<Row>, i: nat, dc: real, lifetime: real)
    requires Classified(rows) && i < |rows| && lifetime > 0.0
    requires Classify(rows[i]).value.class_ == Residual && rows[i].dcSpf <= dc <= 1.0
    ensures var better := rows[i := rows[i].(dcSpf := dc)];
      Classified(better)
      && var a, b := Totals(rows), Totals(better);
      && var m, k := MetricsOf(a.related, a.spfRf, a.detected, a.latent, lifetime),
                     MetricsOf(b.related, b.spfRf, b.detected, b.latent, lifetime);
      m.Some? && k.Some? && (m.value.spfm.Some? <==> k.value.spfm.Some?)
      && (m.value.spfm.Some? ==> m.value.spfm.value <= k.value.spfm.value)
  {
    hide Totals, Classify, Classified;
    CoverageHelpsTotals(rows, i, dc);
    var better := rows[i := rows[i].(dcSpf := dc)];
    TotalsHaveMetrics(rows, lifetime);
    TotalsHaveMetrics(better, lifetime);
    var a, b := Totals(rows), Totals(better);
    if a.related > 0.0 { RatioMono(b.spfRf, a.spfRf, a.related); }
  }

  lemma RatioMono(x: real, y: real, d: real)
    requires x <= y && d > 0.0
    ensures x / d <= y / d
  {
  }
}
