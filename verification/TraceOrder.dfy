/**
 The order of the records of a dump (tools/trace_viewer/trace_format.py):
 `Chronological` reconstructs it from the sequence numbers of a rotated ring.
 */
module TraceOrder {
  import opened Wrappers
  import opened Trace

  /** The positions below n whose successor has a smaller sequence number. */
  function Descents(rs: seq<Record>, n: nat): (ds: seq<nat>)
    requires n < |rs|
    ensures forall i | 0 <= i < |ds| :: ds[i] < n
  {
    if n == 0 then []
    else Descents(rs, n - 1) + if rs[n].sequence < rs[n - 1].sequence then [n - 1] else []
  }

  predicate StepsUp(rs: seq<Record>) {
    forall i | 0 < i < |rs| :: rs[i - 1].sequence < rs[i].sequence
  }

  function Rotate<T>(rs: seq<T>, k: nat): (s: seq<T>)
    requires k <= |rs|
    ensures |s| == |rs|
  {
    rs[k..] + rs[..k]
  }

  function Chronological(rs: seq<Record>, ringFull: bool): Option<(seq<Record>, bool)> {
    if |rs| <= 1 then Some((rs, false))
    else
      var last := |rs| - 1;
      var closing := if ringFull && rs[0].sequence < rs[last].sequence then [last] else [];
      var descents := Descents(rs, last) + closing;
      if |descents| > 1 then None
      else if descents == [] then
        if StepsUp(rs) then Some((rs, false)) else None
      else
        var ordered := Rotate(rs, descents[0] + 1);
        if StepsUp(ordered) then Some((ordered, descents[0] != last)) else None
  }

  predicate Increasing(rs: seq<Record>) {
    forall i, j | 0 <= i < j < |rs| :: rs[i].sequence < rs[j].sequence
  }

  lemma {:induction false} StepsAreIncreasing(rs: seq<Record>, i: nat, j: nat)
    requires StepsUp(rs) && i < j < |rs|
    ensures rs[i].sequence < rs[j].sequence
    decreases j
  {
    if i < j - 1 { StepsAreIncreasing(rs, i, j - 1); }
  }

  /** Without a descent there is nothing to collect; with exactly one it is collected alone. */
  lemma {:induction false} NoDescents(rs: seq<Record>, n: nat)
    requires n < |rs| && forall i | 0 <= i < n :: rs[i].sequence < rs[i + 1].sequence
    ensures Descents(rs, n) == []
  {
    if n != 0 {
      NoDescents(rs, n - 1);
      assert rs[n - 1].sequence < rs[n - 1 + 1].sequence;
    }
  }

  lemma {:induction false} OneDescent(rs: seq<Record>, n: nat, k: nat)
    requires k < n < |rs| && rs[k + 1].sequence < rs[k].sequence
    requires forall i | 0 <= i < n && i != k :: rs[i].sequence < rs[i + 1].sequence
    ensures Descents(rs, n) == [k]
  {
    if k == n - 1 {
      NoDescents(rs, k);
    } else {
      OneDescent(rs, n - 1, k);
      assert rs[n - 1].sequence < rs[n - 1 + 1].sequence;
    }
  }

  lemma StepsIffIncreasing(rs: seq<Record>)
    ensures StepsUp(rs) <==> Increasing(rs)
  {
    if StepsUp(rs) {
      forall i, j | 0 <= i < j < |rs| ensures rs[i].sequence < rs[j].sequence {
        StepsAreIncreasing(rs, i, j);
      }
    }
  }

  lemma RotateEnds<T>(rs: seq<T>)
    ensures Rotate(rs, 0) == rs == Rotate(rs, |rs|)
  {
  }

  /** Whatever is returned is a strictly increasing rotation of the stored records. */
  lemma OrderIsRotation(rs: seq<Record>, ringFull: bool) returns (k: nat)
    requires Chronological(rs, ringFull).Some?
    ensures k <= |rs| && Chronological(rs, ringFull).value == (Rotate(rs, k), k != 0) && Increasing(Rotate(rs, k))
  {
    hide Rotate, StepsUp, Increasing;
    var wrapped := Chronological(rs, ringFull).value.1;
    RotateEnds(rs);
    if !wrapped {
      k := 0;
      if |rs| <= 1 { ShortIsIncreasing(rs); }
    } else {
      k := (Descents(rs, |rs| - 1) + [|rs| - 1])[0] + 1;
    }
    StepsIffIncreasing(Rotate(rs, k));
  }

  lemma ShortIsIncreasing(rs: seq<Record>)
    requires |rs| <= 1
    ensures Increasing(rs)
  {
  }

  /** In an increasing rotation every record is below the one it precedes there. */
  lemma RotatedPair(rs: seq<Record>, k: nat, a: nat, b: nat)
    requires k < |rs| && Increasing(Rotate(rs, k)) && a < |rs| && b < |rs|
    requires (if a < k then |rs| - k + a else a - k) < (if b < k then |rs| - k + b else b - k)
    ensures rs[a].sequence < rs[b].sequence
  {
    RotateAt(rs, k, a);
    RotateAt(rs, k, b);
  }

  /** A proper rotation is increasing only if the records fall once, and again fit together across the end. */
  lemma RotatedDescent(rs: seq<Record>, k: nat)
    requires 0 < k < |rs| && Increasing(Rotate(rs, k))
    ensures Descents(rs, |rs| - 1) == [k - 1] && rs[|rs| - 1].sequence < rs[0].sequence
  {
    hide Descents, Rotate, Increasing;
    var n := |rs|;
    forall i | 0 <= i < n - 1 && i != k - 1 ensures rs[i].sequence < rs[i + 1].sequence {
      RotatedPair(rs, k, i, i + 1);
    }
    RotatedPair(rs, k, k, k - 1);
    RotatedPair(rs, k, n - 1, 0);
    OneDescent(rs, n - 1, k - 1);
  }

  lemma RotateAt<T>(rs: seq<T>, k: nat, i: nat)
    requires k <= |rs| && i < |rs|
    ensures rs[i] == Rotate(rs, k)[if i < k then |rs| - k + i else i - k]
  {
  }

  /** A strictly increasing rotation is found, and wrapped tells whether it moves anything. */
  lemma RotationIsFound(rs: seq<Record>, ringFull: bool, k: nat)
    requires (k < |rs| || k == 0) && Increasing(Rotate(rs, k))
    ensures Chronological(rs, ringFull) == Some((Rotate(rs, k), k != 0))
  {
    hide Rotate, Descents, StepsUp;
    RotateEnds(rs);
    StepsIffIncreasing(Rotate(rs, k));
    if k == 0 {
      if |rs| > 1 { NoDescents(rs, |rs| - 1); }
    } else {
      RotatedDescent(rs, k);
    }
  }

  /** Success means exactly that some rotation is strictly increasing, whether or not the ring is called full. */
  lemma OrderIffRotation(rs: seq<Record>, ringFull: bool)
    ensures Chronological(rs, ringFull).Some? <==> exists k | 0 <= k <= |rs| :: Increasing(Rotate(rs, k))
    ensures Chronological(rs, ringFull) == Chronological(rs, !ringFull)
  {
    hide Chronological;
    if k :| 0 <= k <= |rs| && Increasing(Rotate(rs, k)) {
      if k == |rs| {
        assert Rotate(rs, k) == Rotate(rs, 0);
        RotationIsFound(rs, ringFull, 0);
        RotationIsFound(rs, !ringFull, 0);
      } else {
        RotationIsFound(rs, ringFull, k);
        RotationIsFound(rs, !ringFull, k);
      }
    } else {
      if Chronological(rs, ringFull).Some? { var k := OrderIsRotation(rs, ringFull); }
      if Chronological(rs, !ringFull).Some? { var k := OrderIsRotation(rs, !ringFull); }
    }
  }

  /** No two different rotations are strictly increasing. */
  lemma RotationIsUnique(rs: seq<Record>, j: nat, k: nat)
    requires j < |rs| && k < |rs| && Increasing(Rotate(rs, j)) && Increasing(Rotate(rs, k))
    ensures j == k
  {
    hide Increasing, Rotate;
    if j < k {
      RotatedPair(rs, j, j, k);
      RotatedPair(rs, k, k, j);
    } else if k < j {
      RotatedPair(rs, k, k, j);
      RotatedPair(rs, j, j, k);
    }
  }
}
