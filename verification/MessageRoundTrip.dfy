/** Encoding all signals of a message, in any order, then decoding the frame. */
module MessageRoundTrip {
  import opened Bits
  import opened CodecBits
  import opened CodecTypes
  import opened Encoder
  import opened Decoder
  import opened RoundTrip
  import opened Words

  /** The signals of a message use pairwise different payload bits. */
  ghost predicate PairwiseDisjoint(ss: seq<Signal>) {
    forall i, j | 0 <= i < |ss| && 0 <= j < |ss| && i != j :: Disjoint(PlacementOf(ss[i]), PlacementOf(ss[j]))
  }

  /**
   A run of successful encode calls: step k encodes signal order[k] with its
   value and takes frames[k] to frames[k + 1].  Each step is exactly what
   `Encoder.EncodeSignal` ensures of a successful call.
   */
  ghost predicate EncodeRun(ss: seq<Signal>, values: seq<Value>, order: seq<nat>, frames: seq<seq<byte>>)
    requires AllLoadable(ss)
  {
    && |values| == |ss| && |frames| == |order| + 1
    && forall k | 0 <= k < |order| ::
         order[k] < |ss| && Encodes(ss[order[k]], values[order[k]], frames[k], frames[k + 1])
  }

  predicate UsedBy(ss: seq<Signal>, p: nat) {
    exists i | 0 <= i < |ss| :: Occupies(PlacementOf(ss[i]), p)
  }

  /**
   Message round trip.  Whatever the layouts, the order and the initial frame:
   if every signal is encoded at least once, the final frame decodes to exactly
   the encoded raw words, and no bit outside the signals has changed.
   */
  lemma MessageWordsRoundTrip(ss: seq<Signal>, values: seq<Value>, order: seq<nat>, frames: seq<seq<byte>>)
    requires AllLoadable(ss) && EncodeRun(ss, values, order, frames) && PairwiseDisjoint(ss)
    requires forall i: nat | i < |ss| :: i in order
    ensures AllFit(ss, |frames[|order|]|)
    ensures forall i | 0 <= i < |ss| ::
              Encoded(ss[i], values[i]).Accepted? &&
              MessageImage(ss, frames[|order|])[i].raw == Encoded(ss[i], values[i]).raw
    ensures |frames[|order|]| == |frames[0]|
    ensures forall p: nat | p < 8 * |frames[0]| && !UsedBy(ss, p) ::
              FrameBit(frames[|order|], p) == FrameBit(frames[0], p)
  {
    var last := frames[|order|];
    RunKeepsOtherBits(ss, values, order, frames, |order|);
    forall i: nat | i < |ss| ensures HoldsWord(last, ss[i], values[i]) {
      assert i in order;
      var k :| 0 <= k < |order| && order[k] == i;
      WordAfter(ss, values, order, frames, i, k, |order|);
    }
    hide PlacementOf, Loadable, Encoded, Fits;
  }

  /** The frame decodes to the word the value was encoded as. */
  ghost predicate HoldsWord(f: seq<byte>, s: Signal, v: Value)
    requires Loadable(s)
  {
    && Encoded(s, v).Accepted?
    && Fits(PlacementOf(s), |f|)
    && RawOf(f, PlacementOf(s)) == Encoded(s, v).raw
  }

  /** Once written, a word survives every later step. */
  lemma {:induction false} WordAfter(ss: seq<Signal>, values: seq<Value>, order: seq<nat>, frames: seq<seq<byte>>, i: nat, k: nat, n: nat)
    requires AllLoadable(ss) && EncodeRun(ss, values, order, frames) && PairwiseDisjoint(ss)
    requires k < n <= |order| && order[k] == i < |ss|
    ensures Encoded(ss[i], values[i]).Accepted?
    ensures |frames[n]| == |frames[k]| && Fits(PlacementOf(ss[i]), |frames[n]|)
    ensures RawOf(frames[n], PlacementOf(ss[i])) == Encoded(ss[i], values[i]).raw
  {
    var m := n - 1;
    var w := order[m];
    assert Encodes(ss[w], values[w], frames[m], frames[n]);
    assert Encodes(ss[i], values[i], frames[k], frames[k + 1]);
    OutcomeFits(ss[w], values[w]);
    if m > k { WordAfter(ss, values, order, frames, i, k, m); }
    hide Fits, PlacementOf, Loadable, Encoded, Pow2;
    if w == i {
      LoadAfterStore(frames[m], frames[n], PlacementOf(ss[i]), Encoded(ss[i], values[i]).raw);
    } else {
      LoadAfterDisjointStore(frames[m], frames[n], PlacementOf(ss[w]), Encoded(ss[w], values[w]).raw, PlacementOf(ss[i]));
    }
  }

  lemma {:induction false} RunKeepsOtherBits(ss: seq<Signal>, values: seq<Value>, order: seq<nat>, frames: seq<seq<byte>>, n: nat)
    requires AllLoadable(ss) && EncodeRun(ss, values, order, frames) && n <= |order|
    ensures |frames[n]| == |frames[0]|
    ensures forall p: nat | p < 8 * |frames[0]| && !UsedBy(ss, p) :: FrameBit(frames[n], p) == FrameBit(frames[0], p)
  {
    if n != 0 {
      RunKeepsOtherBits(ss, values, order, frames, n - 1);
      var w := order[n - 1];
      assert Encodes(ss[w], values[w], frames[n - 1], frames[n]);
      hide Fits, PlacementOf, Loadable, Encoded, Occupies;
    }
  }

  /**
   For unscaled signals and unclamped values the decoded frame holds the encoded
   values themselves, in map order.
   */
  lemma MessageValuesRoundTrip(ss: seq<Signal>, values: seq<Value>, order: seq<nat>, frames: seq<seq<byte>>, i: nat)
    requires AllLoadable(ss) && EncodeRun(ss, values, order, frames) && PairwiseDisjoint(ss)
    requires forall j: nat | j < |ss| :: j in order
    requires i < |ss| && Plain(ss[i])
    ensures AllFit(ss, |frames[|order|]|) && Encoded(ss[i], values[i]).Accepted?
    ensures !Encoded(ss[i], values[i]).clamped ==>
              var d := MessageImage(ss, frames[|order|])[i];
              && d.value == Canonical(ss[i], values[i])
              && (Quantity(d.value) == Quantity(values[i])
                  <==> !(ss[i].kind.TypeEnum? && TopBit(values[i])))
  {
    MessageWordsRoundTrip(ss, values, order, frames);
    if !Encoded(ss[i], values[i]).clamped {
      ExactRoundTrip(ss[i], values[i]);
      var d := MessageImage(ss, frames[|order|])[i];
      assert d == DecodedOf(ss[i], d.raw);
      hide DecodedValue, Encoded, Canonical;
    }
  }
}
