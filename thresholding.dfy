/** Step one of predict: keep the raw detections whose score is strictly
    above the probability threshold and name each by the label table. */
module Thresholding {
  import opened Geometry
  import opened DetectionTypes

  /** labels_list[class_id - 1] under the source language's list indexing:
      an index in [-|labels|, -1] counts back from the end of the table,
      anything further out raises an IndexError (None here). */
  function LabelOf(labels: seq<string>, classId: int): (r: Option<string>)
    ensures r.Some? <==> -|labels| < classId <= |labels|
    ensures 1 <= classId <= |labels| ==> r == Some(labels[classId - 1])
    ensures r.Some? ==> r.value in labels
  {
    var k := classId - 1;
    if 0 <= k < |labels| then Some(labels[k])
    else if -|labels| <= k < 0 then Some(labels[|labels| + k])
    else None
  }

  /** The raw indices whose score is strictly above the threshold, in their
      original order. */
  function Kept(scores: seq<real>, threshold: real): (idx: seq<nat>)
    ensures |idx| <= |scores|
    ensures forall k :: 0 <= k < |idx| ==> idx[k] < |scores| && scores[idx[k]] > threshold
    decreases |scores|
  {
    if |scores| == 0 then []
    else
      var n := |scores| - 1;
      Kept(scores[..n], threshold) + (if scores[n] > threshold then [n] else [])
  }

  /** A raw detection reaches suppression exactly when its score is strictly
      above the threshold. */
  lemma {:induction false} KeptMembers(scores: seq<real>, threshold: real)
    ensures forall i :: i in Kept(scores, threshold) <==> 0 <= i < |scores| && scores[i] > threshold
  {
    var kept := Kept(scores, threshold);
    if |scores| > 0 {
      var n := |scores| - 1;
      KeptMembers(scores[..n], threshold);
      forall i | 0 <= i < |scores| && scores[i] > threshold
        ensures i in kept
      {
        if i < n {
          assert scores[..n][i] == scores[i];
          assert i in Kept(scores[..n], threshold);
        }
      }
    }
    forall i | i in kept
      ensures 0 <= i < |scores| && scores[i] > threshold
    {
      var k :| 0 <= k < |kept| && kept[k] == i;
    }
  }

  /** The position in Kept of a raw detection above the threshold. */
  lemma KeptPosition(scores: seq<real>, threshold: real, i: nat) returns (c: nat)
    requires i < |scores| && scores[i] > threshold
    ensures c < |Kept(scores, threshold)| && Kept(scores, threshold)[c] == i
  {
    KeptMembers(scores, threshold);
    assert i in Kept(scores, threshold);
    c :| 0 <= c < |Kept(scores, threshold)| && Kept(scores, threshold)[c] == i;
  }

  /** Something reaches suppression exactly when some score is strictly
      above the threshold. */
  lemma {:induction false} KeptNonEmptyIff(scores: seq<real>, threshold: real)
    ensures Kept(scores, threshold) != [] <==> exists i :: 0 <= i < |scores| && scores[i] > threshold
  {
    if |scores| > 0 {
      var n := |scores| - 1;
      KeptNonEmptyIff(scores[..n], threshold);
      assert forall i :: 0 <= i < n ==> scores[..n][i] == scores[i];
      if exists i :: 0 <= i < |scores| && scores[i] > threshold {
        var i :| 0 <= i < |scores| && scores[i] > threshold;
        if i < n {
          assert scores[..n][i] > threshold;
        }
      }
    }
  }

  /** Thresholding preserves the original relative order of the detections. */
  lemma {:induction false} KeptIncreasing(scores: seq<real>, threshold: real)
    ensures forall a, b :: 0 <= a < b < |Kept(scores, threshold)| ==> Kept(scores, threshold)[a] < Kept(scores, threshold)[b]
  {
    if |scores| > 0 {
      var n := |scores| - 1;
      KeptIncreasing(scores[..n], threshold);
    }
  }

  /** Raising the probability threshold never lets more detections through,
      and what it lets through was let through before. */
  lemma {:induction false} KeptShrinksAsThresholdRises(scores: seq<real>, low: real, high: real)
    requires low <= high
    ensures |Kept(scores, high)| <= |Kept(scores, low)|
    ensures forall i :: i in Kept(scores, high) ==> i in Kept(scores, low)
  {
    KeptMembers(scores, low);
    KeptMembers(scores, high);
    if |scores| > 0 {
      KeptShrinksAsThresholdRises(scores[..|scores| - 1], low, high);
    }
  }

  /** Growing the scanned prefix by one detection appends its index exactly
      when its score passes. */
  lemma KeptPrefixStep(scores: seq<real>, threshold: real, i: nat)
    requires i < |scores|
    ensures Kept(scores[..i + 1], threshold) == Kept(scores[..i], threshold) + (if scores[i] > threshold then [i] else [])
  {
    assert scores[..i + 1][..i] == scores[..i];
  }

  /** The three output lists hold, entry by entry, the box, score and
      resolved label of the raw detections listed in kept. */
  predicate Lists(raw: RawOutput, labels: seq<string>, kept: seq<nat>, outLabels: seq<string>, outBoxes: seq<Box>, outScores: seq<real>)
    requires raw.Aligned()
  {
    |outLabels| == |outBoxes| == |outScores| == |kept| &&
    forall k :: 0 <= k < |kept| ==>
      kept[k] < |raw.scores| && outBoxes[k] == raw.boxes[kept[k]] && outScores[k] == raw.scores[kept[k]] &&
      LabelOf(labels, raw.classes[kept[k]]) == Some(outLabels[k])
  }

  /** d lists, in raw order, exactly the raw detections scoring strictly
      above the threshold, each with its box, score and resolved label. */
  predicate Selects(raw: RawOutput, threshold: real, labels: seq<string>, d: Detections)
    requires raw.Aligned()
  {
    Lists(raw, labels, Kept(raw.scores, threshold), d.labels, d.boxes, d.scores)
  }

  /** Appending one labelled raw detection to the lists keeps them in step. */
  lemma ListsAppend(raw: RawOutput, labels: seq<string>, kept: seq<nat>, outLabels: seq<string>, outBoxes: seq<Box>, outScores: seq<real>, i: nat, name: string)
    requires raw.Aligned() && Lists(raw, labels, kept, outLabels, outBoxes, outScores)
    requires i < |raw.scores| && LabelOf(labels, raw.classes[i]) == Some(name)
    ensures Lists(raw, labels, kept + [i], outLabels + [name], outBoxes + [raw.boxes[i]], outScores + [raw.scores[i]])
  {
  }

  /** Every raw detection before n that passes the threshold has a label. */
  predicate LabelledUpTo(raw: RawOutput, threshold: real, labels: seq<string>, n: nat)
    requires raw.Aligned() && n <= |raw.scores|
  {
    forall j :: 0 <= j < n && raw.scores[j] > threshold ==> LabelOf(labels, raw.classes[j]).Some?
  }

  /** Scanning one more detection: it keeps every passing detection labelled
      when the new one is labelled or does not pass. */
  lemma LabelledStep(raw: RawOutput, threshold: real, labels: seq<string>, n: nat)
    requires raw.Aligned() && n < |raw.scores| && LabelledUpTo(raw, threshold, labels, n)
    requires raw.scores[n] > threshold ==> LabelOf(labels, raw.classes[n]).Some?
    ensures LabelledUpTo(raw, threshold, labels, n + 1)
  {
  }

  /** The thresholding loop of predict. It stops at the first kept detection
      whose class id has no label, as the lookup raises there. */
  method Threshold(raw: RawOutput, threshold: real, labels: seq<string>) returns (r: Result<Detections, LabelError>)
    requires raw.Aligned()
    ensures r.Success? <==> forall i :: 0 <= i < |raw.scores| && raw.scores[i] > threshold ==> LabelOf(labels, raw.classes[i]).Some?
    ensures r.Failure? ==>
      var i := r.error.index;
      i < |raw.scores| && raw.scores[i] > threshold && r.error.classId == raw.classes[i] && LabelOf(labels, raw.classes[i]).None? &&
      forall j :: 0 <= j < i && raw.scores[j] > threshold ==> LabelOf(labels, raw.classes[j]).Some?
    ensures r.Success? ==> Selects(raw, threshold, labels, r.value)
  {
    var outLabels, outBoxes, outScores := [], [], [];
    ghost var kept: seq<nat> := [];
    for i := 0 to |raw.scores|
      invariant kept == Kept(raw.scores[..i], threshold)
      invariant Lists(raw, labels, kept, outLabels, outBoxes, outScores)
      invariant LabelledUpTo(raw, threshold, labels, i)
    {
      KeptPrefixStep(raw.scores, threshold, i);
      if raw.scores[i] > threshold {
        var name := LabelOf(labels, raw.classes[i]);
        if name.None? {
          return Failure(LabelError(i, raw.classes[i]));
        }
        LabelledStep(raw, threshold, labels, i);
        ListsAppend(raw, labels, kept, outLabels, outBoxes, outScores, i, name.value);
        outLabels := outLabels + [name.value];
        outBoxes := outBoxes + [raw.boxes[i]];
        outScores := outScores + [raw.scores[i]];
        kept := kept + [i];
      } else {
        LabelledStep(raw, threshold, labels, i);
      }
    }
    assert raw.scores[..|raw.scores|] == raw.scores;
    return Success(Detections(outLabels, outBoxes, outScores));
  }
}
