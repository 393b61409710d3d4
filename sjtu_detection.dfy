/** One frame of the detector: thresholding, then greedy non-maximum
    suppression (predict), then the target position read off the surviving
    boxes (visualize). The saved-model predictor is replaced by its output,
    a RawOutput, and the label table is a parameter. */
module SjtuDetection {
  import opened Geometry
  import opened DetectionTypes
  import opened Thresholding
  import opened Suppression

  /** Default score threshold of the detector. */
  const ProbThreshold: real := 0.6
  /** Default overlap ratio at which NMS drops a box. */
  const NmsIouThreshold: real := 0.3

  /** The detector's settings: fixed when it is created, read-only after. */
  datatype Config = Config(probThreshold: real, nmsIouThreshold: real, labels: seq<string>)

  /** Every output entry is a raw detection scoring strictly above the
      threshold (`source` says which one, no raw index twice), with its own
      box and score and the label its class id names. */
  predicate Explained(cfg: Config, raw: RawOutput, out: Detections, source: seq<nat>)
  {
    raw.Aligned() && out.Aligned() && |source| == |out.boxes| && Distinct(source) &&
    forall k :: 0 <= k < |source| ==>
      source[k] < |raw.scores| && raw.scores[source[k]] > cfg.probThreshold &&
      out.boxes[k] == raw.boxes[source[k]] && out.scores[k] == raw.scores[source[k]] &&
      LabelOf(cfg.labels, raw.classes[source[k]]) == Some(out.labels[k])
  }

  /** Output scores never rise from one entry to the next. */
  predicate ScoresDescending(out: Detections) {
    forall a, b :: 0 <= a < b < |out.scores| ==> out.scores[a] >= out.scores[b]
  }

  /** Two well-formed boxes whose overlap ratio is strictly below t. */
  predicate Apart(x: Box, y: Box, t: real) {
    WellFormed(x) && WellFormed(y) && IoU(x, y) < t
  }

  /** Any two output boxes overlap with a ratio strictly below t. The
      quantifier fires on Apart(out.boxes[a], out.boxes[b], t), so a client
      obtains the fact for a pair by mentioning that term. */
  predicate BoxesApart(out: Detections, t: real) {
    forall a, b {:trigger Apart(out.boxes[a], out.boxes[b], t)} :: 0 <= a < b < |out.boxes| ==>
      Apart(out.boxes[a], out.boxes[b], t)
  }

  /** Raw detection i overlaps, with ratio at least t, an output box scoring
      at least as high. */
  predicate SuppressedBy(raw: RawOutput, out: Detections, i: nat, t: real)
    requires raw.Aligned() && out.Aligned() && i < |raw.scores|
  {
    exists k :: 0 <= k < |out.boxes| &&
      WellFormed(out.boxes[k]) && WellFormed(raw.boxes[i]) &&
      IoU(out.boxes[k], raw.boxes[i]) >= t && out.scores[k] >= raw.scores[i]
  }

  /** Every raw detection above the threshold that is not in the output is
      suppressed by an output box. The quantifier fires on
      SuppressedBy(raw, out, i, t), so a client obtains the fact for a raw
      index i by mentioning that term. */
  predicate AllSuppressed(cfg: Config, raw: RawOutput, out: Detections, source: seq<nat>)
    requires raw.Aligned() && out.Aligned()
  {
    forall i: nat {:trigger SuppressedBy(raw, out, i, cfg.nmsIouThreshold)} ::
      i < |raw.scores| && raw.scores[i] > cfg.probThreshold && i !in source ==>
      SuppressedBy(raw, out, i, cfg.nmsIouThreshold)
  }

  /** The raw index of each picked candidate. */
  function SourceOf(kept: seq<nat>, picked: seq<nat>): (source: seq<nat>)
    requires InRange(picked, |kept|)
    ensures |source| == |picked|
    ensures forall k :: 0 <= k < |picked| ==> source[k] == kept[picked[k]]
  {
    seq(|picked|, k requires 0 <= k < |picked| => kept[picked[k]])
  }

  lemma PredictExplained(cfg: Config, raw: RawOutput, candidates: Detections, picked: seq<nat>, out: Detections)
    requires raw.Aligned() && Selects(raw, cfg.probThreshold, cfg.labels, candidates)
    requires PickedFrom(candidates, picked, out) && Distinct(picked)
    ensures Explained(cfg, raw, out, SourceOf(Kept(raw.scores, cfg.probThreshold), picked))
  {
    var kept := Kept(raw.scores, cfg.probThreshold);
    var source := SourceOf(kept, picked);
    assert Distinct(source) by {
      KeptIncreasing(raw.scores, cfg.probThreshold);
      forall a, b | 0 <= a < b < |source|
        ensures source[a] != source[b]
      {
        assert picked[a] != picked[b];
        if picked[a] < picked[b] {
          assert kept[picked[a]] < kept[picked[b]];
        } else {
          assert kept[picked[b]] < kept[picked[a]];
        }
      }
    }
  }

  lemma PredictApart(cfg: Config, raw: RawOutput, candidates: Detections, picked: seq<nat>, out: Detections)
    requires raw.Aligned() && Selects(raw, cfg.probThreshold, cfg.labels, candidates)
    requires forall i :: 0 <= i < |raw.boxes| ==> WellFormed(raw.boxes[i])
    requires PickedFrom(candidates, picked, out)
    requires PairwiseApart(candidates.boxes, cfg.nmsIouThreshold, picked)
    ensures BoxesApart(out, cfg.nmsIouThreshold)
  {
    var kept := Kept(raw.scores, cfg.probThreshold);
    forall a, b | 0 <= a < b < |out.boxes|
      ensures Apart(out.boxes[a], out.boxes[b], cfg.nmsIouThreshold)
    {
      assert out.boxes[a] == raw.boxes[kept[picked[a]]];
      assert out.boxes[b] == raw.boxes[kept[picked[b]]];
      assert !Suppresses(candidates.boxes[picked[a]], candidates.boxes[picked[b]], cfg.nmsIouThreshold);
      SuppressesIffIoU(out.boxes[a], out.boxes[b], cfg.nmsIouThreshold);
    }
  }

  lemma PredictDescending(candidates: Detections, picked: seq<nat>, out: Detections)
    requires candidates.Aligned() && PickedFrom(candidates, picked, out)
    requires DescendingBy(picked, candidates.scores)
    ensures ScoresDescending(out)
  {
  }

  /** One dropped raw detection: the pick that removed its candidate is the
      output box that suppresses it. */
  lemma DroppedSuppressed(cfg: Config, raw: RawOutput, candidates: Detections, order: seq<nat>, picked: seq<nat>, out: Detections, i: nat)
    requires raw.Aligned() && Selects(raw, cfg.probThreshold, cfg.labels, candidates)
    requires forall i :: 0 <= i < |raw.boxes| ==> WellFormed(raw.boxes[i])
    requires IsArgSort(order, candidates.scores)
    requires PickedFrom(candidates, picked, out)
    requires Covered(candidates.boxes, candidates.scores, cfg.nmsIouThreshold, order, picked)
    requires i < |raw.scores| && raw.scores[i] > cfg.probThreshold
    requires i !in SourceOf(Kept(raw.scores, cfg.probThreshold), picked)
    ensures SuppressedBy(raw, out, i, cfg.nmsIouThreshold)
  {
    var kept := Kept(raw.scores, cfg.probThreshold);
    var t := cfg.nmsIouThreshold;
    var c := KeptPosition(raw.scores, cfg.probThreshold, i);
    assert c in order;
    assert c !in picked;
    var k := CoveringPick(candidates.boxes, candidates.scores, t, order, picked, c);
    var j := picked[k];
    assert out.boxes[k] == raw.boxes[kept[j]] && out.scores[k] == raw.scores[kept[j]];
    assert candidates.boxes[c] == raw.boxes[i] && candidates.scores[c] == raw.scores[i];
    assert WellFormed(out.boxes[k]);
    SuppressesIffIoU(out.boxes[k], raw.boxes[i], t);
  }

  lemma PredictSuppressed(cfg: Config, raw: RawOutput, candidates: Detections, order: seq<nat>, picked: seq<nat>, out: Detections)
    requires raw.Aligned() && Selects(raw, cfg.probThreshold, cfg.labels, candidates)
    requires forall i :: 0 <= i < |raw.boxes| ==> WellFormed(raw.boxes[i])
    requires IsArgSort(order, candidates.scores)
    requires PickedFrom(candidates, picked, out)
    requires Covered(candidates.boxes, candidates.scores, cfg.nmsIouThreshold, order, picked)
    ensures AllSuppressed(cfg, raw, out, SourceOf(Kept(raw.scores, cfg.probThreshold), picked))
  {
    var source := SourceOf(Kept(raw.scores, cfg.probThreshold), picked);
    forall i: nat | i < |raw.scores| && raw.scores[i] > cfg.probThreshold && i !in source
      ensures SuppressedBy(raw, out, i, cfg.nmsIouThreshold)
    {
      DroppedSuppressed(cfg, raw, candidates, order, picked, out, i);
    }
  }

  lemma PredictBest(cfg: Config, raw: RawOutput, candidates: Detections, picked: seq<nat>, out: Detections)
    requires raw.Aligned() && Selects(raw, cfg.probThreshold, cfg.labels, candidates)
    requires PickedFrom(candidates, picked, out) && |picked| <= |candidates.boxes|
    requires candidates.boxes != [] ==>
      picked != [] && forall j :: 0 <= j < |candidates.scores| ==> candidates.scores[j] <= candidates.scores[picked[0]]
    ensures out.boxes == [] <==> forall i :: 0 <= i < |raw.scores| ==> raw.scores[i] <= cfg.probThreshold
    ensures out.boxes != [] ==>
      forall i :: 0 <= i < |raw.scores| && raw.scores[i] > cfg.probThreshold ==> raw.scores[i] <= out.scores[0]
  {
    var kept := Kept(raw.scores, cfg.probThreshold);
    KeptMembers(raw.scores, cfg.probThreshold);
    if exists i :: 0 <= i < |raw.scores| && raw.scores[i] > cfg.probThreshold {
      var i :| 0 <= i < |raw.scores| && raw.scores[i] > cfg.probThreshold;
      assert i in kept;
      assert candidates.boxes != [];
    } else {
      KeptNonEmptyIff(raw.scores, cfg.probThreshold);
    }
    forall i | 0 <= i < |raw.scores| && raw.scores[i] > cfg.probThreshold
      ensures raw.scores[i] <= out.scores[0]
    {
      assert i in kept;
      var c :| 0 <= c < |kept| && kept[c] == i;
      assert candidates.scores[c] == raw.scores[i];
    }
  }

  /** Threshold, argsort and the suppression loop together: the output of
      the loop, read back in terms of raw detection indices. */
  lemma PredictCorrect(cfg: Config, raw: RawOutput, candidates: Detections, order: seq<nat>, picked: seq<nat>, out: Detections)
    requires raw.Aligned() && Selects(raw, cfg.probThreshold, cfg.labels, candidates)
    requires forall i :: 0 <= i < |raw.boxes| ==> WellFormed(raw.boxes[i])
    requires IsArgSort(order, candidates.scores)
    requires picked == Greedy(candidates.boxes, cfg.nmsIouThreshold, order)
    requires PickedFrom(candidates, picked, out)
    ensures var source := SourceOf(Kept(raw.scores, cfg.probThreshold), picked);
      Explained(cfg, raw, out, source) && ScoresDescending(out) && BoxesApart(out, cfg.nmsIouThreshold) &&
      AllSuppressed(cfg, raw, out, source) &&
      (out.boxes == [] <==> forall i :: 0 <= i < |raw.scores| ==> raw.scores[i] <= cfg.probThreshold) &&
      (out.boxes != [] ==>
        forall i :: 0 <= i < |raw.scores| && raw.scores[i] > cfg.probThreshold ==> raw.scores[i] <= out.scores[0])
  {
    GreedyFromArgSort(candidates.boxes, candidates.scores, cfg.nmsIouThreshold, order);
    PredictExplained(cfg, raw, candidates, picked, out);
    PredictApart(cfg, raw, candidates, picked, out);
    PredictDescending(candidates, picked, out);
    PredictSuppressed(cfg, raw, candidates, order, picked, out);
    PredictBest(cfg, raw, candidates, picked, out);
  }

  /** A label in an explained output is the label of some raw detection
      scoring above the threshold. */
  lemma LabelFromRaw(cfg: Config, raw: RawOutput, out: Detections, source: seq<nat>, name: string)
    requires Explained(cfg, raw, out, source) && name in out.labels
    ensures exists i :: (0 <= i < |raw.scores| && raw.scores[i] > cfg.probThreshold &&
      LabelOf(cfg.labels, raw.classes[i]) == Some(name))
  {
    var k :| 0 <= k < |out.labels| && out.labels[k] == name;
    assert LabelOf(cfg.labels, raw.classes[source[k]]) == Some(name);
  }

  /** predict: thresholding followed by greedy non-maximum suppression. A
      class id with no label aborts the frame; otherwise the output lists
      thresholded detections only, best score first, no two overlapping at
      or above the IoU threshold, and every thresholded detection left out
      overlaps a kept one that scores at least as high. */
  method Predict(cfg: Config, raw: RawOutput) returns (r: Result<Detections, LabelError>, ghost source: seq<nat>)
    requires raw.Aligned()
    requires forall i :: 0 <= i < |raw.boxes| ==> WellFormed(raw.boxes[i])
    ensures r.Success? <==>
      forall i :: 0 <= i < |raw.scores| && raw.scores[i] > cfg.probThreshold ==> LabelOf(cfg.labels, raw.classes[i]).Some?
    ensures r.Failure? ==>
      var i := r.error.index;
      i < |raw.scores| && raw.scores[i] > cfg.probThreshold && r.error.classId == raw.classes[i] &&
      LabelOf(cfg.labels, raw.classes[i]).None? &&
      forall j :: 0 <= j < i && raw.scores[j] > cfg.probThreshold ==> LabelOf(cfg.labels, raw.classes[j]).Some?
    ensures r.Success? ==> Explained(cfg, raw, r.value, source)
    ensures r.Success? ==> ScoresDescending(r.value)
    ensures r.Success? ==> BoxesApart(r.value, cfg.nmsIouThreshold)
    ensures r.Success? ==> AllSuppressed(cfg, raw, r.value, source)
    ensures r.Success? ==> (r.value.boxes == [] <==> forall i :: 0 <= i < |raw.scores| ==> raw.scores[i] <= cfg.probThreshold)
    ensures r.Success? && r.value.boxes != [] ==>
      forall i :: 0 <= i < |raw.scores| && raw.scores[i] > cfg.probThreshold ==> raw.scores[i] <= r.value.scores[0]
  {
    var thresholded := Threshold(raw, cfg.probThreshold, cfg.labels);
    if thresholded.Failure? {
      return Failure(thresholded.error), [];
    }
    var candidates := thresholded.value;
    var order := ArgSort(candidates.scores);
    var kept;
    ghost var picked;
    kept, picked := NonMaxSuppression(candidates, order, cfg.nmsIouThreshold);
    PredictCorrect(cfg, raw, candidates, order, picked, kept);
    source := SourceOf(Kept(raw.scores, cfg.probThreshold), picked);
    r := Success(kept);
  }

  /** The target reading of one box: [(start_y + end_y) // 2,
      (start_x + end_x) // 2, end_y - start_y]. The two axes come out swapped
      relative to the box columns, and the size is the extent along y. */
  function Center(b: Box): (c: seq<int>)
    ensures |c| == 3
    ensures 2 * c[0] <= b.startY + b.endY < 2 * c[0] + 2
    ensures 2 * c[1] <= b.startX + b.endX < 2 * c[1] + 2
    ensures c[2] + b.startY == b.endY
    ensures WellFormed(b) ==> b.startY <= c[0] <= b.endY && b.startX <= c[1] <= b.endX && c[2] >= 0
  {
    [(b.startY + b.endY) / 2, (b.startX + b.endX) / 2, b.endY - b.startY]
  }

  /** The center accumulator of visualize: every box overwrites it, so it
      ends as the reading of the last box, or [] when there are no boxes.
      The drawing on the image is not modelled. */
  method Visualize(result: Detections) returns (center: seq<int>)
    ensures result.boxes == [] ==> center == []
    ensures result.boxes != [] ==> center == Center(result.boxes[|result.boxes| - 1])
  {
    center := [];
    if |result.boxes| > 0 {
      for i := 0 to |result.boxes|
        invariant i == 0 ==> center == []
        invariant i > 0 ==> center == Center(result.boxes[i - 1])
      {
        center := Center(result.boxes[i]);
      }
    }
  }
}
