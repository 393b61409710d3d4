/** The follow-me node: for every incoming frame it runs the detector,
    keeps the target reading and sets the "follow" flag, then publishes
    both. Message transport and the image display are not modelled; the
    two fields hold what is published. */
module FollowMe {
  import opened Geometry
  import opened DetectionTypes
  import opened Thresholding
  import opened SjtuDetection

  class FollowMeDetector {
    /** The detector, with its label table loaded once at start-up. */
    const detector: Config
    /** Published on has_follow_me after every frame. */
    var hasFollowMe: bool
    /** Published on follow_where after every frame. */
    var center: seq<int>

    constructor (labels: seq<string>)
      ensures detector == Config(ProbThreshold, NmsIouThreshold, labels)
      ensures !hasFollowMe && center == []
    {
      detector := Config(ProbThreshold, NmsIouThreshold, labels);
      hasFollowMe := false;
      center := [];
    }

    /** callback: predict, read the target off the kept boxes, then set the
        flag by scanning the kept labels for "follow". A missing label
        aborts the frame before either field is written. The kept list is
        the output of predict; source gives the raw index of each entry. */
    method Callback(raw: RawOutput) returns (output: Result<Detections, LabelError>, ghost source: seq<nat>)
      requires raw.Aligned()
      requires forall i :: 0 <= i < |raw.boxes| ==> WellFormed(raw.boxes[i])
      modifies this
      ensures output.Success? <==>
        forall i :: 0 <= i < |raw.scores| && raw.scores[i] > detector.probThreshold ==> LabelOf(detector.labels, raw.classes[i]).Some?
      ensures output.Failure? ==>
        var i := output.error.index;
        i < |raw.scores| && raw.scores[i] > detector.probThreshold && output.error.classId == raw.classes[i] &&
        LabelOf(detector.labels, raw.classes[i]).None? &&
        forall j :: 0 <= j < i && raw.scores[j] > detector.probThreshold ==> LabelOf(detector.labels, raw.classes[j]).Some?
      ensures output.Failure? ==> hasFollowMe == old(hasFollowMe) && center == old(center)
      ensures output.Success? ==> output.value.Aligned()
      ensures output.Success? ==> Explained(detector, raw, output.value, source) && ScoresDescending(output.value)
      ensures output.Success? ==>
        BoxesApart(output.value, detector.nmsIouThreshold) && AllSuppressed(detector, raw, output.value, source)
      ensures output.Success? && output.value.boxes != [] ==>
        forall i :: 0 <= i < |raw.scores| && raw.scores[i] > detector.probThreshold ==> raw.scores[i] <= output.value.scores[0]
      ensures output.Success? ==> (hasFollowMe <==> "follow" in output.value.labels)
      ensures output.Success? ==>
        center == if output.value.boxes == [] then [] else Center(output.value.boxes[|output.value.boxes| - 1])
      ensures output.Success? && center != [] ==>
        |source| > 0 && source[|source| - 1] < |raw.boxes| && center == Center(raw.boxes[source[|source| - 1]])
      ensures output.Success? && hasFollowMe ==>
        exists i :: 0 <= i < |raw.scores| && raw.scores[i] > detector.probThreshold &&
          LabelOf(detector.labels, raw.classes[i]) == Some("follow")
      ensures output.Success? && (forall i :: 0 <= i < |raw.scores| ==> raw.scores[i] <= detector.probThreshold) ==>
        !hasFollowMe && center == []
    {
      output, source := Predict(detector, raw);
      if output.Failure? {
        return;
      }
      var result := output.value;
      var target := Visualize(result);
      var found := ScanForFollow(result.labels);
      if found {
        LabelFromRaw(detector, raw, result, source, "follow");
      }
      center, hasFollowMe := target, found;
    }
  }

  /** The flag loop of callback: start from false and raise the flag at any
      kept label equal to "follow". */
  method ScanForFollow(labels: seq<string>) returns (found: bool)
    ensures found <==> "follow" in labels
  {
    found := false;
    for k := 0 to |labels|
      invariant found <==> "follow" in labels[..k]
    {
      assert labels[..k + 1] == labels[..k] + [labels[k]];
      if labels[k] == "follow" {
        found := true;
      }
    }
    assert labels[..|labels|] == labels;
  }
}
