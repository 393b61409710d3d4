/** The values that flow through one frame of the follow-me detector. */
module DetectionTypes {
  import opened Geometry

  datatype Option<T> = None | Some(value: T)

  datatype Result<T, E> = Success(value: T) | Failure(error: E)

  /** What the saved-model predictor returns for one image: boxes, scores
      and raw class ids, aligned by detection index. */
  datatype RawOutput = RawOutput(boxes: seq<Box>, scores: seq<real>, classes: seq<int>) {
    predicate Aligned() {
      |boxes| == |scores| == |classes|
    }
  }

  /** The result dictionary of predict: parallel lists of class labels,
      boxes and scores, one entry per detection. */
  datatype Detections = Detections(labels: seq<string>, boxes: seq<Box>, scores: seq<real>) {
    predicate Aligned() {
      |labels| == |boxes| == |scores|
    }
  }

  /** The IndexError raised by the label lookup: the raw detection index
      whose class id has no entry in the label table, and that class id. */
  datatype LabelError = LabelError(index: nat, classId: int)
}
