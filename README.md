# Follow-me sign detection: thresholding, greedy NMS and the follow flag

This project models the per-frame logic of the follow-me detector node of
an autonomous vehicle's perception pipeline (`scripts/follow_me_detection_swq.py`):

- `predict` keeps the raw detections whose score is strictly above the
  probability threshold (0.6) and names each one through the label table.
  It then runs greedy non-maximum suppression (NMS) at an IoU threshold of
  0.3. NMS repeatedly picks the best pending box and drops every pending
  box whose inclusive-pixel overlap ratio with it is at least the
  threshold.
- `visualize` reads the target position `[(y0+y1)//2, (x0+x1)//2, y1-y0]`
  off the kept boxes. The last kept box wins.
- `callback` publishes that position. It also publishes whether any kept
  label is `"follow"`.

The model is split into six modules:

- `Geometry`: boxes, inclusive areas, intersection, union, IoU, and a
  division-free suppression test.
- `DetectionTypes`: the raw model output and the detection lists.
- `Thresholding`: the label lookup and the score filter.
- `Suppression`: a recursive reference definition `Greedy` of the NMS
  loop, its properties, an argsort, and the while loop proved against
  `Greedy`.
- `SjtuDetection`: `predict` and `visualize`.
- `FollowMe`: the node and its two published fields.

Two behaviours of the code are worth knowing:

- **Unknown class ids abort the frame.** `predict` indexes the label list
  directly (`scripts/follow_me_detection_swq.py:40`), and nothing catches the `IndexError`. So a
  thresholded detection whose class id has no label aborts the whole
  frame, not just that detection. `Predict` and `Callback` return
  `Failure` and change nothing. Negative indexing is kept: an id from
  1 - len to 0 counts back from the end of the table, and an id of -len
  or lower raises the `IndexError` too.
- **The output size is not monotone in the IoU threshold.** A higher IoU
  threshold can leave greedy NMS with fewer boxes.
  `Suppression.RaisingIouThresholdCanShrinkOutput` exhibits four boxes
  for which threshold 0.3 keeps three and threshold 0.5 keeps two.

## Model

| member | source | states |
|---|---|---|
| Geometry.Area | scripts/follow_me_detection_swq.py:61 | the inclusive pixel area of a well-formed box is at least 1 |
| Geometry.Overlap | scripts/follow_me_detection_swq.py:73-79 | the clamped shared extent along one axis is positive exactly when the two ranges share a pixel, and it never exceeds either range's length |
| Geometry.Intersection | scripts/follow_me_detection_swq.py:73-80 | the intersection is positive exactly when both axes overlap, and it is at most the area of each well-formed box |
| Geometry.Union | scripts/follow_me_detection_swq.py:82 | for well-formed boxes the union is at least each area and at least 1, so the ratio is always defined |
| Geometry.IoU | scripts/follow_me_detection_swq.py:82 | the overlap ratio of two well-formed boxes lies in [0, 1] |
| Geometry.Suppresses | scripts/follow_me_detection_swq.py:82-84 | the drop test intersection >= t * union; for well-formed boxes a threshold of at most 0 drops every box, one above 1 drops none, and a positive threshold drops only a box sharing a pixel with the picked one |
| Geometry.SuppressesIffIoU | scripts/follow_me_detection_swq.py:82-83 | the division-free test intersection >= t * union holds exactly when the ratio is at least t, i.e. exactly when the box leaves `left` |
| Geometry.SuppressesSymmetric | scripts/follow_me_detection_swq.py:73-82 | the overlap test gives the same answer whichever of the two boxes was picked |
| Thresholding.LabelOf | scripts/follow_me_detection_swq.py:39-40 | the lookup `labels_list[class_id - 1]` succeeds exactly for class ids in (-len, len], gives the (class_id-1)-th label for ids 1..len, and always returns a label from the table |
| Thresholding.Kept | scripts/follow_me_detection_swq.py:37-38 | the score filter: no more indices than detections, and every index it keeps is a raw index whose score is strictly above the threshold |
| Thresholding.KeptMembers | scripts/follow_me_detection_swq.py:37-38 | an index is kept exactly when it is in range and its score is strictly above the threshold |
| Thresholding.KeptNonEmptyIff | scripts/follow_me_detection_swq.py:37-38 | something reaches suppression exactly when some score is strictly above the threshold |
| Thresholding.KeptIncreasing | scripts/follow_me_detection_swq.py:37-42 | thresholding keeps the raw order of the detections |
| Thresholding.KeptShrinksAsThresholdRises | scripts/follow_me_detection_swq.py:38 | raising the probability threshold lets through no more detections, and only detections that were let through before |
| Thresholding.Threshold | scripts/follow_me_detection_swq.py:37-42 | succeeds exactly when every detection above the threshold has a label; on failure it names the first such detection without one; on success the lists hold exactly the thresholded detections in raw order, each with its box, score and label |
| Suppression.Survivors | scripts/follow_me_detection_swq.py:73-84 | one pass keeps exactly the pending indices whose overlap with the picked box stays strictly below t, and nothing else |
| Suppression.Greedy | scripts/follow_me_detection_swq.py:65-84 | the picked indices are no more than the pending ones and all come from them |
| Suppression.GreedyDistinct | scripts/follow_me_detection_swq.py:65-84 | no index is picked twice |
| Suppression.GreedyDescending | scripts/follow_me_detection_swq.py:65-70 | starting from an ascending order, the picked scores never rise |
| Suppression.GreedyApart | scripts/follow_me_detection_swq.py:73-84 | any two picked boxes overlap strictly below the threshold |
| Suppression.GreedyCovers | scripts/follow_me_detection_swq.py:65-84 | every pending box that is not picked overlaps, at or above the threshold, a picked box that scores at least as high |
| Suppression.GreedyKeepsApartBoxes | scripts/follow_me_detection_swq.py:65-84 | when no two pending boxes overlap at the threshold, every one is picked, best first |
| Suppression.NmsIdempotent | scripts/follow_me_detection_swq.py:65-84 | NMS re-run on its own output, from any ascending argsort, picks every box again |
| Suppression.ShrinkExampleLowThreshold | scripts/follow_me_detection_swq.py:83-84 | at threshold 0.3 the four example boxes leave three picks |
| Suppression.ShrinkExampleHighThreshold | scripts/follow_me_detection_swq.py:83-84 | at threshold 0.5 the same boxes leave two picks |
| Suppression.RaisingIouThresholdCanShrinkOutput | scripts/follow_me_detection_swq.py:83 | raising the IoU threshold can make the output smaller |
| Suppression.NestedPairKeepsBest | scripts/follow_me_detection_swq.py:65-84 | boxes (0,0,10,10) at 0.9 and (1,1,10,10) at 0.5 leave only the first at threshold 0.3, for every argsort |
| Suppression.GreedyFromArgSort | scripts/follow_me_detection_swq.py:63-84 | from any ascending argsort the loop picks distinct indices with falling scores, pairwise below the threshold, covering every dropped box, and it picks the best box first whenever there is a box |
| Suppression.ArgSort | scripts/follow_me_detection_swq.py:63 | returns every index exactly once, in ascending order of score |
| Suppression.NonMaxSuppression | scripts/follow_me_detection_swq.py:65-84 | the while loop emits exactly the boxes, scores and labels of the indices `Greedy` picks, in picking order |
| SjtuDetection.PredictCorrect | scripts/follow_me_detection_swq.py:29-89 | the suppressed output consists of thresholded raw detections, has falling scores, is pairwise below the IoU threshold, covers every dropped detection, is empty exactly when nothing passes the threshold, and otherwise starts with the best score |
| SjtuDetection.Predict | scripts/follow_me_detection_swq.py:29-89 | fails exactly when a thresholded class id has no label, and the error names the first such detection and carries its class id; otherwise the output has every property listed for PredictCorrect |
| SjtuDetection.LabelFromRaw | scripts/follow_me_detection_swq.py:37-42 | every label in the output was resolved from a raw detection scoring strictly above the probability threshold |
| SjtuDetection.Center | scripts/follow_me_detection_swq.py:108-111 | the reading is the floor midpoint in y, then in x, then the y extent; for a well-formed box the midpoint lies inside the box and the size is non-negative |
| SjtuDetection.Visualize | scripts/follow_me_detection_swq.py:96-119 | the center is [] when there are no boxes, and otherwise the reading of the last box |
| FollowMe.FollowMeDetector.constructor | scripts/follow_me_detection_swq.py:123-129 | the node starts with thresholds 0.6 and 0.3, the loaded labels, no follow flag and an empty center |
| FollowMe.FollowMeDetector.Callback | scripts/follow_me_detection_swq.py:133-143 | an unlabelled class id aborts the frame with both fields unchanged, and the error names the first such detection and carries its class id; otherwise the kept list is the output of predict (thresholded raw detections with falling scores, pairwise below the IoU threshold, covering every dropped detection, best score first), the center is the reading of the last kept raw box, and the flag is set exactly when a kept label is "follow", which only a thresholded raw detection labelled "follow" can cause; with nothing above the threshold the flag is off and the center is empty |
| FollowMe.ScanForFollow | scripts/follow_me_detection_swq.py:138-143 | starting from false, the flag ends up true exactly when some kept label equals "follow" |

## Left out

- The saved-model inference (`SavedModelPredictor`) is replaced by its output, a `RawOutput` given as a parameter.
- Loading the label table from the HDF5 index file is not modelled; the table is the constructor's parameter.
- Image conversion, `cv2.rectangle`, `cv2.putText`, `cv2.imshow` and the `CvBridge` decoding do not affect the published values and are not modelled.
- ROS subscription, node start-up and publishing are not modelled; the two published values are the fields `hasFollowMe` and `center`.
- Floating point: scores, thresholds and the IoU ratio are exact reals, and box coordinates are integers. Float rounding and NaN (a zero union would give one) are not modelled.
- Thresholding.LabelOf: class ids are integers; the float class id and the truncation of `int()` on it are not modelled.
- Suppression.ArgSort: `np.argsort`'s order among equal scores is not modelled. Instead every NMS property is proved for any ascending argsort, so it holds whatever order equal scores come in.
- SjtuDetection.Predict, FollowMe.FollowMeDetector.Callback: require every raw box to be well formed (start not after end). For degenerate boxes the source's union can be zero or negative and its ratio meaningless.
- SjtuDetection.Predict, FollowMe.FollowMeDetector.Callback, Thresholding.Threshold: require the three raw arrays to have equal length, as the predictor supplies them. The source loops over the class array's length (`scripts/follow_me_detection_swq.py:32`). It reads a score at every index and a box only at passing indices. So longer score or box arrays are silently cut off, and shorter ones raise an `IndexError` once a read falls past their end. Neither the cut-off nor that error is modelled.
- The UTF-8 decoding of label bytes is not modelled: labels are strings.
- The cone-lane target solver in `get_target (v1).py` is not part of this model. It works by line fitting, square roots and symbolic equation solving over floating point, and it shares nothing with the detection pipeline.
