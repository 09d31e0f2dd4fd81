# YOLOv3 evaluation: detection matcher and stats accumulator

This project models the part of `test()` in the YOLOv3 evaluation script
`test.py` that decides, image by image, which detections are true
positives, and that gathers the per-image statistics for the whole dataset.

- **Matcher** (`matcher.dfy`, module `Matcher`). The detections that
  survived non-maximum suppression (NMS) are walked in order. Each detection
  takes its best-IoU target. It is a true positive (flag 1) when three things
  hold: the IoU is strictly above the threshold, the predicted class equals
  that target's class, and that target was not consumed by an earlier true
  positive. Otherwise it is a false positive (flag 0). `MatchImage` is the
  loop, with its `correct` and `detected` lists. `MatchPrefix` is the same
  loop as a function. `GreedyUpTo` is a separate reference definition that
  needs no consumed list. The lemmas connect the three.
- **Stats** (`stats.dfy`, module `Stats`). An image adds one tuple
  `(tp, conf, pred_cls, target_cls)` to the stats, unless NMS gave `None`
  for it or it has no labels; then it adds nothing, not even its label
  classes. `Collect` is the stats list after a sequence of images. `Concat`
  joins each component across the tuples, in order.
- **Evaluation** (`evaluation.dfy`, module `Evaluation`). The class
  `StatsAccumulator` holds the loop's mutable state: the `seen` counter and
  the `stats` list. `AddImage` is the per-image loop body. `Finalize` does
  the final concatenation and keeps the zero means when no stats were
  appended. `Evaluate` is the dataset loop itself.

Box geometry is abstract. Each image carries a matrix `ious[i][j]`: the IoU
of detection `i` with label box `j`. A detection is its confidence (column
4), class confidence (column 5) and predicted class (column 6). The best
target is the first maximum of the IoU row. The source uses a tensor maximum
whose tie-break is not documented, so this tie-break is the model's own
choice. The maximum is taken over all targets, consumed or not. This follows
the code at `test.py:119`. A description of the rule as "the best IoU among
the targets still available" would differ from the code, and the model
follows the code: a detection whose best target is already consumed is a
false positive even when another free target would qualify
(`ConsumedBestTargetExample`).

## Model

| member | source | states |
|---|---|---|
| `Matcher.BestTarget` | test.py:119 | the index is a valid target, its IoU is at least every other IoU in the row, and every earlier index has a strictly smaller IoU (first maximum) |
| `Matcher.MatchPrefix` | test.py:116-126 | after n detections the loop has emitted exactly n flags and consumed at most n targets |
| `Matcher.MatchPrefixDetected` | test.py:116-124 | the consumed list has no duplicates, holds only valid target indices, and is as long as the number of 1 flags |
| `Matcher.MatchPrefixConsumed` | test.py:119-124 | a target is in the consumed list exactly when it is the best target of some detection flagged 1 |
| `Matcher.NoDuplicatesBound` | test.py:122-124 | a duplicate-free consumed list of target indices is no longer than the label list, so an image has at most as many true positives as labels |
| `Matcher.MatchPrefixGreedy` | test.py:117-126 | the loop's flags satisfy the greedy reference definition: flag i is 1 exactly when its best IoU is above the threshold, its class matches the best target's class, and no earlier 1 flag has the same best target; otherwise it is 0 |
| `Matcher.GreedyUnique` | test.py:117-126 | the greedy reference definition determines the flags uniquely, so the loop computes the only flags that satisfy it |
| `Matcher.MatchPrefixMonotone` | test.py:122-126 | later detections never revise earlier flags, and the consumed list only grows (the shorter run's list is a prefix of the longer run's list) |
| `Matcher.ClaimedIsFalsePositive` | test.py:119-126 | a detection whose best target was already consumed by an earlier true positive gets flag 0, whatever the other targets are |
| `Matcher.ConsumedBestTargetExample` | test.py:119-122 | two detections share best target 0 while target 1 would also qualify; the second detection is still a false positive: flags `[1, 0]` |
| `Matcher.DuplicateDetectionExample` | test.py:116-126 | two equal detections on the only label: the first in input order is the true positive, the second a false positive |
| `Matcher.RejectedDetectionExamples` | test.py:122 | an IoU below the threshold, an IoU equal to the threshold (the comparison is strict), and a wrong class each give flag 0 |
| `Matcher.MatchImage` | test.py:107-126 | the loop returns one flag per detection, each 0 or 1, in detection order; these are the greedy reference flags, and there are no more 1 flags than labels |
| `Stats.ImageEntry` | test.py:109-133 | an image yields a tuple exactly when it has detections and labels; the tuple has tp, conf and pred_cls of the detection count, conf and pred_cls copied unchanged from detection columns 4 and 6, target_cls equal to the label classes, and tp the greedy flags, with at most as many 1 flags as labels |
| `Stats.Collect` | test.py:66-133 | the stats list has at most one tuple per visited image, and every tuple is sound (parallel arrays, 0/1 flags, true positives bounded by labels) |
| `Stats.CollectAppend` | test.py:66-133 | the stats of two runs of images, one after the other, are the first run's stats followed by the second run's stats |
| `Stats.CollectSnoc` | test.py:66-133 | visiting one more image appends that image's entry, or nothing |
| `Stats.SkippedImageContributesNothing` | test.py:71-72 | an image with `None` detections or no labels leaves the stats unchanged wherever it appears in the dataset |
| `Stats.KeptImageContributesOne` | test.py:128-133 | any other image contributes exactly its own tuple, between the tuples of the images before it and after it |
| `Stats.CollectEmptyIff` | test.py:136-137 | nothing is appended exactly when no image has both detections and labels |
| `Stats.ConcatAppend` | test.py:136 | concatenating the stats of two runs gives the first run's arrays followed by the second run's arrays, component by component |
| `Stats.ConcatSound` | test.py:136 | the concatenated arrays stay parallel, keep 0/1 flags, and hold no more true positives than label classes |
| `Stats.NoneDetectionsDropLabelsExample` | test.py:71-72 | an image with a label but `None` detections adds nothing to the dataset arrays: its label class is not counted |
| `Stats.TwoImageStatsExample` | test.py:107-136 | one correct detection in image 1 and one false positive in image 2 give tp `[1, 0]`, conf `[0.9, 0.6]`, pred_cls `[0, 0]`, target_cls `[0, 0]` |
| `Evaluation.StatsAccumulator.constructor` | test.py:53-56 | the run starts with `seen` at 0, no stats and no images visited |
| `Evaluation.StatsAccumulator.AddImage` | test.py:66-133 | `seen` grows by one for every image; the stats grow by that image's entry, which is nothing for a skipped image and its tuple otherwise; the accumulator invariant is kept |
| `Evaluation.StatsAccumulator.Finalize` | test.py:135-139 | with no stats the result is no arrays and zero means; otherwise the arrays are the in-order concatenation of the tuples, the means come from the per-class AP step, and the arrays are sound |
| `Evaluation.Evaluate` | test.py:52-139 | `seen` equals the number of images, skipped ones included; the means are zero when nothing was appended, in particular when no image has both detections and labels; otherwise they are the per-class AP step applied to the concatenated stats |

## Left out

- Model construction, weight loading, `DataParallel` and device selection (test.py:23-38): framework and I/O setup.
- Dataset parsing and the data loader (test.py:41-50): external collaborators. The batches are flattened into one sequence of images, in loader order. The batch boundaries do not affect the statistics.
- The network forward pass and `non_max_suppression` (test.py:62-63): external collaborators. Their output is the given `Option<seq<Detection>>` per image.
- `bbox_iou`, `xywh2xyxy`, `scale_coords`, `xyxy2xywh` (test.py:78-79, 113, 119): floating-point box geometry from `utils/utils.py`, which is not part of this model. It is replaced by the per-image IoU matrix.
- `ap_per_class` and the `.mean()` calls (test.py:138-139): `ap_per_class` is not part of this model. It is a function parameter of `Finalize` and `Evaluate`. Only the branch where nothing was appended, which keeps the means at zero, is modelled.
- JSON export, the `coco91class` remap, `float3` rounding, the image id parsed from the file name, and the pycocotools evaluation that sets `mAPj` (test.py:67, 74-87, 151-169): serialization and an external tool. `Evaluate` therefore does not return `mAPj`, which is always 0.0 unless that tool runs.
- Console printing and argument parsing (test.py:54, 141-149, 178-203).
- Numbers: IoU values, confidences and the threshold are Dafny `real`, not 32-bit floats. Class indices are `int`, not float tensors compared for equality.
