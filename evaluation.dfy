/**
 * The dataset loop of test() in test.py: a counter of images seen, a list of
 * per-image stats tuples, and the final concatenation with its zero-default
 * means.
 */
module Evaluation {
  import opened Wrappers
  import opened Matcher
  import opened Stats

  /** Mean precision, mean recall and mean AP over classes. */
  datatype Means = Means(mP: real, mR: real, mAP: real)

  /** The values the means keep when no image appended stats. */
  const ZeroMeans := Means(0.0, 0.0, 0.0)

  /** The loop's state: `seen` and `stats`, for a fixed IoU threshold. The
      ghost list `images` is every image visited so far, in order. */
  class StatsAccumulator {
    const iouThres: real
    var seen: nat
    var stats: seq<StatsTuple>
    ghost var images: seq<Image>

    /** `seen` counts every visited image and `stats` is exactly what those
        images contribute. */
    ghost predicate Valid()
      reads this
    {
      seen == |images| && AllWellFormed(images) && stats == Collect(images, iouThres)
    }

    constructor (iouThres: real)
      ensures Valid()
      ensures this.iouThres == iouThres && images == [] && seen == 0 && stats == []
    {
      this.iouThres := iouThres;
      seen := 0;
      stats := [];
      images := [];
    }

    /** The body of the per-image loop: count the image, skip it when NMS
        gave no detections or it has no labels, otherwise match it and append
        its tuple. */
    method AddImage(img: Image)
      requires Valid() && WellFormed(img)
      modifies this
      ensures Valid()
      ensures images == old(images) + [img] && seen == old(seen) + 1
      ensures stats == old(stats) + EntryList(img, iouThres)
      ensures !Kept(img) ==> stats == old(stats)
      ensures Kept(img) ==> |stats| == |old(stats)| + 1 && stats[|stats| - 1] == ImageEntry(img, iouThres).value
    {
      ghost var before := images;
      seen := seen + 1;
      images := images + [img];
      CollectSnoc(before, img, iouThres);
      match img.detections {
        case None =>
        case Some(dets) =>
          if |img.labelCls| > 0 {
            var correct := MatchImage(img.ious, dets, img.labelCls, iouThres);
            var conf := Confidences(dets);
            var predCls := PredictedClasses(dets);
            stats := stats + [StatsTuple(correct, conf, predCls, img.labelCls)];
          }
      }
    }

    /** Concatenate each component across the stats tuples; with no tuple the
        means stay at zero, otherwise they come from the per-class AP
        computation, which is given as a parameter. */
    method Finalize(apPerClass: StatsTuple -> Means) returns (arrays: Option<StatsTuple>, means: Means)
      requires Valid()
      ensures stats == [] ==> arrays == None && means == ZeroMeans
      ensures stats != [] ==> arrays == Some(Concat(stats)) && means == apPerClass(Concat(stats))
      ensures arrays.Some? ==> Sound(arrays.value)
    {
      var tp, conf, predCls, targetCls := [], [], [], [];
      for k := 0 to |stats|
        invariant Concat(stats[..k]) == StatsTuple(tp, conf, predCls, targetCls)
      {
        assert stats[..k + 1][..k] == stats[..k];
        tp := tp + stats[k].tp;
        conf := conf + stats[k].conf;
        predCls := predCls + stats[k].predCls;
        targetCls := targetCls + stats[k].targetCls;
      }
      assert stats[..|stats|] == stats;
      if |stats| > 0 {
        ConcatSound(stats);
        arrays := Some(StatsTuple(tp, conf, predCls, targetCls));
        means := apPerClass(arrays.value);
      } else {
        arrays := None;
        means := ZeroMeans;
      }
    }
  }

  /** test() over a dataset given as its images in loader order: the returned
      means are zero when no image has both detections and labels, and
      `seen` is the number of images, skipped ones included. */
  method Evaluate(images: seq<Image>, iouThres: real, apPerClass: StatsTuple -> Means) returns (means: Means, seen: nat)
    requires AllWellFormed(images)
    ensures seen == |images|
    ensures Collect(images, iouThres) == [] ==> means == ZeroMeans
    ensures Collect(images, iouThres) != [] ==> means == apPerClass(Concat(Collect(images, iouThres)))
    ensures (forall k :: 0 <= k < |images| ==> !Kept(images[k])) ==> means == ZeroMeans
  {
    var acc := new StatsAccumulator(iouThres);
    for i := 0 to |images|
      invariant acc.Valid() && acc.iouThres == iouThres
      invariant acc.images == images[..i]
    {
      assert images[..i + 1] == images[..i] + [images[i]];
      acc.AddImage(images[i]);
    }
    assert images[..|images|] == images;
    var arrays;
    arrays, means := acc.Finalize(apPerClass);
    seen := acc.seen;
    CollectEmptyIff(images, iouThres);
  }
}
