/**
 * The statistics that the evaluation loop of test.py gathers per image, and
 * their concatenation over the dataset.
 *
 * An image contributes one tuple (tp flags, confidences, predicted classes,
 * label classes) when NMS returned detections for it and it has at least one
 * label; otherwise it contributes nothing, not even its label classes. At the
 * end each component is concatenated across the tuples in dataset order.
 */
module Stats {
  import opened Wrappers
  import opened Matcher

  /** One image as the loop sees it: the NMS output (None when no detection
      survived), the class column of its label rows, and the IoU of each
      detection with each label box. */
  datatype Image = Image(detections: Option<seq<Detection>>, labelCls: seq<int>, ious: seq<seq<real>>)

  /** The image takes part in the statistics. */
  predicate Kept(img: Image)
  {
    img.detections.Some? && |img.labelCls| > 0
  }

  /** The IoU matrix of a kept image has one row per detection and one column
      per label, as the box utilities produce it. */
  predicate WellFormed(img: Image)
  {
    Kept(img) ==> Shaped(img.ious, img.detections.value, img.labelCls)
  }

  predicate AllWellFormed(images: seq<Image>)
  {
    forall k :: 0 <= k < |images| ==> WellFormed(images[k])
  }

  /** The four parallel arrays of one image, and of their concatenation. */
  datatype StatsTuple = StatsTuple(tp: seq<int>, conf: seq<real>, predCls: seq<int>, targetCls: seq<int>)

  /** tp, conf and predCls have one entry per detection; the flags are 0 or 1
      and there are no more 1 flags than labels. */
  predicate Sound(e: StatsTuple)
  {
    |e.tp| == |e.conf| == |e.predCls| &&
    (forall i :: 0 <= i < |e.tp| ==> e.tp[i] == 0 || e.tp[i] == 1) &&
    CountOnes(e.tp) <= |e.targetCls|
  }

  /** Column 4 of the detections. */
  function Confidences(dets: seq<Detection>): seq<real>
  {
    seq(|dets|, i requires 0 <= i < |dets| => dets[i].conf)
  }

  /** Column 6 of the detections. */
  function PredictedClasses(dets: seq<Detection>): seq<int>
  {
    seq(|dets|, i requires 0 <= i < |dets| => dets[i].cls)
  }

  /** The tuple one image appends, or None when it is skipped. */
  function ImageEntry(img: Image, thres: real): (r: Option<StatsTuple>)
    requires WellFormed(img)
    ensures r.Some? <==> Kept(img)
    ensures r.Some? ==>
      var dets := img.detections.value;
      Sound(r.value) &&
      |r.value.tp| == |dets| &&
      (forall i :: 0 <= i < |dets| ==> r.value.conf[i] == dets[i].conf && r.value.predCls[i] == dets[i].cls) &&
      r.value.targetCls == img.labelCls &&
      GreedyUpTo(img.ious, dets, img.labelCls, thres, r.value.tp, |dets|)
  {
    match img.detections
    case None => None
    case Some(dets) =>
      if |img.labelCls| == 0 then None
      else
        var s := MatchPrefix(img.ious, dets, img.labelCls, thres, |dets|);
        MatchPrefixGreedy(img.ious, dets, img.labelCls, thres, |dets|);
        MatchPrefixDetected(img.ious, dets, img.labelCls, thres, |dets|);
        NoDuplicatesBound(s.detected, |img.labelCls|);
        Some(StatsTuple(s.correct, Confidences(dets), PredictedClasses(dets), img.labelCls))
  }

  /** The list (empty or singleton) that one image appends to the stats. */
  function EntryList(img: Image, thres: real): seq<StatsTuple>
    requires WellFormed(img)
  {
    match ImageEntry(img, thres)
    case None => []
    case Some(e) => [e]
  }

  /** The stats list after visiting the images in order. */
  function Collect(images: seq<Image>, thres: real): (stats: seq<StatsTuple>)
    requires AllWellFormed(images)
    ensures |stats| <= |images|
    ensures forall k :: 0 <= k < |stats| ==> Sound(stats[k])
  {
    if images == [] then []
    else Collect(images[..|images| - 1], thres) + EntryList(images[|images| - 1], thres)
  }

  function Join(a: StatsTuple, b: StatsTuple): StatsTuple
  {
    StatsTuple(a.tp + b.tp, a.conf + b.conf, a.predCls + b.predCls, a.targetCls + b.targetCls)
  }

  /** Each component concatenated across the tuples, in order. */
  function Concat(stats: seq<StatsTuple>): StatsTuple
  {
    if stats == [] then StatsTuple([], [], [], [])
    else Join(Concat(stats[..|stats| - 1]), stats[|stats| - 1])
  }

  lemma {:induction false} CollectAppend(a: seq<Image>, b: seq<Image>, thres: real)
    requires AllWellFormed(a) && AllWellFormed(b)
    ensures AllWellFormed(a + b)
    ensures Collect(a + b, thres) == Collect(a, thres) + Collect(b, thres)
  {
    assert AllWellFormed(a + b) by {
      forall k | 0 <= k < |a + b| ensures WellFormed((a + b)[k]) {
        if k >= |a| { assert (a + b)[k] == b[k - |a|]; }
      }
    }
    if b == [] {
      assert a + b == a;
    } else {
      var init := b[..|b| - 1];
      CollectAppend(a, init, thres);
      assert (a + b)[..|a + b| - 1] == a + init;
      assert (a + b)[|a + b| - 1] == b[|b| - 1];
    }
  }

  /** Visiting one more image appends its entry. */
  lemma CollectSnoc(images: seq<Image>, img: Image, thres: real)
    requires AllWellFormed(images) && WellFormed(img)
    ensures AllWellFormed(images + [img])
    ensures Collect(images + [img], thres) == Collect(images, thres) + EntryList(img, thres)
  {
    assert (images + [img])[..|images|] == images;
  }

  /** An image without detections or without labels contributes nothing,
      wherever it stands in the dataset; in particular the label classes of
      an image whose NMS output is None are not counted. */
  lemma SkippedImageContributesNothing(a: seq<Image>, img: Image, b: seq<Image>, thres: real)
    requires AllWellFormed(a) && AllWellFormed(b) && WellFormed(img)
    requires !Kept(img)
    ensures AllWellFormed(a + [img] + b)
    ensures Collect(a + [img] + b, thres) == Collect(a + b, thres)
  {
    CollectSnoc(a, img, thres);
    assert EntryList(img, thres) == [];
    var front := Collect(a + [img], thres);
    assert front == Collect(a, thres);
    CollectAppend(a + [img], b, thres);
    CollectAppend(a, b, thres);
  }

  /** Any other image contributes exactly its own tuple, at its own place. */
  lemma KeptImageContributesOne(a: seq<Image>, img: Image, b: seq<Image>, thres: real)
    requires AllWellFormed(a) && AllWellFormed(b) && WellFormed(img)
    requires Kept(img)
    ensures AllWellFormed(a + [img] + b)
    ensures Collect(a + [img] + b, thres) == Collect(a, thres) + [ImageEntry(img, thres).value] + Collect(b, thres)
  {
    CollectSnoc(a, img, thres);
    CollectAppend(a + [img], b, thres);
  }

  /** Nothing is appended exactly when no image is kept. */
  lemma {:induction false} CollectEmptyIff(images: seq<Image>, thres: real)
    requires AllWellFormed(images)
    ensures Collect(images, thres) == [] <==> forall k :: 0 <= k < |images| ==> !Kept(images[k])
  {
    if images != [] {
      var init := images[..|images| - 1];
      CollectEmptyIff(init, thres);
      assert forall k :: 0 <= k < |init| ==> init[k] == images[k];
    }
  }

  lemma {:induction false} ConcatAppend(a: seq<StatsTuple>, b: seq<StatsTuple>)
    ensures Concat(a + b) == Join(Concat(a), Concat(b))
  {
    if b == [] {
      assert a + b == a;
    } else {
      var init := b[..|b| - 1];
      ConcatAppend(a, init);
      assert (a + b)[..|a + b| - 1] == a + init;
      assert (a + b)[|a + b| - 1] == b[|b| - 1];
      assert Concat(a + b) == Join(Concat(a + init), b[|b| - 1]);
      assert Concat(b) == Join(Concat(init), b[|b| - 1]);
    }
  }

  lemma {:induction false} CountOnesConcat(f: seq<int>, g: seq<int>)
    ensures CountOnes(f + g) == CountOnes(f) + CountOnes(g)
  {
    if g != [] {
      var init := g[..|g| - 1];
      CountOnesConcat(f, init);
      assert (f + g)[..|f + g| - 1] == f + init;
    } else {
      assert f + g == f;
    }
  }

  /** The concatenated arrays stay parallel, keep 0/1 flags, and hold no more
      true positives than there are label classes in the dataset arrays, so
      no class can reach a recall above one. */
  lemma {:induction false} ConcatSound(stats: seq<StatsTuple>)
    requires forall k :: 0 <= k < |stats| ==> Sound(stats[k])
    ensures Sound(Concat(stats))
  {
    if stats != [] {
      var init := stats[..|stats| - 1];
      ConcatSound(init);
      var c, e := Concat(init), stats[|stats| - 1];
      CountOnesConcat(c.tp, e.tp);
      assert forall i :: 0 <= i < |c.tp| ==> (c.tp + e.tp)[i] == c.tp[i];
      assert forall i :: |c.tp| <= i < |c.tp| + |e.tp| ==> (c.tp + e.tp)[i] == e.tp[i - |c.tp|];
    }
  }

  /** Detections with labels but a None NMS output drop out entirely: here
      only the first image's label class reaches the dataset arrays. */
  lemma NoneDetectionsDropLabelsExample()
    ensures var images := [Image(Some([Detection(0.9, 1.0, 3)]), [3], [[0.8]]), Image(None, [5], [])];
      AllWellFormed(images) &&
      Concat(Collect(images, 0.5)) == StatsTuple([1], [0.9], [3], [3])
  {
    var img0 := Image(Some([Detection(0.9, 1.0, 3)]), [3], [[0.8]]);
    var images := [img0, Image(None, [5], [])];
    assert images[..1] == [img0];
    assert [img0][..0] == [];
    assert MatchPrefix([[0.8]], [Detection(0.9, 1.0, 3)], [3], 0.5, 1).correct == [1];
  }

  /** Two images: the first has one correct detection on its one label, the
      second one false positive and one unmatched label. The dataset arrays
      are the two tuples joined in order. */
  lemma TwoImageStatsExample()
    ensures var images := [Image(Some([Detection(0.9, 1.0, 0)]), [0], [[0.8]]),
                           Image(Some([Detection(0.6, 1.0, 0)]), [0], [[0.1]])];
      AllWellFormed(images) &&
      Concat(Collect(images, 0.5)) == StatsTuple([1, 0], [0.9, 0.6], [0, 0], [0, 0])
  {
    var img0 := Image(Some([Detection(0.9, 1.0, 0)]), [0], [[0.8]]);
    var img1 := Image(Some([Detection(0.6, 1.0, 0)]), [0], [[0.1]]);
    var images := [img0, img1];
    assert images[..1] == [img0];
    assert [img0][..0] == [];
    assert MatchPrefix([[0.8]], [Detection(0.9, 1.0, 0)], [0], 0.5, 1).correct == [1];
    assert MatchPrefix([[0.1]], [Detection(0.6, 1.0, 0)], [0], 0.5, 1).correct == [0];
    assert Collect(images, 0.5) == [ImageEntry(img0, 0.5).value, ImageEntry(img1, 0.5).value];
  }
}
