/**
 * The per-image detection matcher of the evaluation loop in test.py.
 *
 * For one image with at least one label, the detections that survived
 * non-maximum suppression are walked in order. Each detection takes the
 * target with the best IoU (over ALL targets, consumed or not) and is a true
 * positive (flag 1) when that IoU is strictly above the threshold, its
 * predicted class equals the target's class and that target has not been
 * consumed by an earlier true positive; otherwise it is a false positive
 * (flag 0).
 *
 * Box geometry is abstracted: ious[i][j] is the IoU of detection i with
 * target j, as the box utilities would compute it.
 */
module Matcher {

  /** One row of the NMS output: column 4 (objectness confidence), column 5
      (class confidence) and column 6 (predicted class). The four box
      coordinates enter the model only through the image's IoU matrix. */
  datatype Detection = Detection(conf: real, clsConf: real, cls: int)

  /** The shape the matcher works on: one IoU row per detection, one column
      per target, and at least one target (images without labels are
      skipped before matching). */
  predicate Shaped(ious: seq<seq<real>>, dets: seq<Detection>, targetCls: seq<int>)
  {
    |ious| == |dets| && |targetCls| > 0 &&
    forall i :: 0 <= i < |ious| ==> |ious[i]| == |targetCls|
  }

  /** Index of the best IoU in a row. Ties go to the first maximum: this is
      the model's own choice, the tensor maximum used by the source does not
      document one. */
  function BestTarget(row: seq<real>): (bi: nat)
    requires |row| > 0
    ensures bi < |row|
    ensures forall j :: 0 <= j < |row| ==> row[j] <= row[bi]
    ensures forall j :: 0 <= j < bi ==> row[j] < row[bi]
  {
    if |row| == 1 then 0
    else
      var k := BestTarget(row[..|row| - 1]);
      if row[|row| - 1] > row[k] then |row| - 1 else k
  }

  /** Detection i passes the IoU and class tests against its best target. */
  predicate Qualifies(ious: seq<seq<real>>, dets: seq<Detection>, targetCls: seq<int>, thres: real, i: nat)
    requires Shaped(ious, dets, targetCls) && i < |dets|
  {
    var bi := BestTarget(ious[i]);
    ious[i][bi] > thres && dets[i].cls == targetCls[bi]
  }

  /** The matcher's two lists after some prefix of the detections: the flags
      emitted so far and the target indices consumed so far. */
  datatype MatchState = MatchState(correct: seq<int>, detected: seq<nat>)

  /** The state after the first n detections, one loop step at a time. */
  function MatchPrefix(ious: seq<seq<real>>, dets: seq<Detection>, targetCls: seq<int>, thres: real, n: nat): (s: MatchState)
    requires Shaped(ious, dets, targetCls) && n <= |dets|
    ensures |s.correct| == n
    ensures |s.detected| <= n
  {
    if n == 0 then MatchState([], [])
    else
      var s := MatchPrefix(ious, dets, targetCls, thres, n - 1);
      var bi := BestTarget(ious[n - 1]);
      if Qualifies(ious, dets, targetCls, thres, n - 1) && bi !in s.detected
      then MatchState(s.correct + [1], s.detected + [bi])
      else MatchState(s.correct + [0], s.detected)
  }

  /** Number of 1 flags. */
  function CountOnes(flags: seq<int>): (c: nat)
    ensures c <= |flags|
  {
    if flags == [] then 0
    else CountOnes(flags[..|flags| - 1]) + (if flags[|flags| - 1] == 1 then 1 else 0)
  }

  predicate NoDuplicates(d: seq<nat>)
  {
    forall i, j :: 0 <= i < j < |d| ==> d[i] != d[j]
  }

  /** Target t is the best target of one of the first n detections flagged 1. */
  predicate TakenBefore(ious: seq<seq<real>>, dets: seq<Detection>, targetCls: seq<int>, flags: seq<int>, n: nat, t: nat)
    requires Shaped(ious, dets, targetCls) && n <= |dets| && n <= |flags|
  {
    exists j :: 0 <= j < n && flags[j] == 1 && BestTarget(ious[j]) == t
  }

  /** The best target of detection i was already taken by an earlier detection
      flagged 1. */
  predicate Claimed(ious: seq<seq<real>>, dets: seq<Detection>, targetCls: seq<int>, flags: seq<int>, i: nat)
    requires Shaped(ious, dets, targetCls) && i < |dets| && i <= |flags|
  {
    TakenBefore(ious, dets, targetCls, flags, i, BestTarget(ious[i]))
  }

  /** Reference definition of the greedy assignment, without any consumed
      list: each of the first n flags is 1 exactly when its detection
      qualifies and its best target was not claimed by an earlier 1. */
  ghost predicate GreedyUpTo(ious: seq<seq<real>>, dets: seq<Detection>, targetCls: seq<int>, thres: real, flags: seq<int>, n: nat)
    requires Shaped(ious, dets, targetCls) && n <= |dets|
  {
    |flags| == n &&
    forall i :: 0 <= i < n ==>
      flags[i] == (if Qualifies(ious, dets, targetCls, thres, i) && !Claimed(ious, dets, targetCls, flags, i) then 1 else 0)
  }

  lemma {:induction false} CountOnesAppend(flags: seq<int>, b: int)
    ensures CountOnes(flags + [b]) == CountOnes(flags) + (if b == 1 then 1 else 0)
  {
    assert (flags + [b])[..|flags|] == flags;
  }

  /** A set of indices below m has at most m elements. */
  lemma {:induction false} BoundedSetSize(s: set<nat>, m: nat)
    requires forall x :: x in s ==> x < m
    ensures |s| <= m
  {
    if m > 0 {
      BoundedSetSize(s - {m - 1}, m - 1);
    } else {
      assert s == {};
    }
  }

  /** A duplicate-free sequence has as many distinct elements as entries. */
  lemma {:induction false} NoDuplicatesSize(d: seq<nat>)
    requires NoDuplicates(d)
    ensures |set x: nat | x in d| == |d|
  {
    if d != [] {
      var init, last := d[..|d| - 1], d[|d| - 1];
      assert d == init + [last];
      assert NoDuplicates(init);
      NoDuplicatesSize(init);
      var before := set x: nat | x in init;
      assert last !in before;
      assert |before + {last}| == |before| + 1;
      assert (set x: nat | x in d) == before + {last};
    }
  }

  /** The consumed list never lists a target twice, so it is no longer than
      the label list. */
  lemma NoDuplicatesBound(d: seq<nat>, m: nat)
    requires NoDuplicates(d)
    requires forall k :: 0 <= k < |d| ==> d[k] < m
    ensures |d| <= m
  {
    NoDuplicatesSize(d);
    var s := set x: nat | x in d;
    forall x | x in s ensures x < m {
      var k :| 0 <= k < |d| && d[k] == x;
    }
    BoundedSetSize(s, m);
  }

  /** Appending a flag does not change which earlier targets count as
      claimed. */
  lemma ClaimedAppend(ious: seq<seq<real>>, dets: seq<Detection>, targetCls: seq<int>, flags: seq<int>, b: int, i: nat)
    requires Shaped(ious, dets, targetCls) && i < |dets| && i <= |flags|
    ensures Claimed(ious, dets, targetCls, flags + [b], i) == Claimed(ious, dets, targetCls, flags, i)
  {
    if Claimed(ious, dets, targetCls, flags, i) {
      var j :| 0 <= j < i && flags[j] == 1 && BestTarget(ious[j]) == BestTarget(ious[i]);
      assert (flags + [b])[j] == 1;
    }
    if Claimed(ious, dets, targetCls, flags + [b], i) {
      var j :| 0 <= j < i && (flags + [b])[j] == 1 && BestTarget(ious[j]) == BestTarget(ious[i]);
      assert flags[j] == 1;
    }
  }

  /** What the loop keeps true about the consumed list: each target at most
      once, all valid target indices, and as many as there are 1 flags. */
  lemma {:induction false} MatchPrefixDetected(ious: seq<seq<real>>, dets: seq<Detection>, targetCls: seq<int>, thres: real, n: nat)
    requires Shaped(ious, dets, targetCls) && n <= |dets|
    ensures var s := MatchPrefix(ious, dets, targetCls, thres, n);
      NoDuplicates(s.detected) &&
      (forall k :: 0 <= k < |s.detected| ==> s.detected[k] < |targetCls|) &&
      |s.detected| == CountOnes(s.correct)
  {
    if n > 0 {
      MatchPrefixDetected(ious, dets, targetCls, thres, n - 1);
      var s := MatchPrefix(ious, dets, targetCls, thres, n - 1);
      var s' := MatchPrefix(ious, dets, targetCls, thres, n);
      var bi := BestTarget(ious[n - 1]);
      if Qualifies(ious, dets, targetCls, thres, n - 1) && bi !in s.detected {
        assert s' == MatchState(s.correct + [1], s.detected + [bi]);
        CountOnesAppend(s.correct, 1);
        forall i, j | 0 <= i < j < |s'.detected|
          ensures s'.detected[i] != s'.detected[j]
        {
          if j == |s.detected| {
            assert s'.detected[i] == s.detected[i];
          }
        }
      } else {
        assert s' == MatchState(s.correct + [0], s.detected);
        CountOnesAppend(s.correct, 0);
      }
    }
  }

  /** The consumed list holds exactly the best targets of the detections
      flagged 1. */
  lemma {:induction false} MatchPrefixConsumed(ious: seq<seq<real>>, dets: seq<Detection>, targetCls: seq<int>, thres: real, n: nat)
    requires Shaped(ious, dets, targetCls) && n <= |dets|
    ensures forall t: nat :: t in MatchPrefix(ious, dets, targetCls, thres, n).detected <==>
      TakenBefore(ious, dets, targetCls, MatchPrefix(ious, dets, targetCls, thres, n).correct, n, t)
  {
    if n > 0 {
      MatchPrefixConsumed(ious, dets, targetCls, thres, n - 1);
      var s := MatchPrefix(ious, dets, targetCls, thres, n - 1);
      var s' := MatchPrefix(ious, dets, targetCls, thres, n);
      var bi := BestTarget(ious[n - 1]);
      var b := s'.correct[n - 1];
      assert s'.correct == s.correct + [b];
      forall t: nat
        ensures t in s'.detected <==> TakenBefore(ious, dets, targetCls, s'.correct, n, t)
      {
        assert t in s.detected <==> TakenBefore(ious, dets, targetCls, s.correct, n - 1, t);
        if t in s'.detected {
          if t in s.detected {
            var j :| 0 <= j < n - 1 && s.correct[j] == 1 && BestTarget(ious[j]) == t;
            assert s'.correct[j] == 1;
          } else {
            assert t == bi && b == 1;
          }
        }
        if TakenBefore(ious, dets, targetCls, s'.correct, n, t) {
          var j :| 0 <= j < n && s'.correct[j] == 1 && BestTarget(ious[j]) == t;
          if j < n - 1 {
            assert s.correct[j] == 1;
          }
        }
      }
    }
  }

  /** The loop computes the greedy reference flags. */
  lemma {:induction false} MatchPrefixGreedy(ious: seq<seq<real>>, dets: seq<Detection>, targetCls: seq<int>, thres: real, n: nat)
    requires Shaped(ious, dets, targetCls) && n <= |dets|
    ensures GreedyUpTo(ious, dets, targetCls, thres, MatchPrefix(ious, dets, targetCls, thres, n).correct, n)
  {
    if n > 0 {
      MatchPrefixGreedy(ious, dets, targetCls, thres, n - 1);
      MatchPrefixConsumed(ious, dets, targetCls, thres, n - 1);
      var s := MatchPrefix(ious, dets, targetCls, thres, n - 1);
      var s' := MatchPrefix(ious, dets, targetCls, thres, n);
      var bi := BestTarget(ious[n - 1]);
      var b := s'.correct[n - 1];
      assert s'.correct == s.correct + [b];
      forall i | 0 <= i < n - 1
        ensures Claimed(ious, dets, targetCls, s'.correct, i) == Claimed(ious, dets, targetCls, s.correct, i)
      {
        ClaimedAppend(ious, dets, targetCls, s.correct, b, i);
      }
      ClaimedAppend(ious, dets, targetCls, s.correct, b, n - 1);
      assert bi in s.detected <==> TakenBefore(ious, dets, targetCls, s.correct, n - 1, bi);
      assert Claimed(ious, dets, targetCls, s.correct, n - 1) <==> bi in s.detected;
    }
  }

  /** The greedy reference flags are determined by their inputs: two flag
      sequences that both satisfy it agree on every prefix. */
  lemma {:induction false} GreedyAgree(ious: seq<seq<real>>, dets: seq<Detection>, targetCls: seq<int>, thres: real,
                                       f: seq<int>, g: seq<int>, n: nat, i: nat)
    requires Shaped(ious, dets, targetCls) && n <= |dets| && i <= n
    requires GreedyUpTo(ious, dets, targetCls, thres, f, n)
    requires GreedyUpTo(ious, dets, targetCls, thres, g, n)
    ensures f[..i] == g[..i]
  {
    if i > 0 {
      GreedyAgree(ious, dets, targetCls, thres, f, g, n, i - 1);
      var k := i - 1;
      assert forall j :: 0 <= j < k ==> f[j] == g[j] by {
        forall j | 0 <= j < k ensures f[j] == g[j] {
          assert f[..k][j] == g[..k][j];
        }
      }
      assert Claimed(ious, dets, targetCls, f, k) == Claimed(ious, dets, targetCls, g, k);
      assert f[..i] == f[..k] + [f[k]];
      assert g[..i] == g[..k] + [g[k]];
    }
  }

  lemma GreedyUnique(ious: seq<seq<real>>, dets: seq<Detection>, targetCls: seq<int>, thres: real,
                     f: seq<int>, g: seq<int>)
    requires Shaped(ious, dets, targetCls)
    requires GreedyUpTo(ious, dets, targetCls, thres, f, |dets|)
    requires GreedyUpTo(ious, dets, targetCls, thres, g, |dets|)
    ensures f == g
  {
    GreedyAgree(ious, dets, targetCls, thres, f, g, |dets|, |dets|);
    assert f == f[..|dets|] && g == g[..|dets|];
  }

  /** Later detections never revise earlier flags, and the consumed list only
      grows. */
  lemma {:induction false} MatchPrefixMonotone(ious: seq<seq<real>>, dets: seq<Detection>, targetCls: seq<int>, thres: real, m: nat, n: nat)
    requires Shaped(ious, dets, targetCls) && m <= n <= |dets|
    ensures MatchPrefix(ious, dets, targetCls, thres, n).correct[..m] == MatchPrefix(ious, dets, targetCls, thres, m).correct
    ensures MatchPrefix(ious, dets, targetCls, thres, m).detected <= MatchPrefix(ious, dets, targetCls, thres, n).detected
  {
    if m < n {
      MatchPrefixMonotone(ious, dets, targetCls, thres, m, n - 1);
      var s := MatchPrefix(ious, dets, targetCls, thres, n - 1);
      var s' := MatchPrefix(ious, dets, targetCls, thres, n);
      assert s'.correct[..n - 1] == s.correct;
      assert s'.correct[..m] == s'.correct[..n - 1][..m];
      var extra := s'.detected[|s.detected|..];
      assert s'.detected == s.detected + extra;
    }
  }

  /** A detection whose best target is already consumed is a false positive,
      even when another target would qualify: the maximum is over all
      targets. Here both detections overlap target 0 best and target 1 well
      enough, and the second one is still a false positive. */
  lemma ConsumedBestTargetExample()
    ensures var ious := [[0.9, 0.8], [0.9, 0.8]];
      var dets := [Detection(0.9, 1.0, 1), Detection(0.8, 1.0, 1)];
      MatchPrefix(ious, dets, [1, 1], 0.5, 2).correct == [1, 0]
  {
    var ious := [[0.9, 0.8], [0.9, 0.8]];
    var dets := [Detection(0.9, 1.0, 1), Detection(0.8, 1.0, 1)];
    assert BestTarget(ious[0]) == 0 && BestTarget(ious[1]) == 0;
    assert MatchPrefix(ious, dets, [1, 1], 0.5, 1).detected == [0];
  }

  /** A flag is 1 only when its best target is not claimed by an earlier
      true positive, whatever the other targets look like. */
  lemma ClaimedIsFalsePositive(ious: seq<seq<real>>, dets: seq<Detection>, targetCls: seq<int>, thres: real, i: nat)
    requires Shaped(ious, dets, targetCls) && i < |dets|
    requires Claimed(ious, dets, targetCls, MatchPrefix(ious, dets, targetCls, thres, |dets|).correct, i)
    ensures MatchPrefix(ious, dets, targetCls, thres, |dets|).correct[i] == 0
  {
    MatchPrefixGreedy(ious, dets, targetCls, thres, |dets|);
  }

  /** Two identical detections on the only target: exactly the first one in
      input order is a true positive. */
  lemma DuplicateDetectionExample()
    ensures var dets := [Detection(0.9, 1.0, 1), Detection(0.5, 1.0, 1)];
      MatchPrefix([[0.8], [0.8]], dets, [1], 0.5, 2).correct == [1, 0]
  {
    var dets := [Detection(0.9, 1.0, 1), Detection(0.5, 1.0, 1)];
    assert MatchPrefix([[0.8], [0.8]], dets, [1], 0.5, 1).detected == [0];
  }

  /** An IoU below the threshold, or a wrong class, gives a false positive. */
  lemma RejectedDetectionExamples()
    ensures MatchPrefix([[0.3]], [Detection(0.9, 1.0, 1)], [1], 0.5, 1).correct == [0]
    ensures MatchPrefix([[0.5]], [Detection(0.9, 1.0, 1)], [1], 0.5, 1).correct == [0]
    ensures MatchPrefix([[0.8]], [Detection(0.9, 1.0, 2)], [1], 0.5, 1).correct == [0]
  {
  }

  /** The matching loop of one image with labels. */
  method MatchImage(ious: seq<seq<real>>, dets: seq<Detection>, targetCls: seq<int>, thres: real) returns (correct: seq<int>)
    requires Shaped(ious, dets, targetCls)
    ensures correct == MatchPrefix(ious, dets, targetCls, thres, |dets|).correct
    ensures GreedyUpTo(ious, dets, targetCls, thres, correct, |dets|)
    ensures |correct| == |dets| && forall i :: 0 <= i < |correct| ==> correct[i] == 0 || correct[i] == 1
    ensures CountOnes(correct) <= |targetCls|
  {
    correct := [];
    var detected: seq<nat> := [];
    for i := 0 to |dets|
      invariant MatchPrefix(ious, dets, targetCls, thres, i) == MatchState(correct, detected)
    {
      var bi := BestTarget(ious[i]);
      if ious[i][bi] > thres && dets[i].cls == targetCls[bi] && bi !in detected {
        correct := correct + [1];
        detected := detected + [bi];
      } else {
        correct := correct + [0];
      }
    }
    MatchPrefixGreedy(ious, dets, targetCls, thres, |dets|);
    MatchPrefixDetected(ious, dets, targetCls, thres, |dets|);
    NoDuplicatesBound(detected, |targetCls|);
  }
}
