/** The encoder's plan of groups of pictures: where keyframes go. */
module BpvGopPlan {
  datatype Entry = Entry(first: nat, sceneCut: bool, score: real)

  /** Scene threshold 0 turns scene cuts off. */
  datatype Rule = Rule(threshold: real, minimum: nat, gop: nat)

  class GopPlan {
    var entries: seq<Entry>

    constructor ()
      ensures entries == []
    {
      entries := [];
    }

    /** gop_plan_add: refuses a start that is not after the last one. */
    method Add(first: nat, sceneCut: bool, score: real) returns (ok: bool)
      modifies this
      ensures ok <==> old(entries) == [] || first > old(entries)[|old(entries)| - 1].first
      ensures entries == if ok then old(entries) + [Entry(first, sceneCut, score)] else old(entries)
    {
      if |entries| > 0 && first <= entries[|entries| - 1].first {
        return false;
      }
      entries := entries + [Entry(first, sceneCut, score)];
      ok := true;
    }
  }

  predicate IsCut(rule: Rule, length: nat, score: real)
  {
    rule.threshold > 0.0 && length >= rule.minimum && score >= rule.threshold
  }

  /** A group starts `length` frames after the previous start. */
  predicate Starts(rule: Rule, length: nat, score: real)
  {
    IsCut(rule, length, score) || length >= rule.gop
  }

  /** The entry of a group that starts at frame n, the previous one having started at `first`. */
  predicate EntryAt(rule: Rule, scores: seq<real>, first: nat, e: Entry)
  {
    && first < e.first < |scores| && Starts(rule, e.first - first, scores[e.first])
    && e.sceneCut == IsCut(rule, e.first - first, scores[e.first])
    && e.score == (if rule.threshold > 0.0 then scores[e.first] else 0.0)
  }

  /** Nothing starts a group between frame `first` and frame `end`. */
  predicate Quiet(rule: Rule, scores: seq<real>, first: nat, end: nat)
    requires end <= |scores|
  {
    forall n :: first < n < end ==> !Starts(rule, n - first, scores[n])
  }

  /** End of group i: the next start, or the frame count. */
  function EndOf(plan: seq<Entry>, frames: nat, i: nat): (end: nat)
    requires i < |plan|
  {
    if i + 1 < |plan| then plan[i + 1].first else frames
  }

  /** Group i covers frames up to the next start, and nothing in between starts a group. */
  ghost predicate PlannedGroup(rule: Rule, scores: seq<real>, plan: seq<Entry>, n: nat, i: nat)
    requires i < |plan|
  {
    && plan[i].first < EndOf(plan, n, i) <= n <= |scores|
    && Quiet(rule, scores, plan[i].first, EndOf(plan, n, i))
    && (i + 1 < |plan| ==> EntryAt(rule, scores, plan[i].first, plan[i + 1]))
  }

  /** What a plan for the first n frames with these scores must be. */
  ghost predicate IsPlan(rule: Rule, scores: seq<real>, plan: seq<Entry>, n: nat)
  {
    && |plan| > 0 && plan[0] == Entry(0, false, 0.0)
    && forall i :: 0 <= i < |plan| ==> PlannedGroup(rule, scores, plan, n, i)
  }

  function NewEntry(rule: Rule, scores: seq<real>, first: nat, n: nat): (e: Entry)
    requires first < n < |scores|
  {
    Entry(n, IsCut(rule, n - first, scores[n]), if rule.threshold > 0.0 then scores[n] else 0.0)
  }

  /** The first pass over the frames; `scores[n]` is the scene score of frame n. */
  method Scan(rule: Rule, scores: seq<real>) returns (ok: bool, plan: seq<Entry>)
    ensures ok <==> |scores| > 0
    ensures ok ==> IsPlan(rule, scores, plan, |scores|)
  {
    hide IsPlan;
    var builder := new GopPlan();
    var frames := 0;
    plan := [];
    while frames < |scores|
      invariant frames <= |scores| && fresh(builder)
      invariant frames == 0 ==> builder.entries == []
      invariant frames > 0 ==> IsPlan(rule, scores, builder.entries, frames)
    {
      ghost var was := builder.entries;
      if frames == 0 {
        ok := builder.Add(0, false, 0.0);
        PlanStarts(rule, scores);
        assert builder.entries == [Entry(0, false, 0.0)];
      } else {
        LastGroup(rule, scores, was, frames);
        var first := builder.entries[|builder.entries| - 1].first;
        var length := frames - first;
        var score, sceneCut := 0.0, false;
        if rule.threshold > 0.0 {
          score := scores[frames];
          sceneCut := length >= rule.minimum && score >= rule.threshold;
        }
        if sceneCut || length >= rule.gop {
          ok := builder.Add(frames, sceneCut, score);
          if !ok {
            assert false;
          }
        }
        PlanGrows(rule, scores, frames, was);
      }
      frames := frames + 1;
    }
    ok := frames > 0;
    plan := builder.entries;
  }

  lemma PlanStarts(rule: Rule, scores: seq<real>)
    requires |scores| > 0
    ensures IsPlan(rule, scores, [Entry(0, false, 0.0)], 1)
  {
  }

  lemma LastGroup(rule: Rule, scores: seq<real>, plan: seq<Entry>, n: nat)
    requires IsPlan(rule, scores, plan, n)
    ensures |plan| > 0 && plan[|plan| - 1].first < n <= |scores|
  {
    assert PlannedGroup(rule, scores, plan, n, |plan| - 1);
  }

  /** One more frame keeps or extends the plan. */
  lemma PlanGrows(rule: Rule, scores: seq<real>, n: nat, plan: seq<Entry>)
    requires 0 < n < |scores| && IsPlan(rule, scores, plan, n) && |plan| > 0 && plan[|plan| - 1].first < n
    ensures var last := plan[|plan| - 1].first;
            var after := if Starts(rule, n - last, scores[n]) then plan + [NewEntry(rule, scores, last, n)] else plan;
            IsPlan(rule, scores, after, n + 1)
  {
    var last := plan[|plan| - 1].first;
    var after := if Starts(rule, n - last, scores[n]) then plan + [NewEntry(rule, scores, last, n)] else plan;
    var m := n + 1;
    hide Starts, IsCut;
    forall i | 0 <= i < |after| ensures PlannedGroup(rule, scores, after, m, i) {
      if i < |plan| {
        assert PlannedGroup(rule, scores, plan, n, i);
        assert after[i] == plan[i];
      }
    }
  }

  lemma {:induction false} StartsRise(rule: Rule, scores: seq<real>, plan: seq<Entry>, i: nat, j: nat)
    requires IsPlan(rule, scores, plan, |scores|) && i < j < |plan|
    ensures plan[i].first < plan[j].first
  {
    assert PlannedGroup(rule, scores, plan, |scores|, j - 1);
    if i < j - 1 {
      StartsRise(rule, scores, plan, i, j - 1);
    }
  }

  /**
   What the plan promises: it starts at frame 0, no group is longer than the
   maximum, a group that a scene cut ends has at least the minimum length, and
   any other group but the last has exactly the maximum length.
   */
  lemma PlanBounds(rule: Rule, scores: seq<real>, plan: seq<Entry>, i: nat)
    requires IsPlan(rule, scores, plan, |scores|) && i < |plan| && rule.gop >= 1
    ensures plan[0].first == 0
    ensures plan[i].first < EndOf(plan, |scores|, i) <= plan[i].first + rule.gop
    ensures i + 1 < |plan| ==>
              && plan[i + 1].first < |scores|
              && (plan[i + 1].sceneCut <==> rule.threshold > 0.0 && scores[plan[i + 1].first] >= rule.threshold
                                            && plan[i + 1].first - plan[i].first >= rule.minimum)
              && plan[i + 1].score == if rule.threshold > 0.0 then scores[plan[i + 1].first] else 0.0
    ensures i + 1 < |plan| && !plan[i + 1].sceneCut ==> plan[i + 1].first == plan[i].first + rule.gop
  {
    assert PlannedGroup(rule, scores, plan, |scores|, i);
    var first, end := plan[i].first, EndOf(plan, |scores|, i);
    assert first + rule.gop < end ==> !Starts(rule, first + rule.gop - first, scores[first + rule.gop]);
  }

  /** Every scene change far enough from the last start is a keyframe. */
  lemma NoMissedCut(rule: Rule, scores: seq<real>, plan: seq<Entry>, i: nat, n: nat)
    requires IsPlan(rule, scores, plan, |scores|) && i < |plan| && plan[i].first < n < EndOf(plan, |scores|, i)
    ensures n < |scores| && (rule.threshold > 0.0 && scores[n] >= rule.threshold ==> n - plan[i].first < rule.minimum)
  {
    assert PlannedGroup(rule, scores, plan, |scores|, i);
  }

  /** A start within a quiet stretch would break it. */
  lemma SameStart(rule: Rule, scores: seq<real>, first: nat, start: nat, end: nat)
    requires end <= |scores| && start < |scores| && Quiet(rule, scores, first, end)
    requires first < start && Starts(rule, start - first, scores[start])
    ensures end <= start
  {
    hide Starts;
  }

  /** Two plans of the same scores agree, entry by entry. */
  lemma {:induction false} PlansAgree(rule: Rule, scores: seq<real>, a: seq<Entry>, b: seq<Entry>, i: nat)
    requires IsPlan(rule, scores, a, |scores|) && IsPlan(rule, scores, b, |scores|) && i < |a|
    ensures i < |b| && a[i] == b[i]
  {
    if i > 0 {
      PlansAgree(rule, scores, a, b, i - 1);
      assert PlannedGroup(rule, scores, a, |scores|, i - 1) && PlannedGroup(rule, scores, b, |scores|, i - 1);
      assert PlannedGroup(rule, scores, a, |scores|, i);
      var first := a[i - 1].first;
      SameStart(rule, scores, first, a[i].first, EndOf(b, |scores|, i - 1));
      if i < |b| {
        SameStart(rule, scores, first, b[i].first, a[i].first);
      }
    }
  }

  /** The scores determine the plan. */
  lemma PlanUnique(rule: Rule, scores: seq<real>, a: seq<Entry>, b: seq<Entry>)
    requires IsPlan(rule, scores, a, |scores|) && IsPlan(rule, scores, b, |scores|)
    ensures a == b
  {
    forall i | 0 <= i < |a| ensures i < |b| && a[i] == b[i] {
      PlansAgree(rule, scores, a, b, i);
    }
    PlansAgree(rule, scores, a, b, |a| - 1);
    if |a| < |b| {
      PlansAgree(rule, scores, b, a, |a|);
    }
  }

  /** Without scene cuts every gop-th frame is a keyframe. */
  lemma {:induction false} FixedPlan(rule: Rule, scores: seq<real>, plan: seq<Entry>, i: nat)
    requires IsPlan(rule, scores, plan, |scores|) && i < |plan| && rule.gop >= 1 && rule.threshold <= 0.0
    ensures plan[i].first == i * rule.gop && !plan[i].sceneCut
  {
    if i > 0 {
      FixedPlan(rule, scores, plan, i - 1);
      PlanBounds(rule, scores, plan, i - 1);
      assert PlannedGroup(rule, scores, plan, |scores|, i - 1);
      assert i * rule.gop == (i - 1) * rule.gop + rule.gop;
    }
  }
}
