/** What the complex condition finder finds for one glyph, as if the glyph were analysed alone. */
module FinderAnswers {
  import opened IntSets
  import opened FinderTasks

  /** Of the segments `rest`, taken from the smallest on, keeps each that the glyph needs next to those kept before and
      those not yet looked at. */
  ghost function Kept(p: Problem, g: nat, kept: set<nat>, rest: set<nat>): set<nat>
    decreases |rest|
  {
    if rest == {} then kept
    else
      var s := Min(rest);
      Kept(p, g, if g in p.closure(kept + rest - {s}) then kept else kept + {s}, rest - {s})
  }

  /** Adds one kept set after another to the excluded segments until the others no longer activate the glyph. */
  ghost function Search(p: Problem, g: nat, full: set<nat>): set<nat>
    decreases |p.all - full|
  {
    var m := Kept(p, g, {}, (p.all - full) * p.inscope);
    KeptWithin(p, g, {}, (p.all - full) * p.inscope);
    if g !in p.closure(p.all - full) || m <= full then full
    else
      SmallerRest(p.all, full, m);
      Search(p, g, full + m)
  }

  lemma SmallerRest(all: set<nat>, full: set<nat>, m: set<nat>)
    requires m <= all && !(m <= full)
    ensures |all - (full + m)| < |all - full|
  {
    var x :| x in m && x !in full;
    assert x in all - full;
    SubsetSize(all - (full + m), all - full);
  }

  lemma {:induction false} KeptWithin(p: Problem, g: nat, kept: set<nat>, rest: set<nat>)
    ensures kept <= Kept(p, g, kept, rest) <= kept + rest
    decreases |rest|
  {
    if rest != {} {
      var s := Min(rest);
      KeptWithin(p, g, if g in p.closure(kept + rest - {s}) then kept else kept + {s}, rest - {s});
    }
  }

  lemma {:induction false} SearchGrows(p: Problem, g: nat, full: set<nat>)
    ensures full <= Search(p, g, full)
    decreases |p.all - full|
  {
    var m := Kept(p, g, {}, (p.all - full) * p.inscope);
    KeptWithin(p, g, {}, (p.all - full) * p.inscope);
    if g in p.closure(p.all - full) && !(m <= full) {
      SmallerRest(p.all, full, m);
      SearchGrows(p, g, full + m);
    }
  }

  // ---------- which set is kept ----------

  ghost function Under(m: set<nat>, s: nat): set<nat> {
    set x | x in m && x < s
  }

  ghost function Over(m: set<nat>, s: nat): set<nat> {
    set x | x in m && x > s
  }

  /** Without any one of the segments of m, not even all the larger segments of d make up for it. */
  ghost predicate IsLast(p: Problem, g: nat, d: set<nat>, m: set<nat>) {
    && m <= d && g in p.closure(m)
    && forall s :: s in m ==> g !in p.closure(Under(m, s) + Over(d, s))
  }

  ghost predicate NoneSpared(p: Problem, g: nat, d: set<nat>, m: set<nat>) {
    forall s :: s in m ==> g !in p.closure(Under(m, s) + Over(d, s))
  }

  /** The segments that were not looked at yet are the largest. */
  ghost predicate InOrder(d: set<nat>, kept: set<nat>, rest: set<nat>) {
    && kept + rest <= d && kept !! rest
    && forall x, y :: x in d && x !in rest && y in rest ==> x < y
  }

  lemma Around(d: set<nat>, kept: set<nat>, rest: set<nat>)
    requires InOrder(d, kept, rest) && rest != {}
    ensures var s := Min(rest);
            && Under(kept + {s}, s) == kept && Over(d, s) == rest - {s}
            && (forall t :: t in kept ==> Under(kept + {s}, t) == Under(kept, t))
            && InOrder(d, kept, rest - {s}) && InOrder(d, kept + {s}, rest - {s})
  {
    var s := Min(rest);
    forall x | x in kept + {s} ensures x in kept <==> x < s {
    }
    forall x | x in d ensures x > s <==> x in rest - {s} {
    }
  }

  lemma {:induction false} KeptIsLast(p: Problem, g: nat, d: set<nat>, kept: set<nat>, rest: set<nat>)
    requires g in p.closure(kept + rest) && InOrder(d, kept, rest) && NoneSpared(p, g, d, kept)
    ensures IsLast(p, g, d, Kept(p, g, kept, rest))
    decreases |rest|
  {
    if rest == {} {
      assert kept + rest == kept;
    } else {
      hide InOrder, Under, Over;
      var s := Min(rest);
      Around(d, kept, rest);
      assert kept + rest - {s} == kept + (rest - {s}) by {
        KeptApart(d, kept, rest);
      }
      if g in p.closure(kept + rest - {s}) {
        KeptIsLast(p, g, d, kept, rest - {s});
      } else {
        assert kept + {s} + (rest - {s}) == kept + rest;
        KeptIsLast(p, g, d, kept + {s}, rest - {s});
      }
    }
  }

  lemma KeptApart(d: set<nat>, kept: set<nat>, rest: set<nat>)
    requires InOrder(d, kept, rest)
    ensures kept !! rest && kept + rest <= d
  {
  }

  /** There is only one such set, so it does not depend on how it is found. */
  lemma LastUnique(p: Problem, g: nat, d: set<nat>, m: set<nat>, n: set<nat>)
    requires Monotone(p.closure) && IsLast(p, g, d, m) && IsLast(p, g, d, n)
    ensures m == n
  {
    if m != n {
      var differ := (m - n) + (n - m);
      assert differ != {} by {
        assert forall x :: x in m && x !in n ==> x in differ;
        assert forall x :: x in n && x !in m ==> x in differ;
      }
      var s := Min(differ);
      if s in m {
        SmallestDiffers(p, g, d, m, n, s);
      } else {
        SmallestDiffers(p, g, d, n, m, s);
      }
    }
  }

  /** The smallest segment that only one of the sets has is not needed there. */
  lemma SmallestDiffers(p: Problem, g: nat, d: set<nat>, m: set<nat>, n: set<nat>, s: nat)
    requires Monotone(p.closure) && n <= d && g in p.closure(n) && s !in n
    requires forall x :: x < s && x in n ==> x in m
    ensures g in p.closure(Under(m, s) + Over(d, s))
  {
    assert n <= Under(m, s) + Over(d, s);
  }

  /** What is found in one go, from the segments that are not excluded. */
  lemma KeptFromAll(p: Problem, g: nat, full: set<nat>)
    requires Monotone(p.closure) && Analysable(p, g) && g in p.closure(p.all - full)
    ensures var d := (p.all - full) * p.inscope;
            IsLast(p, g, d, Kept(p, g, {}, d)) && MinimalActivating(p, Kept(p, g, {}, d), g) && Kept(p, g, {}, d) != {}
  {
    var d := (p.all - full) * p.inscope;
    assert {} + d == d;
    KeptIsLast(p, g, d, {}, d);
    var m := Kept(p, g, {}, d);
    forall s | s in m ensures g !in p.closure(m - {s}) {
      assert m - {s} <= Under(m, s) + Over(d, s);
    }
  }

  // ---------- the answer for a glyph ----------

  /** Some glyph with this condition is also activated without it. */
  ghost predicate NeedsMore(p: Problem, existing: map<nat, set<nat>>, condition: set<nat>) {
    exists h :: h in existing && existing[h] == condition && h in p.closure(p.all - condition)
  }

  /** The search leaves the existing condition out if that is not enough for all the glyphs that have it. */
  ghost function Start(p: Problem, existing: map<nat, set<nat>>, g: nat): set<nat> {
    if g in existing && NeedsMore(p, existing, existing[g]) then existing[g] else {}
  }

  ghost function Known(found: map<nat, set<nat>>, g: nat): set<nat> {
    if g in found then found[g] else {}
  }

  ghost function Answer(p: Problem, existing: map<nat, set<nat>>, g: nat): set<nat> {
    Known(existing, g) + Search(p, g, Start(p, existing, g))
  }

  // ---------- the tasks work towards the answers ----------

  /** What the task, and those that follow it, exclude in the end. */
  ghost function Future(p: Problem, g: nat, t: Task): set<nat> {
    Search(p, g, t.fullCondition + Kept(p, g, t.subCondition, t.toBeTested))
  }

  ghost predicate OnCourse(p: Problem, existing: map<nat, set<nat>>, found: map<nat, set<nat>>, t: Task, g: nat) {
    Answer(p, existing, g) == Known(found, g) + Future(p, g, t)
  }

  ghost predicate TaskOnCourse(p: Problem, existing: map<nat, set<nat>>, found: map<nat, set<nat>>, t: Task) {
    forall g :: g in t.glyphs ==> OnCourse(p, existing, found, t, g)
  }

  ghost predicate Answered(p: Problem, existing: map<nat, set<nat>>, found: map<nat, set<nat>>, g: nat) {
    g in found && found[g] == Answer(p, existing, g)
  }

  /** No glyph is in two tasks. */
  ghost predicate Apart(queue: seq<Task>) {
    forall i, j :: 0 <= i < j < |queue| ==> queue[i].glyphs !! queue[j].glyphs
  }

  /** Each glyph has its answer or is in exactly one task, which works towards it. */
  ghost predicate Exact(p: Problem, existing: map<nat, set<nat>>, glyphs: set<nat>, found: map<nat, set<nat>>, queue: seq<Task>) {
    && (forall t :: t in queue ==> TaskOnCourse(p, existing, found, t))
    && Apart(queue)
    && forall g :: g in glyphs ==> Waiting(queue, g) || Answered(p, existing, found, g)
  }

  lemma FutureFromStart(p: Problem, g: nat, full: set<nat>, t: Task)
    requires g in p.closure(p.all - full) && t.fullCondition == full && t.subCondition == {} && t.toBeTested == (p.all - full) * p.inscope
    ensures Future(p, g, t) == Search(p, g, full)
  {
    var m := Kept(p, g, {}, (p.all - full) * p.inscope);
    if m <= full {
      assert full + m == full;
    }
  }

  lemma TestKeepsCourse(p: Problem, existing: map<nat, set<nat>>, found: map<nat, set<nat>>, t: Task, tested: nat)
    requires t.toBeTested != {} && tested == Min(t.toBeTested) && TaskOnCourse(p, existing, found, t)
    ensures var closure := p.closure(t.Definition() - {tested});
            && TaskOnCourse(p, existing, found, SubTask(t, t.glyphs * closure, tested, false))
            && TaskOnCourse(p, existing, found, SubTask(t, t.glyphs - closure, tested, true))
  {
    var closure := p.closure(t.Definition() - {tested});
    var without, with := SubTask(t, t.glyphs * closure, tested, false), SubTask(t, t.glyphs - closure, tested, true);
    forall g | g in without.glyphs ensures OnCourse(p, existing, found, without, g) {
      assert OnCourse(p, existing, found, t, g);
      assert Future(p, g, without) == Future(p, g, t);
    }
    forall g | g in with.glyphs ensures OnCourse(p, existing, found, with, g) {
      assert OnCourse(p, existing, found, t, g);
      assert Future(p, g, with) == Future(p, g, t);
    }
  }

  lemma ExactSplit(p: Problem, existing: map<nat, set<nat>>, glyphs: set<nat>, found: map<nat, set<nat>>, queue: seq<Task>, t: Task, a: Task, b: Task)
    requires Exact(p, existing, glyphs, found, queue + [t]) && TaskOnCourse(p, existing, found, a) && TaskOnCourse(p, existing, found, b)
    requires a.glyphs + b.glyphs == t.glyphs && a.glyphs !! b.glyphs
    ensures Exact(p, existing, glyphs, found, queue + [a] + [b])
  {
    hide TaskOnCourse, Answered, Waiting;
    var before, after := queue + [t], queue + [a] + [b];
    forall u | u in after ensures TaskOnCourse(p, existing, found, u) {
      if u in queue {
        assert u in before;
      }
    }
    assert before[|queue|] == t && forall i :: 0 <= i < |queue| ==> before[i] == queue[i] == after[i];
    forall g | g in glyphs && Waiting(before, g) ensures Waiting(after, g) {
      WaitingSplit(queue, t, a, b, g);
    }
  }

  lemma ExactDropEmpty(p: Problem, existing: map<nat, set<nat>>, glyphs: set<nat>, found: map<nat, set<nat>>, queue: seq<Task>, t: Task)
    requires Exact(p, existing, glyphs, found, queue + [t]) && t.glyphs == {}
    ensures Exact(p, existing, glyphs, found, queue)
  {
    hide TaskOnCourse, Answered;
    var before := queue + [t];
    assert forall i :: 0 <= i < |queue| ==> before[i] == queue[i];
    forall u | u in queue ensures TaskOnCourse(p, existing, found, u) {
      assert u in before;
    }
    forall g | g in glyphs && Waiting(before, g) ensures Waiting(queue, g) {
      var i :| 0 <= i < |before| && g in before[i].glyphs;
      assert queue[i] == before[i];
    }
  }

  /** After a record, the glyphs that something else activates are on course in the next task, the others have their answer. */
  lemma RecordKeepsCourse(p: Problem, existing: map<nat, set<nat>>, found: map<nat, set<nat>>, found': map<nat, set<nat>>, t: Task, g: nat)
    requires t.toBeTested == {} && g in t.glyphs && OnCourse(p, existing, found, t, g) && Excluded(found, t, g)
    requires Recorded(found, found', t.glyphs, t.subCondition)
    ensures if g in NextTask(p, t).glyphs then OnCourse(p, existing, found', NextTask(p, t), g) else Answered(p, existing, found', g)
  {
    var full := t.fullCondition + t.subCondition;
    assert Future(p, g, t) == Search(p, g, full);
    SearchGrows(p, g, full);
    assert t.fullCondition <= Known(found, g) || t.fullCondition == {};
    assert Known(found', g) == Known(found, g) + t.subCondition;
    if g in NextTask(p, t).glyphs {
      FutureFromStart(p, g, full, NextTask(p, t));
    }
  }

  lemma OthersKeepCourse(p: Problem, existing: map<nat, set<nat>>, found: map<nat, set<nat>>, found': map<nat, set<nat>>, glyphs: set<nat>,
                         segments: set<nat>, u: Task)
    requires TaskOnCourse(p, existing, found, u) && Recorded(found, found', glyphs, segments) && u.glyphs !! glyphs
    ensures TaskOnCourse(p, existing, found', u)
  {
    hide Answer, Future;
    forall g | g in u.glyphs ensures OnCourse(p, existing, found', u, g) {
      assert OnCourse(p, existing, found, u, g);
      assert Known(found', g) == Known(found, g);
    }
  }

  lemma ExactRecord(p: Problem, existing: map<nat, set<nat>>, glyphs: set<nat>, found: map<nat, set<nat>>, found': map<nat, set<nat>>,
                    queue: seq<Task>, t: Task)
    requires Exact(p, existing, glyphs, found, queue + [t]) && t.toBeTested == {} && TaskOk(p, found, t)
    requires Recorded(found, found', t.glyphs, t.subCondition)
    ensures Exact(p, existing, glyphs, found', queue + [NextTask(p, t)])
  {
    hide Answer, Future, Needed, Analysable;
    var n := NextTask(p, t);
    var before, after := queue + [t], queue + [n];
    assert before[|queue|] == t && forall i :: 0 <= i < |queue| ==> before[i] == queue[i] == after[i];
    assert t in before;
    forall g | g in t.glyphs
      ensures if g in n.glyphs then OnCourse(p, existing, found', n, g) else Answered(p, existing, found', g)
    {
      RecordKeepsCourse(p, existing, found, found', t, g);
    }
    forall i | 0 <= i < |queue| ensures TaskOnCourse(p, existing, found', queue[i]) {
      assert before[i] in before && before[i].glyphs !! before[|queue|].glyphs;
      OthersKeepCourse(p, existing, found, found', t.glyphs, t.subCondition, queue[i]);
    }
    forall g | g in glyphs ensures Waiting(after, g) || Answered(p, existing, found', g) {
      AnsweredOrWaiting(p, existing, found, found', queue, t, g);
    }
  }

  lemma AnsweredOrWaiting(p: Problem, existing: map<nat, set<nat>>, found: map<nat, set<nat>>, found': map<nat, set<nat>>, queue: seq<Task>, t: Task, g: nat)
    requires Waiting(queue + [t], g) || Answered(p, existing, found, g)
    requires Recorded(found, found', t.glyphs, t.subCondition)
    requires g in t.glyphs && g !in NextTask(p, t).glyphs ==> Answered(p, existing, found', g)
    ensures Waiting(queue + [NextTask(p, t)], g) || Answered(p, existing, found', g)
  {
    hide Answer;
    if g in t.glyphs {
      if g in NextTask(p, t).glyphs {
        assert (queue + [NextTask(p, t)])[|queue|] == NextTask(p, t);
      }
    } else if Waiting(queue + [t], g) {
      WaitingReplaced(queue, t, NextTask(p, t), g);
    } else {
      assert found'[g] == found[g] + {};
    }
  }

  // ---------- the first tasks ----------

  /** The conditions `rest` have no task yet; the glyphs that are left come last. */
  ghost predicate Starting(p: Problem, existing: map<nat, set<nat>>, glyphs: set<nat>, queue: seq<Task>, left: set<nat>, rest: set<set<nat>>) {
    && (forall t :: t in queue ==> TaskOnCourse(p, existing, existing, t) && t.glyphs !! left)
    && (forall t, g :: t in queue && g in t.glyphs ==> g in existing && existing[g] !in rest)
    && Apart(queue)
    && (forall g :: g in glyphs ==> g in left || Waiting(queue, g) || Answered(p, existing, existing, g))
    && forall g :: g in left ==> g in existing ==> existing[g] in rest || !NeedsMore(p, existing, existing[g])
  }

  lemma NothingStarted(p: Problem, existing: map<nat, set<nat>>, glyphs: set<nat>, rest: set<set<nat>>)
    requires forall g :: g in existing ==> existing[g] in rest
    ensures Starting(p, existing, glyphs, [], glyphs, rest)
  {
  }

  /** The group of a condition that is not left out stays. */
  lemma StartNone(p: Problem, existing: map<nat, set<nat>>, glyphs: set<nat>, queue: seq<Task>, left: set<nat>, rest: set<set<nat>>, condition: set<nat>)
    requires Starting(p, existing, glyphs, queue, left, rest) && !NeedsMore(p, existing, condition)
    ensures Starting(p, existing, glyphs, queue, left, rest - {condition})
  {
    hide TaskOnCourse, Waiting, Answered;
  }

  /** Alone and with its condition left out, a glyph of the group is on course or already done. */
  lemma GroupOnCourse(p: Problem, existing: map<nat, set<nat>>, g: nat, condition: set<nat>, t: Task)
    requires g in existing && existing[g] == condition && NeedsMore(p, existing, condition)
    requires t.fullCondition == condition && t.subCondition == {} && t.toBeTested == (p.all - condition) * p.inscope
    ensures if g in p.closure(p.all - condition) then OnCourse(p, existing, existing, t, g) else Answered(p, existing, existing, g)
  {
    if g in p.closure(p.all - condition) {
      FutureFromStart(p, g, condition, t);
    }
  }

  lemma StartOne(p: Problem, existing: map<nat, set<nat>>, glyphs: set<nat>, queue: seq<Task>, left: set<nat>, rest: set<set<nat>>,
                 condition: set<nat>, group: set<nat>)
    requires Starting(p, existing, glyphs, queue, left, rest) && condition in rest && NeedsMore(p, existing, condition)
    requires forall g :: g in group <==> g in existing && existing[g] == condition
    ensures var t := Task(condition, {}, (p.all - condition) * p.inscope, p.closure(p.all - condition) * group);
            Starting(p, existing, glyphs, queue + [t], left - group, rest - {condition})
  {
    hide Answer, Future, NeedsMore;
    var t := Task(condition, {}, (p.all - condition) * p.inscope, p.closure(p.all - condition) * group);
    var after := queue + [t];
    assert after[|queue|] == t && forall i :: 0 <= i < |queue| ==> after[i] == queue[i] && queue[i] in queue;
    forall g | g in group
      ensures if g in t.glyphs then OnCourse(p, existing, existing, t, g) else Answered(p, existing, existing, g)
    {
      GroupOnCourse(p, existing, g, condition, t);
    }
    forall g | g in glyphs ensures g in left - group || Waiting(after, g) || Answered(p, existing, existing, g) {
      if Waiting(queue, g) {
        var i :| 0 <= i < |queue| && g in queue[i].glyphs;
        assert g in after[i].glyphs;
      } else if g in t.glyphs {
        assert g in after[|queue|].glyphs;
      }
    }
  }

  lemma StartedAll(p: Problem, existing: map<nat, set<nat>>, glyphs: set<nat>, queue: seq<Task>)
    requires Starting(p, existing, glyphs, queue, {}, {})
    ensures Exact(p, existing, glyphs, existing, queue)
  {
    hide TaskOnCourse, Waiting, Answered;
  }

  /** The glyphs that are left are searched from the start. */
  lemma StartRest(p: Problem, existing: map<nat, set<nat>>, glyphs: set<nat>, queue: seq<Task>, left: set<nat>)
    requires Starting(p, existing, glyphs, queue, left, {}) && left <= p.closure(p.all)
    ensures Exact(p, existing, glyphs, existing, queue + [Task({}, {}, p.all * p.inscope, left)])
  {
    hide Future, NeedsMore, Waiting, Search;
    var t := Task({}, {}, p.all * p.inscope, left);
    var after := queue + [t];
    assert after[|queue|] == t && forall i :: 0 <= i < |queue| ==> after[i] == queue[i] && queue[i] in queue;
    assert p.all - {} == p.all;
    forall g | g in left ensures OnCourse(p, existing, existing, t, g) {
      FutureFromStart(p, g, {}, t);
    }
    forall g | g in glyphs ensures Waiting(after, g) || Answered(p, existing, existing, g) {
      StillWaiting(queue, t, g);
    }
  }

  lemma StillWaiting(queue: seq<Task>, t: Task, g: nat)
    ensures Waiting(queue + [t], g) <==> Waiting(queue, g) || g in t.glyphs
  {
    var after := queue + [t];
    assert after[|queue|] == t && forall i :: 0 <= i < |queue| ==> after[i] == queue[i];
    if Waiting(queue, g) {
      var i :| 0 <= i < |queue| && g in queue[i].glyphs;
      assert g in after[i].glyphs;
    }
  }

  /** With an empty queue every glyph has its answer. */
  lemma AllAnswered(p: Problem, existing: map<nat, set<nat>>, glyphs: set<nat>, found: map<nat, set<nat>>)
    requires Exact(p, existing, glyphs, found, [])
    ensures forall g :: g in glyphs ==> g in found && found[g] == Answer(p, existing, g)
  {
    hide Answer;
    forall g | g in glyphs ensures Answered(p, existing, found, g) {
      assert !Waiting([], g);
    }
  }
}
