/** Tasks of the complex condition finder, and what holds of them at every step. */
module FinderTasks {
  import opened IntSets

  /** The glyphs that become available with some segments. */
  type Closure = set<nat> -> set<nat>

  ghost predicate Monotone(closure: Closure) {
    forall a, b :: a <= b ==> closure(a) <= closure(b)
  }

  /** What is to be analysed: the oracle, the segments there are, and those that can matter. */
  datatype Problem = Problem(closure: Closure, all: set<nat>, inscope: set<nat>)
  {
    function Scope(): set<nat> {
      all * inscope
    }
  }

  /** Segments out of scope never make a difference for the glyph, and it is not available from the start. */
  ghost predicate Analysable(p: Problem, g: nat) {
    && g !in p.closure({})
    && forall active :: active <= p.all ==> (g in p.closure(active) <==> g in p.closure(active * p.inscope))
  }

  /** No segment of the set can be left out. */
  ghost predicate MinimalActivating(p: Problem, m: set<nat>, g: nat) {
    m <= p.Scope() && g in p.closure(m) && forall s :: s in m ==> g !in p.closure(m - {s})
  }

  lemma MinimalHasNoSmaller(p: Problem, m: set<nat>, n: set<nat>, g: nat)
    requires Monotone(p.closure) && MinimalActivating(p, m, g) && n <= m && g in p.closure(n)
    ensures n == m
  {
    forall s | s in m ensures s in n {
      assert s in n || n <= m - {s};
    }
  }

  /** The condition meets every set of segments that activates the glyph. */
  ghost predicate HitsAll(p: Problem, condition: set<nat>, g: nat) {
    forall active :: active <= p.all && g in p.closure(active) ==> active * condition != {}
  }

  datatype Task = Task(fullCondition: set<nat>, subCondition: set<nat>, toBeTested: set<nat>, glyphs: set<nat>)
  {
    /** The segments of the subset definition. */
    function Definition(): set<nat> {
      subCondition + toBeTested
    }
  }

  /** What the segments found so far are for: nothing but earlier conditions and minimal sets. */
  ghost predicate Justified(p: Problem, existing: map<nat, set<nat>>, g: nat, s: nat) {
    || (g in existing && s in existing[g])
    || exists m :: s in m && MinimalActivating(p, m, g)
  }

  ghost predicate Needed(p: Problem, t: Task, g: nat) {
    && g in p.closure(t.Definition())
    && forall s :: s in t.subCondition ==> g !in p.closure(t.Definition() - {s})
  }

  ghost predicate Excluded(found: map<nat, set<nat>>, t: Task, g: nat) {
    forall s :: s in t.fullCondition ==> g in found && s in found[g]
  }

  ghost predicate TaskOk(p: Problem, found: map<nat, set<nat>>, t: Task) {
    && t.Definition() <= p.Scope() - t.fullCondition && t.subCondition !! t.toBeTested
    && forall g :: g in t.glyphs ==> Analysable(p, g) && Needed(p, t, g) && Excluded(found, t, g)
  }

  ghost predicate Waiting(queue: seq<Task>, g: nat) {
    exists i :: 0 <= i < |queue| && g in queue[i].glyphs
  }

  ghost predicate Settled(p: Problem, found: map<nat, set<nat>>, g: nat) {
    g in found && HitsAll(p, found[g], g)
  }

  ghost predicate AllJustified(p: Problem, existing: map<nat, set<nat>>, found: map<nat, set<nat>>) {
    forall g, s :: g in found && s in found[g] ==> Justified(p, existing, g, s)
  }

  ghost predicate Inv(p: Problem, existing: map<nat, set<nat>>, glyphs: set<nat>, found: map<nat, set<nat>>, queue: seq<Task>) {
    && (forall t :: t in queue ==> TaskOk(p, found, t) && t.glyphs <= glyphs)
    && (forall g :: g in glyphs ==> Settled(p, found, g) || Waiting(queue, g))
    && AllJustified(p, existing, found)
    && existing.Keys <= found.Keys <= glyphs
  }

  // ---------- testing one segment ----------

  function SubTask(t: Task, glyphs: set<nat>, tested: nat, keep: bool): Task {
    Task(t.fullCondition, if keep then t.subCondition + {tested} else t.subCondition, t.toBeTested - {tested}, glyphs)
  }

  /** Glyphs that the closure without the segment still has do not need it; the others do. */
  lemma TestedTasksOk(p: Problem, found: map<nat, set<nat>>, t: Task, tested: nat)
    requires Monotone(p.closure) && TaskOk(p, found, t) && tested in t.toBeTested
    ensures var closure := p.closure(t.Definition() - {tested});
            && TaskOk(p, found, SubTask(t, t.glyphs * closure, tested, false))
            && TaskOk(p, found, SubTask(t, t.glyphs - closure, tested, true))
  {
    hide Analysable;
    var closure := p.closure(t.Definition() - {tested});
    var without, with := SubTask(t, t.glyphs * closure, tested, false), SubTask(t, t.glyphs - closure, tested, true);
    assert without.Definition() == t.Definition() - {tested};
    assert with.Definition() == t.Definition();
    forall g | g in without.glyphs ensures Needed(p, without, g) && Excluded(found, without, g) {
      assert Needed(p, t, g) && Excluded(found, t, g);
      forall s | s in without.subCondition ensures g !in p.closure(without.Definition() - {s}) {
        assert without.Definition() - {s} <= t.Definition() - {s};
      }
    }
    forall g | g in with.glyphs ensures Needed(p, with, g) && Excluded(found, with, g) {
      assert Needed(p, t, g) && Excluded(found, t, g);
    }
  }

  lemma WaitingSplit(queue: seq<Task>, t: Task, a: Task, b: Task, g: nat)
    requires a.glyphs + b.glyphs == t.glyphs && Waiting(queue + [t], g)
    ensures Waiting(queue + [a] + [b], g)
  {
    var i :| 0 <= i < |queue| + 1 && g in (queue + [t])[i].glyphs;
    var r := queue + [a] + [b];
    if i < |queue| {
      assert r[i] == queue[i];
    } else {
      assert r[|queue|] == a && r[|queue| + 1] == b;
    }
  }

  lemma InvSplit(p: Problem, existing: map<nat, set<nat>>, glyphs: set<nat>, found: map<nat, set<nat>>, queue: seq<Task>, t: Task, a: Task, b: Task)
    requires Inv(p, existing, glyphs, found, queue + [t]) && TaskOk(p, found, a) && TaskOk(p, found, b)
    requires a.glyphs + b.glyphs == t.glyphs
    ensures Inv(p, existing, glyphs, found, queue + [a] + [b])
  {
    hide TaskOk, Settled, Waiting, AllJustified;
    assert t in queue + [t];
    forall u | u in queue + [a] + [b] ensures TaskOk(p, found, u) && u.glyphs <= glyphs {
      if u in queue {
        assert u in queue + [t];
      }
    }
    forall g | g in glyphs ensures Settled(p, found, g) || Waiting(queue + [a] + [b], g) {
      if Waiting(queue + [t], g) {
        WaitingSplit(queue, t, a, b, g);
      }
    }
  }

  lemma InvDropEmpty(p: Problem, existing: map<nat, set<nat>>, glyphs: set<nat>, found: map<nat, set<nat>>, queue: seq<Task>, t: Task)
    requires Inv(p, existing, glyphs, found, queue + [t]) && t.glyphs == {}
    ensures Inv(p, existing, glyphs, found, queue)
  {
    hide TaskOk, Settled, AllJustified;
    forall u | u in queue ensures TaskOk(p, found, u) && u.glyphs <= glyphs {
      assert u in queue + [t];
    }
    forall g | g in glyphs && Waiting(queue + [t], g) ensures Waiting(queue, g) {
      var i :| 0 <= i < |queue| + 1 && g in (queue + [t])[i].glyphs;
      assert queue[i] == (queue + [t])[i];
    }
  }

  // ---------- recording a sub condition ----------

  /** The conditions found, with more segments for some glyphs. */
  ghost predicate Recorded(found: map<nat, set<nat>>, found': map<nat, set<nat>>, glyphs: set<nat>, segments: set<nat>) {
    && found'.Keys == found.Keys + glyphs
    && forall g :: g in found' ==> found'[g] == (if g in found then found[g] else {}) + (if g in glyphs then segments else {})
  }

  /** With nothing left to test, what was kept is a minimal activating set for each glyph. */
  lemma SubConditionMinimal(p: Problem, found: map<nat, set<nat>>, t: Task, g: nat)
    requires TaskOk(p, found, t) && t.toBeTested == {} && g in t.glyphs
    ensures MinimalActivating(p, t.subCondition, g) && t.subCondition != {}
  {
    assert t.Definition() == t.subCondition;
    assert Analysable(p, g) && Needed(p, t, g);
  }

  lemma RecordedJustified(p: Problem, existing: map<nat, set<nat>>, found: map<nat, set<nat>>, found': map<nat, set<nat>>, t: Task)
    requires AllJustified(p, existing, found) && TaskOk(p, found, t) && t.toBeTested == {}
    requires Recorded(found, found', t.glyphs, t.subCondition)
    ensures AllJustified(p, existing, found')
  {
    hide TaskOk, MinimalActivating;
    forall g, s | g in found' && s in found'[g] ensures Justified(p, existing, g, s) {
      if g in found && s in found[g] {
        assert Justified(p, existing, g, s);
      } else {
        SubConditionMinimal(p, found, t, g);
      }
    }
  }

  lemma RecordedKeeps(p: Problem, found: map<nat, set<nat>>, found': map<nat, set<nat>>, glyphs: set<nat>, segments: set<nat>, u: Task)
    requires Recorded(found, found', glyphs, segments) && TaskOk(p, found, u)
    ensures TaskOk(p, found', u)
  {
    hide Analysable, Needed;
    forall g | g in u.glyphs ensures Excluded(found', u, g) {
      assert Excluded(found, u, g);
    }
  }

  lemma RecordedSettled(p: Problem, found: map<nat, set<nat>>, found': map<nat, set<nat>>, glyphs: set<nat>, segments: set<nat>, g: nat)
    requires Recorded(found, found', glyphs, segments) && Settled(p, found, g)
    ensures Settled(p, found', g)
  {
    forall active | active <= p.all && g in p.closure(active) ensures active * found'[g] != {} {
      assert active * found[g] <= active * found'[g];
    }
  }

  /** The next task excludes all that has been found, for the glyphs that something else still activates. */
  function NextTask(p: Problem, t: Task): Task {
    var full := t.fullCondition + t.subCondition;
    Task(full, {}, (p.all - full) * p.inscope, p.closure(p.all - full) * t.glyphs)
  }

  lemma NextTaskOk(p: Problem, found: map<nat, set<nat>>, found': map<nat, set<nat>>, t: Task)
    requires Monotone(p.closure) && TaskOk(p, found, t) && t.toBeTested == {} && Recorded(found, found', t.glyphs, t.subCondition)
    ensures TaskOk(p, found', NextTask(p, t))
    ensures NextTask(p, t).glyphs != {} ==> NextTask(p, t).toBeTested != {}
  {
    var n := NextTask(p, t);
    var full := t.fullCondition + t.subCondition;
    assert n.Definition() == (p.all - full) * p.inscope;
    forall g | g in n.glyphs ensures Analysable(p, g) && Needed(p, n, g) && Excluded(found', n, g) && n.toBeTested != {} {
      assert Analysable(p, g) && Excluded(found, t, g);
      assert g in p.closure((p.all - full) * p.inscope);
    }
  }

  /** A glyph that nothing else activates is settled. */
  lemma SettledNow(p: Problem, found: map<nat, set<nat>>, found': map<nat, set<nat>>, t: Task, g: nat)
    requires Monotone(p.closure) && TaskOk(p, found, t) && Recorded(found, found', t.glyphs, t.subCondition)
    requires g in t.glyphs && g !in NextTask(p, t).glyphs
    ensures Settled(p, found', g)
  {
    var full := t.fullCondition + t.subCondition;
    assert Excluded(found, t, g);
    ExcludedSettles(p, full, found'[g], g);
  }

  lemma ExcludedSettles(p: Problem, excluded: set<nat>, condition: set<nat>, g: nat)
    requires Monotone(p.closure) && excluded <= condition && g !in p.closure(p.all - excluded)
    ensures HitsAll(p, condition, g)
  {
    forall active | active <= p.all && g in p.closure(active) ensures active * condition != {} {
      var met := active * excluded;
      assert met <= active * condition;
      assert met != {} || active <= p.all - excluded by {
        assert forall x :: x in active && x in excluded ==> x in met;
      }
    }
  }

  lemma InvRecord(p: Problem, existing: map<nat, set<nat>>, glyphs: set<nat>, found: map<nat, set<nat>>, found': map<nat, set<nat>>, queue: seq<Task>, t: Task)
    requires Monotone(p.closure) && Inv(p, existing, glyphs, found, queue + [t]) && t.toBeTested == {}
    requires Recorded(found, found', t.glyphs, t.subCondition)
    ensures Inv(p, existing, glyphs, found', queue + [NextTask(p, t)])
    ensures NextTask(p, t).glyphs != {} ==> NextTask(p, t).toBeTested != {}
  {
    hide TaskOk, Settled, Waiting, AllJustified;
    assert t in queue + [t];
    var n := NextTask(p, t);
    NextTaskOk(p, found, found', t);
    RecordedJustified(p, existing, found, found', t);
    forall u | u in queue + [n] ensures TaskOk(p, found', u) && u.glyphs <= glyphs {
      if u in queue {
        assert u in queue + [t];
        RecordedKeeps(p, found, found', t.glyphs, t.subCondition, u);
      }
    }
    forall g | g in glyphs ensures Settled(p, found', g) || Waiting(queue + [n], g) {
      if Settled(p, found, g) {
        RecordedSettled(p, found, found', t.glyphs, t.subCondition, g);
      } else {
        if g in t.glyphs && g !in n.glyphs {
          SettledNow(p, found, found', t, g);
        } else {
          WaitingReplaced(queue, t, n, g);
        }
      }
    }
  }

  lemma WaitingReplaced(queue: seq<Task>, t: Task, n: Task, g: nat)
    requires Waiting(queue + [t], g) && (g in t.glyphs ==> g in n.glyphs)
    ensures Waiting(queue + [n], g)
  {
    var i :| 0 <= i < |queue| + 1 && g in (queue + [t])[i].glyphs;
    assert (queue + [n])[i] == if i < |queue| then queue[i] else n;
  }

  /** With an empty queue the search is over. */
  lemma QueueEmpty(p: Problem, existing: map<nat, set<nat>>, glyphs: set<nat>, found: map<nat, set<nat>>)
    requires Inv(p, existing, glyphs, found, [])
    ensures forall g :: g in glyphs ==> g in found && HitsAll(p, found[g], g)
    ensures found.Keys == glyphs && AllJustified(p, existing, found)
  {
    forall g | g in glyphs ensures g in found && HitsAll(p, found[g], g) {
      assert Settled(p, found, g);
    }
  }

  // ---------- the search comes to an end ----------

  /** How much work a task can at most lead to. */
  ghost function Work(rest: nat, untested: nat, most: nat): (w: nat)
    ensures w > 0
    decreases rest, untested
  {
    if untested > 0 then 2 * Work(rest, untested - 1, most) + 1
    else if rest > 0 then Work(rest - 1, most, most) + 1
    else 1
  }

  lemma {:induction false} MoreUntested(rest: nat, a: nat, b: nat, most: nat)
    requires a <= b
    ensures Work(rest, a, most) <= Work(rest, b, most)
    decreases b
  {
    if a < b {
      MoreUntested(rest, a, b - 1, most);
    }
  }

  lemma {:induction false} LessRest(rest: nat, rest': nat, untested: nat, most: nat)
    requires rest' < rest && untested <= most
    ensures Work(rest', untested, most) < Work(rest, 0, most)
    decreases rest
  {
    MoreUntested(rest', untested, most, most);
    if rest' < rest - 1 {
      LessRest(rest - 1, rest', untested, most);
      MoreUntested(rest - 1, 0, most, most);
    }
  }

  ghost function TaskWork(p: Problem, t: Task): nat {
    Work(|p.all - t.fullCondition|, |t.toBeTested|, |p.all|)
  }

  ghost function QueueWork(p: Problem, queue: seq<Task>): nat {
    if queue == [] then 0 else QueueWork(p, queue[..|queue| - 1]) + TaskWork(p, queue[|queue| - 1])
  }

  lemma QueueWorkPush(p: Problem, queue: seq<Task>, t: Task)
    ensures QueueWork(p, queue + [t]) == QueueWork(p, queue) + TaskWork(p, t)
  {
    assert (queue + [t])[..|queue|] == queue;
  }

  lemma TestingIsLessWork(p: Problem, queue: seq<Task>, t: Task, a: Task, b: Task, tested: nat)
    requires tested in t.toBeTested && a.fullCondition == b.fullCondition == t.fullCondition
    requires a.toBeTested == b.toBeTested == t.toBeTested - {tested}
    ensures QueueWork(p, queue + [a] + [b]) < QueueWork(p, queue + [t])
  {
    QueueWorkPush(p, queue, t);
    QueueWorkPush(p, queue, a);
    QueueWorkPush(p, queue + [a], b);
    assert |t.toBeTested - {tested}| == |t.toBeTested| - 1;
  }

  lemma RecordingIsLessWork(p: Problem, found: map<nat, set<nat>>, queue: seq<Task>, t: Task)
    requires TaskOk(p, found, t) && t.toBeTested == {} && t.glyphs != {}
    ensures QueueWork(p, queue + [NextTask(p, t)]) < QueueWork(p, queue + [t])
  {
    var n := NextTask(p, t);
    var g :| g in t.glyphs;
    SubConditionMinimal(p, found, t, g);
    var s :| s in t.subCondition;
    assert s in t.Definition();
    assert s in p.all - t.fullCondition && s !in p.all - n.fullCondition;
    SubsetSize(p.all - n.fullCondition, p.all - t.fullCondition);
    SubsetSize(n.toBeTested, p.all);
    LessRest(|p.all - t.fullCondition|, |p.all - n.fullCondition|, |n.toBeTested|, |p.all|);
    QueueWorkPush(p, queue, t);
    QueueWorkPush(p, queue, n);
  }
}
