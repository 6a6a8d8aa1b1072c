/** Finding, for each glyph, segments at least one of which is active whenever the glyph is needed. */
module ComplexConditionFinder {
  import opened IntSets
  import opened ActivationConditions
  import opened FinderAnswers
  import opened FinderTasks

  datatype Status = OkStatus | InvalidArgument | InternalError

  /** The disjunctive conditions known already, by condition and by glyph. */
  ghost predicate IsExisting(conditionsFor: nat -> ActivationCondition, glyphs: set<nat>, byCondition: map<set<nat>, set<nat>>, found: map<nat, set<nat>>) {
    && (forall g :: g in found <==> g in glyphs && IsDisjunctive(conditionsFor(g)))
    && (forall g :: g in found ==> found[g] == conditionsFor(g).TriggeringSegments())
    && (forall s, g :: s in byCondition && g in byCondition[s] ==> g in found && found[g] == s)
    && forall g :: g in found ==> found[g] in byCondition && g in byCondition[found[g]]
  }

  predicate IsDisjunctive(c: ActivationCondition) {
    !c.isExclusive && c.IsPurelyDisjunctive()
  }

  method ExistingConditions(conditionsFor: nat -> ActivationCondition, glyphs: set<nat>)
    returns (byCondition: map<set<nat>, set<nat>>, found: map<nat, set<nat>>)
    ensures IsExisting(conditionsFor, glyphs, byCondition, found)
  {
    byCondition, found := map[], map[];
    var rest := glyphs;
    while rest != {}
      invariant rest <= glyphs && IsExisting(conditionsFor, glyphs - rest, byCondition, found)
      decreases |rest|
    {
      var g := Min(rest);
      rest := rest - {g};
      var condition := conditionsFor(g);
      if condition.isExclusive || !condition.IsPurelyDisjunctive() {
        continue;
      }
      var segments := condition.TriggeringSegments();
      var group := if segments in byCondition then byCondition[segments] else {};
      byCondition := byCondition[segments := group + {g}];
      found := found[g := segments];
    }
    assert glyphs - rest == glyphs;
  }

  /** All glyphs can be analysed, and every set of existing conditions activates its glyphs. */
  ghost predicate ValidInput(p: Problem, initFontGlyphs: set<nat>, existing: map<nat, set<nat>>, glyphs: set<nat>) {
    && glyphs !! initFontGlyphs
    && (forall g :: g in existing ==> g in p.closure(existing[g]))
    && forall g :: g in glyphs ==> g in p.closure(p.all)
  }

  /** For these glyphs, segments out of scope make no difference. */
  ghost predicate Irrelevant(p: Problem, glyphs: set<nat>) {
    forall g, active :: g in glyphs && active <= p.all ==> (g in p.closure(active) <==> g in p.closure(active * p.inscope))
  }

  lemma InputAnalysable(p: Problem, initFontGlyphs: set<nat>, glyphs: set<nat>)
    requires glyphs !! initFontGlyphs && p.closure({}) <= initFontGlyphs && Irrelevant(p, glyphs)
    ensures forall g :: g in glyphs ==> Analysable(p, g)
  {
  }

  /** The glyphs that are left have no task yet; all others are settled or have one. */
  ghost predicate Scheduled(p: Problem, glyphs: set<nat>, found: map<nat, set<nat>>, queue: seq<Task>, left: set<nat>) {
    && (forall t :: t in queue ==> TaskOk(p, found, t) && t.glyphs <= glyphs)
    && (forall g :: g in glyphs ==> Analysable(p, g))
    && left <= glyphs && found.Keys <= glyphs
    && forall g :: g in glyphs ==> g in left || Settled(p, found, g) || Waiting(queue, g)
  }

  lemma NothingScheduled(p: Problem, glyphs: set<nat>, found: map<nat, set<nat>>)
    requires found.Keys <= glyphs && forall g :: g in glyphs ==> Analysable(p, g)
    ensures Scheduled(p, glyphs, found, [], glyphs)
  {
  }

  lemma ScheduledAnalysable(p: Problem, glyphs: set<nat>, found: map<nat, set<nat>>, queue: seq<Task>, left: set<nat>)
    requires Scheduled(p, glyphs, found, queue, left)
    ensures left <= glyphs && forall g :: g in glyphs ==> Analysable(p, g)
  {
  }

  lemma GroupOfExisting(conditionsFor: nat -> ActivationCondition, glyphs: set<nat>, byCondition: map<set<nat>, set<nat>>, found: map<nat, set<nat>>, segments: set<nat>)
    requires IsExisting(conditionsFor, glyphs, byCondition, found) && segments in byCondition
    ensures byCondition[segments] <= glyphs && forall g :: g in byCondition[segments] <==> g in found && found[g] == segments
  {
  }

  lemma ConditionsOfExisting(conditionsFor: nat -> ActivationCondition, glyphs: set<nat>, byCondition: map<set<nat>, set<nat>>, found: map<nat, set<nat>>)
    requires IsExisting(conditionsFor, glyphs, byCondition, found)
    ensures forall g :: g in found ==> found[g] in byCondition.Keys
  {
  }

  lemma GroupNeedsMore(p: Problem, existing: map<nat, set<nat>>, condition: set<nat>, group: set<nat>)
    requires forall g :: g in group <==> g in existing && existing[g] == condition
    ensures NeedsMore(p, existing, condition) <==> p.closure(p.all - condition) * group != {}
  {
    if NeedsMore(p, existing, condition) {
      var h :| h in existing && existing[h] == condition && h in p.closure(p.all - condition);
      assert h in p.closure(p.all - condition) * group;
    }
    if p.closure(p.all - condition) * group != {} {
      var h :| h in p.closure(p.all - condition) * group;
      assert h in group;
    }
  }

  lemma AllInClosure(p: Problem, conditionsFor: nat -> ActivationCondition, glyphs: set<nat>, byCondition: map<set<nat>, set<nat>>, found: map<nat, set<nat>>)
    requires IsExisting(conditionsFor, glyphs, byCondition, found) && forall s :: s in byCondition ==> byCondition[s] <= p.closure(s)
    ensures forall g :: g in found ==> g in p.closure(found[g])
  {
  }

  lemma WaitingMore(queue: seq<Task>, t: Task, g: nat)
    requires Waiting(queue, g) || g in t.glyphs
    ensures Waiting(queue + [t], g)
  {
    if g in t.glyphs {
      assert (queue + [t])[|queue|] == t;
    } else {
      var i :| 0 <= i < |queue| && g in queue[i].glyphs;
      assert (queue + [t])[i] == queue[i];
    }
  }

  lemma PushScheduled(p: Problem, glyphs: set<nat>, found: map<nat, set<nat>>, queue: seq<Task>, left: set<nat>, t: Task, left': set<nat>)
    requires Scheduled(p, glyphs, found, queue, left) && TaskOk(p, found, t) && t.glyphs <= glyphs && left' <= left
    requires forall g :: g in left && g !in left' ==> g in t.glyphs || Settled(p, found, g)
    ensures Scheduled(p, glyphs, found, queue + [t], left')
  {
    hide TaskOk, Settled, Waiting, Analysable;
    forall g | g in glyphs ensures g in left' || Settled(p, found, g) || Waiting(queue + [t], g) {
      if Waiting(queue, g) || g in t.glyphs {
        WaitingMore(queue, t, g);
      }
    }
  }

  lemma ScheduleOne(p: Problem, glyphs: set<nat>, found: map<nat, set<nat>>, queue: seq<Task>, left: set<nat>, condition: set<nat>, group: set<nat>)
    requires Monotone(p.closure) && Scheduled(p, glyphs, found, queue, left) && group <= glyphs
    requires forall g :: g in group ==> Analysable(p, g) && g in found && found[g] == condition
    ensures Scheduled(p, glyphs, found, queue + [Task(condition, {}, (p.all - condition) * p.inscope, p.closure(p.all - condition) * group)], left - group)
  {
    hide Scheduled;
    var t := Task(condition, {}, (p.all - condition) * p.inscope, p.closure(p.all - condition) * group);
    assert t.Definition() == (p.all - condition) * p.inscope;
    assert TaskOk(p, found, t);
    forall g | g in left && g !in left - group ensures g in t.glyphs || Settled(p, found, g) {
      if g !in t.glyphs {
        ExcludedSettles(p, condition, condition, g);
      }
    }
    PushScheduled(p, glyphs, found, queue, left, t, left - group);
  }

  lemma AllScheduled(p: Problem, glyphs: set<nat>, found: map<nat, set<nat>>, queue: seq<Task>)
    requires Scheduled(p, glyphs, found, queue, {})
    ensures Inv(p, found, glyphs, found, queue)
  {
    hide TaskOk, Settled, Waiting, Analysable;
  }

  lemma ScheduleRest(p: Problem, glyphs: set<nat>, found: map<nat, set<nat>>, queue: seq<Task>, left: set<nat>)
    requires Scheduled(p, glyphs, found, queue, left) && left <= p.closure(p.all)
    ensures Inv(p, found, glyphs, found, queue + [Task({}, {}, p.all * p.inscope, left)])
  {
    var t := Task({}, {}, p.all * p.inscope, left);
    assert t.Definition() == p.all * p.inscope;
    forall g | g in left ensures Needed(p, t, g) {
      assert Analysable(p, g);
    }
    assert TaskOk(p, found, t);
    hide TaskOk, Settled, Waiting, Analysable, Needed;
    PushScheduled(p, glyphs, found, queue, left, t, {});
    AllScheduled(p, glyphs, found, queue + [t]);
  }

  lemma ExistingInClosure(p: Problem, glyphs: set<nat>, found: map<nat, set<nat>>, left: set<nat>)
    requires Monotone(p.closure) && left <= p.closure(p.all)
    requires forall g :: g in glyphs && g !in left ==> g in found
    requires forall g :: g in found ==> g in p.closure(found[g])
    ensures (forall g :: g in found ==> found[g] <= p.all) ==> glyphs <= p.closure(p.all)
  {
  }

  class Context {
    const problem: Problem
    const initFontGlyphs: set<nat>
    var queue: seq<Task>
    var glyphToConditions: map<nat, set<nat>>

    constructor (problem: Problem, initFontGlyphs: set<nat>, found: map<nat, set<nat>>)
      ensures this.problem == problem && this.initFontGlyphs == initFontGlyphs && queue == [] && glyphToConditions == found
    {
      this.problem, this.initFontGlyphs := problem, initFontGlyphs;
      queue, glyphToConditions := [], found;
    }

    method InClosure(segments: set<nat>, glyphs: set<nat>) returns (r: bool)
      ensures r <==> glyphs <= problem.closure(segments)
    {
      r := glyphs <= problem.closure(segments);
    }

    method HasAdditionalConditions(segments: set<nat>, glyphs: set<nat>) returns (additional: set<nat>, except: set<nat>)
      ensures additional == problem.closure(problem.all - segments) * glyphs
      ensures except == (problem.all - segments) * problem.inscope
    {
      except := problem.all - segments;
      additional := problem.closure(except) * glyphs;
      except := except * problem.inscope;
    }

    /** Sets up a search that leaves out the existing condition, for the glyphs that need more than that. */
    method ScheduleExistingConditionTask(condition: set<nat>, conditionGlyphs: set<nat>, allGlyphs: set<nat>, ghost glyphs: set<nat>,
                                         ghost rest: set<set<nat>>)
      returns (left: set<nat>)
      requires Monotone(problem.closure) && Scheduled(problem, glyphs, glyphToConditions, queue, allGlyphs) && conditionGlyphs <= glyphs
      requires forall g :: g in conditionGlyphs ==> Analysable(problem, g) && g in glyphToConditions && glyphToConditions[g] == condition
      requires Starting(problem, glyphToConditions, glyphs, queue, allGlyphs, rest) && condition in rest
      requires forall g :: g in conditionGlyphs <==> g in glyphToConditions && glyphToConditions[g] == condition
      modifies `queue
      ensures Scheduled(problem, glyphs, glyphToConditions, queue, left)
      ensures Starting(problem, glyphToConditions, glyphs, queue, left, rest - {condition})
      ensures left == allGlyphs || left == allGlyphs - conditionGlyphs
    {
      hide Scheduled, Monotone, Analysable, Starting, NeedsMore;
      var additional, except := HasAdditionalConditions(condition, conditionGlyphs);
      GroupNeedsMore(problem, glyphToConditions, condition, conditionGlyphs);
      if additional == {} {
        StartNone(problem, glyphToConditions, glyphs, queue, allGlyphs, rest, condition);
        return allGlyphs;
      }
      StartOne(problem, glyphToConditions, glyphs, queue, allGlyphs, rest, condition, conditionGlyphs);
      ScheduleOne(problem, glyphs, glyphToConditions, queue, allGlyphs, condition, conditionGlyphs);
      queue := queue + [Task(condition, {}, except, additional)];
      left := allGlyphs - conditionGlyphs;
    }

    /** One task for each existing condition that activates its glyphs but is not enough. */
    method ScheduleExisting(glyphs: set<nat>, byCondition: map<set<nat>, set<nat>>, ghost conditionsFor: nat -> ActivationCondition) returns (ok: bool, left: set<nat>)
      requires Monotone(problem.closure) && IsExisting(conditionsFor, glyphs, byCondition, glyphToConditions)
      requires Scheduled(problem, glyphs, glyphToConditions, queue, glyphs) && queue == []
      modifies `queue
      ensures ok <==> forall g :: g in glyphToConditions ==> g in problem.closure(glyphToConditions[g])
      ensures ok ==> Scheduled(problem, glyphs, glyphToConditions, queue, left)
      ensures ok ==> Starting(problem, glyphToConditions, glyphs, queue, left, {})
      ensures ok ==> forall g :: g in glyphs && g !in left ==> g in glyphToConditions
    {
      hide Monotone, Scheduled, Analysable, IsExisting, Starting;
      ok, left := true, glyphs;
      var rest := byCondition.Keys;
      ConditionsOfExisting(conditionsFor, glyphs, byCondition, glyphToConditions);
      NothingStarted(problem, glyphToConditions, glyphs, rest);
      while rest != {}
        invariant ok && rest <= byCondition.Keys && left <= glyphs
        invariant Scheduled(problem, glyphs, glyphToConditions, queue, left)
        invariant Starting(problem, glyphToConditions, glyphs, queue, left, rest)
        invariant forall s :: s in byCondition && s !in rest ==> byCondition[s] <= problem.closure(s)
        invariant forall g :: g in glyphs && g !in left ==> g in glyphToConditions
        decreases |rest|
      {
        var segments :| segments in rest;
        GroupOfExisting(conditionsFor, glyphs, byCondition, glyphToConditions, segments);
        ScheduledAnalysable(problem, glyphs, glyphToConditions, queue, left);
        ok := InClosure(segments, byCondition[segments]);
        if !ok {
          var g :| g in byCondition[segments] && g !in problem.closure(segments);
          return;
        }
        left := ScheduleExistingConditionTask(segments, byCondition[segments], left, glyphs, rest);
        rest := rest - {segments};
      }
      AllInClosure(problem, conditionsFor, glyphs, byCondition, glyphToConditions);
    }

    /** One task for each existing condition that is not enough, and one for all other glyphs. */
    method ScheduleInitialTasks(glyphs: set<nat>, byCondition: map<set<nat>, set<nat>>, ghost conditionsFor: nat -> ActivationCondition) returns (status: Status)
      requires Monotone(problem.closure) && queue == [] && IsExisting(conditionsFor, glyphs, byCondition, glyphToConditions)
      requires problem.closure({}) <= initFontGlyphs && Irrelevant(problem, glyphs)
      modifies `queue
      ensures status != InternalError
      ensures status == OkStatus ==> Inv(problem, glyphToConditions, glyphs, glyphToConditions, queue)
      ensures status == OkStatus ==> Exact(problem, glyphToConditions, glyphs, glyphToConditions, queue)
      ensures (forall g :: g in glyphToConditions ==> glyphToConditions[g] <= problem.all) ==>
                (status == OkStatus <==> ValidInput(problem, initFontGlyphs, glyphToConditions, glyphs))
    {
      hide Inv, Exact, Starting, Monotone, Scheduled, Analysable, Irrelevant;
      if !(glyphs !! initFontGlyphs) {
        return InvalidArgument;
      }
      InputAnalysable(problem, initFontGlyphs, glyphs);
      NothingScheduled(problem, glyphs, glyphToConditions);
      hide IsExisting;
      var ok, left := ScheduleExisting(glyphs, byCondition, conditionsFor);
      if !ok {
        return InvalidArgument;
      }
      if left == {} {
        AllScheduled(problem, glyphs, glyphToConditions, queue);
        StartedAll(problem, glyphToConditions, glyphs, queue);
        ExistingInClosure(problem, glyphs, glyphToConditions, left);
        return OkStatus;
      }
      ScheduledAnalysable(problem, glyphs, glyphToConditions, queue, left);
      var inClosure := InClosure(problem.all, left);
      if !inClosure {
        assert exists g :: g in left && g !in problem.closure(problem.all);
        return InvalidArgument;
      }
      ScheduleRest(problem, glyphs, glyphToConditions, queue, left);
      StartRest(problem, glyphToConditions, glyphs, queue, left);
      ExistingInClosure(problem, glyphs, glyphToConditions, left);
      queue := queue + [Task({}, {}, problem.all * problem.inscope, left)];
      status := OkStatus;
    }

    /** One test of a segment, or the end of a series of tests. */
    method RunAnalysisTask(task: Task, ghost existing: map<nat, set<nat>>, ghost glyphs: set<nat>) returns (status: Status)
      requires Monotone(problem.closure) && Inv(problem, existing, glyphs, glyphToConditions, queue + [task])
      requires Exact(problem, existing, glyphs, glyphToConditions, queue + [task])
      modifies this
      ensures status == OkStatus && Inv(problem, existing, glyphs, glyphToConditions, queue)
      ensures Exact(problem, existing, glyphs, glyphToConditions, queue)
      ensures QueueWork(problem, queue) < QueueWork(problem, old(queue) + [task])
    {
      hide Inv, Exact, TaskOnCourse, TaskOk, QueueWork, Monotone, Analysable;
      ghost var before := queue;
      TaskIsOk(problem, existing, glyphs, glyphToConditions, queue, task);
      if task.glyphs == {} {
        InvDropEmpty(problem, existing, glyphs, glyphToConditions, queue, task);
        ExactDropEmpty(problem, existing, glyphs, glyphToConditions, queue, task);
        QueueWorkPush(problem, queue, task);
        return OkStatus;
      }
      if task.toBeTested == {} {
        status := RecordSubCondition(task, existing, glyphs);
        return;
      }
      var tested := Min(task.toBeTested);
      var closure := problem.closure(task.Definition() - {tested});
      var needs := task.glyphs - closure;
      var doesntNeed := task.glyphs * closure;
      var without, with := SubTask(task, doesntNeed, tested, false), SubTask(task, needs, tested, true);
      TestedTasksOk(problem, glyphToConditions, task, tested);
      TaskIsOnCourse(problem, existing, glyphs, glyphToConditions, queue, task);
      TestKeepsCourse(problem, existing, glyphToConditions, task, tested);
      InvSplit(problem, existing, glyphs, glyphToConditions, queue, task, without, with);
      ExactSplit(problem, existing, glyphs, glyphToConditions, queue, task, without, with);
      TestingIsLessWork(problem, queue, task, without, with, tested);
      queue := queue + [without];
      queue := queue + [with];
      status := OkStatus;
    }

    /** Every glyph of the task gets the segments that were kept, and is searched further if it needs to be. */
    method RecordSubCondition(task: Task, ghost existing: map<nat, set<nat>>, ghost glyphs: set<nat>) returns (status: Status)
      requires Monotone(problem.closure) && Inv(problem, existing, glyphs, glyphToConditions, queue + [task])
      requires Exact(problem, existing, glyphs, glyphToConditions, queue + [task])
      requires task.toBeTested == {} && task.glyphs != {} && TaskOk(problem, glyphToConditions, task)
      modifies this
      ensures status == OkStatus && Inv(problem, existing, glyphs, glyphToConditions, queue)
      ensures Exact(problem, existing, glyphs, glyphToConditions, queue)
      ensures QueueWork(problem, queue) < QueueWork(problem, old(queue) + [task])
    {
      hide Inv, Exact, TaskOk, QueueWork, Monotone, Recorded;
      ghost var found := glyphToConditions;
      AddConditions(task.glyphs, task.subCondition);
      InvRecord(problem, existing, glyphs, found, glyphToConditions, queue, task);
      ExactRecord(problem, existing, glyphs, found, glyphToConditions, queue, task);
      RecordingIsLessWork(problem, found, queue, task);
      var full := task.fullCondition + task.subCondition;
      var additional, remaining := HasAdditionalConditions(full, task.glyphs);
      if additional != {} && remaining == {} {
        return InternalError;
      }
      assert NextTask(problem, task) == Task(full, {}, remaining, additional);
      queue := queue + [Task(full, {}, remaining, additional)];
      status := OkStatus;
    }

    method AddConditions(glyphs: set<nat>, segments: set<nat>)
      modifies `glyphToConditions
      ensures Recorded(old(glyphToConditions), glyphToConditions, glyphs, segments)
    {
      RecordedNothing(glyphToConditions, segments);
      hide Recorded;
      var rest := glyphs;
      ghost var done: set<nat> := {};
      while rest != {}
        invariant rest !! done && rest + done == glyphs
        invariant Recorded(old(glyphToConditions), glyphToConditions, done, segments)
        decreases |rest|
      {
        var g := Min(rest);
        RecordedOneMore(old(glyphToConditions), glyphToConditions, done, g, segments);
        rest := rest - {g};
        done := done + {g};
        var known := if g in glyphToConditions then glyphToConditions[g] else {};
        glyphToConditions := glyphToConditions[g := known + segments];
      }
      assert done == glyphs;
    }

    /** Works through the queue, which becomes empty; no task ever fails. */
    method ProcessQueue(ghost existing: map<nat, set<nat>>, ghost glyphs: set<nat>) returns (status: Status)
      requires Monotone(problem.closure) && Inv(problem, existing, glyphs, glyphToConditions, queue)
      requires Exact(problem, existing, glyphs, glyphToConditions, queue)
      modifies this
      ensures status == OkStatus && queue == [] && Inv(problem, existing, glyphs, glyphToConditions, queue)
      ensures Exact(problem, existing, glyphs, glyphToConditions, queue)
    {
      hide Inv, Exact, QueueWork, Monotone;
      while queue != []
        invariant Inv(problem, existing, glyphs, glyphToConditions, queue)
        invariant Exact(problem, existing, glyphs, glyphToConditions, queue)
        decreases QueueWork(problem, queue)
      {
        var next := queue[|queue| - 1];
        assert queue == queue[..|queue| - 1] + [next];
        queue := queue[..|queue| - 1];
        status := RunAnalysisTask(next, existing, glyphs);
        if status != OkStatus {
          return;
        }
      }
      status := OkStatus;
    }
  }

  lemma RecordedNothing(found: map<nat, set<nat>>, segments: set<nat>)
    ensures Recorded(found, found, {}, segments)
  {
  }

  lemma RecordedOneMore(found: map<nat, set<nat>>, now: map<nat, set<nat>>, glyphs: set<nat>, g: nat, segments: set<nat>)
    requires Recorded(found, now, glyphs, segments) && g !in glyphs
    ensures Recorded(found, now[g := (if g in now then now[g] else {}) + segments], glyphs + {g}, segments)
  {
    var more := now[g := (if g in now then now[g] else {}) + segments];
    forall h | h in more
      ensures more[h] == (if h in found then found[h] else {}) + (if h in glyphs + {g} then segments else {})
    {
      if h == g {
        assert g in now <==> g in found;
      }
    }
  }

  lemma TaskIsOk(p: Problem, existing: map<nat, set<nat>>, glyphs: set<nat>, found: map<nat, set<nat>>, queue: seq<Task>, t: Task)
    requires Inv(p, existing, glyphs, found, queue + [t])
    ensures TaskOk(p, found, t)
  {
    assert t in queue + [t];
  }

  lemma TaskIsOnCourse(p: Problem, existing: map<nat, set<nat>>, glyphs: set<nat>, found: map<nat, set<nat>>, queue: seq<Task>, t: Task)
    requires Exact(p, existing, glyphs, found, queue + [t])
    ensures TaskOnCourse(p, existing, found, t)
  {
    assert t in queue + [t];
  }

  ghost function ExistingMap(conditionsFor: nat -> ActivationCondition, glyphs: set<nat>): map<nat, set<nat>> {
    map g | g in glyphs && IsDisjunctive(conditionsFor(g)) :: conditionsFor(g).TriggeringSegments()
  }

  /** The segment is in the existing condition, or in a set that activates the glyph while no smaller one in it does. */
  ghost predicate Relevant(p: Problem, existing: map<nat, set<nat>>, g: nat, x: nat) {
    || (g in existing && x in existing[g])
    || exists m: set<nat> :: x in m && m <= p.Scope() && g in p.closure(m) && forall n: set<nat> :: n < m ==> g !in p.closure(n)
  }

  lemma JustifiedIsRelevant(p: Problem, existing: map<nat, set<nat>>, g: nat, x: nat)
    requires Monotone(p.closure) && Justified(p, existing, g, x)
    ensures Relevant(p, existing, g, x)
  {
    if !(g in existing && x in existing[g]) {
      var m :| x in m && MinimalActivating(p, m, g);
      forall n: set<nat> | n < m ensures g !in p.closure(n) {
        if g in p.closure(n) {
          MinimalHasNoSmaller(p, m, n, g);
        }
      }
    }
  }

  /** Each glyph is in the group of one condition, the one it is given when it is analysed alone, which every activating
      set meets and which only has segments from the existing condition and from smallest activating sets. */
  ghost predicate IsAnswer(p: Problem, conditionsFor: nat -> ActivationCondition, glyphs: set<nat>, grouped: map<set<nat>, set<nat>>) {
    && (forall g :: g in glyphs ==> exists s :: s in grouped && g in grouped[s])
    && (forall s, t, g :: s in grouped && t in grouped && g in grouped[s] && g in grouped[t] ==> s == t)
    && (forall s :: s in grouped ==> grouped[s] != {} && grouped[s] <= glyphs)
    && (forall s, g :: s in grouped && g in grouped[s] ==> s == Answer(p, ExistingMap(conditionsFor, glyphs), g))
    && (forall s, g :: s in grouped && g in grouped[s] ==> HitsAll(p, s, g))
    && forall s, g, x :: s in grouped && g in grouped[s] && x in s ==> Relevant(p, ExistingMap(conditionsFor, glyphs), g, x)
  }

  ghost predicate IsGrouped(found: map<nat, set<nat>>, done: set<nat>, grouped: map<set<nat>, set<nat>>) {
    && (forall s, g :: s in grouped && g in grouped[s] ==> g in done && g in found && found[g] == s)
    && (forall g :: g in done && g in found ==> found[g] in grouped && g in grouped[found[g]])
    && forall s :: s in grouped ==> grouped[s] != {}
  }

  method GroupGlyphs(found: map<nat, set<nat>>) returns (grouped: map<set<nat>, set<nat>>)
    ensures IsGrouped(found, found.Keys, grouped)
  {
    grouped := map[];
    var rest := found.Keys;
    while rest != {}
      invariant rest <= found.Keys && IsGrouped(found, found.Keys - rest, grouped)
      decreases |rest|
    {
      var g := Min(rest);
      rest := rest - {g};
      var group := if found[g] in grouped then grouped[found[g]] else {};
      grouped := grouped[found[g] := group + {g}];
    }
    assert found.Keys - rest == found.Keys;
  }

  /** Finds for each glyph a disjunction of segments that is active whenever the glyph's own condition is. */
  method FindSupersetDisjunctiveConditionsFor(segmentsAreDisjoint: bool, problem: Problem, initFontGlyphs: set<nat>,
                                              conditionsFor: nat -> ActivationCondition, glyphs: set<nat>)
    returns (status: Status, grouped: map<set<nat>, set<nat>>)
    requires Monotone(problem.closure) && problem.closure({}) <= initFontGlyphs && Irrelevant(problem, glyphs)
    ensures status != InternalError
    ensures !segmentsAreDisjoint ==> status == InvalidArgument
    ensures var existing := ExistingMap(conditionsFor, glyphs);
            segmentsAreDisjoint && (forall g :: g in existing ==> existing[g] <= problem.all) ==>
            (status == OkStatus <==> ValidInput(problem, initFontGlyphs, existing, glyphs))
    ensures status == OkStatus ==> IsAnswer(problem, conditionsFor, glyphs, grouped)
  {
    hide Inv, Exact, Answer, Monotone, Irrelevant;
    grouped := map[];
    if !segmentsAreDisjoint {
      return InvalidArgument, grouped;
    }
    var byCondition, found := ExistingConditions(conditionsFor, glyphs);
    assert found == ExistingMap(conditionsFor, glyphs);
    var context := new Context(problem, initFontGlyphs, found);
    status := context.ScheduleInitialTasks(glyphs, byCondition, conditionsFor);
    if status != OkStatus {
      return;
    }
    status := context.ProcessQueue(found, glyphs);
    QueueEmpty(problem, found, glyphs, context.glyphToConditions);
    AllAnswered(problem, found, glyphs, context.glyphToConditions);
    grouped := GroupGlyphs(context.glyphToConditions);
    AnswerGrouped(problem, conditionsFor, glyphs, found, context.glyphToConditions, grouped);
  }

  lemma AnswerGrouped(p: Problem, conditionsFor: nat -> ActivationCondition, glyphs: set<nat>, existing: map<nat, set<nat>>, found: map<nat, set<nat>>, grouped: map<set<nat>, set<nat>>)
    requires found.Keys == glyphs && existing == ExistingMap(conditionsFor, glyphs) && IsGrouped(found, found.Keys, grouped)
    requires Monotone(p.closure) && AllJustified(p, existing, found) && forall g :: g in glyphs ==> g in found && HitsAll(p, found[g], g)
    requires forall g :: g in glyphs ==> found[g] == Answer(p, existing, g)
    ensures IsAnswer(p, conditionsFor, glyphs, grouped)
  {
    hide HitsAll, Justified, Relevant, Monotone, Answer;
    forall g | g in glyphs ensures exists s :: s in grouped && g in grouped[s] {
      assert found[g] in grouped && g in grouped[found[g]];
    }
    forall s | s in grouped ensures grouped[s] <= glyphs {
      assert forall g :: g in grouped[s] ==> g in found.Keys;
    }
    forall s, g, x | s in grouped && g in grouped[s] && x in s ensures Relevant(p, existing, g, x) {
      assert g in found && x in found[g];
      JustifiedIsRelevant(p, existing, g, x);
    }
  }
}
