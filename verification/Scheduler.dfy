/** Level scheduling of noema/core/chain_of_thought.py: the Kahn loop, the planner, and the dependency
filter that turns a plan into a step graph. */
module Scheduler {
  import opened Sequences

  /** Step names: the thirteen built-in ones, or any other string. */
  datatype Name =
    | Repair | Analysis | Architecture | Stack | Components | DataModel | ApiDesign
    | Codegen | Testing | Security | Optimization | Deployment | Review
    | Other(text: string)

  datatype Step = Step(name: Name, dependsOn: seq<Name>)

  ghost predicate DistinctNames(steps: seq<Step>) {
    forall i, j :: 0 <= i < j < |steps| ==> steps[i].name != steps[j].name
  }

  predicate Ready(step: Step, added: set<Name>) {
    forall d :: d in step.dependsOn ==> d in added
  }

  function Names(level: seq<Step>): set<Name> {
    set i | 0 <= i < |level| :: level[i].name
  }

  /** The names placed in the first `k` levels. */
  function Before(levels: seq<seq<Step>>, k: nat): set<Name>
    requires k <= |levels|
  {
    if k == 0 then {} else Before(levels, k - 1) + Names(levels[k - 1])
  }

  function Placed(levels: seq<seq<Step>>): set<Name> {
    Before(levels, |levels|)
  }

  /** A level is, without repetition, the steps that are not placed yet and have all dependencies placed. */
  ghost predicate IsLevel(steps: seq<Step>, added: set<Name>, level: seq<Step>) {
    && level != [] && DistinctNames(level)
    && forall s :: s in level <==> s in steps && s.name !in added && Ready(s, added)
  }

  ghost predicate LevelAt(steps: seq<Step>, levels: seq<seq<Step>>, k: nat) {
    k < |levels| && IsLevel(steps, Before(levels, k), levels[k])
  }

  /** Every level takes all steps that are ready, and in the end none is. */
  ghost predicate IsSchedule(steps: seq<Step>, levels: seq<seq<Step>>) {
    && (forall k :: 0 <= k < |levels| ==> LevelAt(steps, levels, k))
    && forall s :: s in steps && s.name !in Placed(levels) ==> !Ready(s, Placed(levels))
  }

  // ---------- the loop ----------

  method Remove(s: seq<Step>, x: Step) returns (r: seq<Step>)
    requires x in s && DistinctNames(s)
    ensures |r| == |s| - 1 && DistinctNames(r)
    ensures forall y :: y in r <==> y in s && y != x
  {
    var i := 0;
    while s[i] != x
      invariant 0 <= i < |s| && x !in s[..i]
      decreases |s| - i
    {
      i := i + 1;
      assert x in s[i..] by { assert s == s[..i] + s[i..]; }
    }
    r := s[..i] + s[i + 1..];
    assert s == s[..i] + [x] + s[i + 1..];
    assert forall j :: 0 <= j < |r| ==> r[j] == s[if j < i then j else j + 1];
  }

  /** One pass over the remaining steps: the ready ones move into a level. */
  method TakeReady(snapshot: seq<Step>, added: set<Name>) returns (level: seq<Step>, remaining: seq<Step>)
    requires DistinctNames(snapshot)
    ensures DistinctNames(level) && DistinctNames(remaining) && |level| + |remaining| == |snapshot|
    ensures forall s :: s in level <==> s in snapshot && Ready(s, added)
    ensures forall s :: s in remaining <==> s in snapshot && !Ready(s, added)
  {
    level, remaining := [], snapshot;
    for i := 0 to |snapshot|
      invariant DistinctNames(level) && DistinctNames(remaining) && |level| + |remaining| == |snapshot|
      invariant forall s :: s in level <==> s in snapshot[..i] && Ready(s, added)
      invariant forall s :: s in remaining <==> s in snapshot && (s in snapshot[..i] ==> !Ready(s, added))
    {
      var step := snapshot[i];
      assert forall s :: s in snapshot[..i + 1] <==> s in snapshot[..i] || s == step;
      assert step !in snapshot[..i];
      if Ready(step, added) {
        forall j | 0 <= j < |level| ensures level[j].name != step.name {
          assert level[j] in snapshot[..i];
        }
        level := level + [step];
        remaining := Remove(remaining, step);
      }
    }
    assert snapshot[..|snapshot|] == snapshot;
  }

  method TopologicalLevels(steps: seq<Step>) returns (levels: seq<seq<Step>>)
    requires DistinctNames(steps)
    ensures IsSchedule(steps, levels)
  {
    levels := [];
    var added: set<Name> := {};
    var remaining := steps;
    while remaining != []
      invariant added == Placed(levels) && DistinctNames(remaining)
      invariant forall k :: 0 <= k < |levels| ==> LevelAt(steps, levels, k)
      invariant forall s :: s in remaining <==> s in steps && s.name !in added
      decreases |remaining|
    {
      var level;
      ghost var snapshot := remaining;
      level, remaining := TakeReady(remaining, added);
      if level == [] {
        assert forall s :: s in remaining ==> !Ready(s, added);
        break;
      }
      assert IsLevel(steps, added, level);
      ExtendLevels(steps, levels, level);
      forall s ensures s in remaining <==> s in steps && s.name !in added + Names(level) {
        LeftOver(steps, added, level, s);
      }
      levels := levels + [level];
      added := added + Names(level);
    }
  }

  lemma {:induction false} BeforeOfPrefix(levels: seq<seq<Step>>, level: seq<Step>, k: nat)
    requires k <= |levels|
    ensures Before(levels + [level], k) == Before(levels, k)
  {
    if k > 0 {
      BeforeOfPrefix(levels, level, k - 1);
    }
  }

  lemma {:induction false} PlacedGrows(levels: seq<seq<Step>>, level: seq<Step>)
    ensures Placed(levels + [level]) == Placed(levels) + Names(level)
    ensures forall k :: 0 <= k <= |levels| ==> Before(levels + [level], k) == Before(levels, k)
  {
    forall k | 0 <= k <= |levels| ensures Before(levels + [level], k) == Before(levels, k) {
      BeforeOfPrefix(levels, level, k);
    }
  }

  lemma {:induction false} ExtendLevels(steps: seq<Step>, levels: seq<seq<Step>>, level: seq<Step>)
    requires IsLevel(steps, Placed(levels), level)
    requires forall k :: 0 <= k < |levels| ==> LevelAt(steps, levels, k)
    ensures Placed(levels + [level]) == Placed(levels) + Names(level)
    ensures forall k :: 0 <= k <= |levels| ==> LevelAt(steps, levels + [level], k)
  {
    PlacedGrows(levels, level);
    forall k | 0 <= k <= |levels| ensures LevelAt(steps, levels + [level], k) {
      assert k < |levels| ==> LevelAt(steps, levels, k);
    }
  }

  lemma {:induction false} LeftOver(steps: seq<Step>, added: set<Name>, level: seq<Step>, s: Step)
    requires DistinctNames(steps) && IsLevel(steps, added, level)
    ensures s in steps && s.name !in added + Names(level) <==> s in steps && s.name !in added && !Ready(s, added)
  {
    if s in steps && s.name in Names(level) {
      var i :| 0 <= i < |level| && level[i].name == s.name;
      assert level[i] in level;
      SameNameSameStep(steps, s, level[i]);
    }
  }

  lemma {:induction false} SameNameSameStep(steps: seq<Step>, s: Step, t: Step)
    requires DistinctNames(steps) && s in steps && t in steps && s.name == t.name
    ensures s == t
  {
  }

  // ---------- what a schedule means ----------

  lemma {:induction false} InNames(level: seq<Step>, s: Step)
    ensures s in level ==> s.name in Names(level)
  {
  }

  lemma {:induction false} BeforeMonotone(levels: seq<seq<Step>>, j: nat, k: nat)
    requires j <= k <= |levels|
    ensures Before(levels, j) <= Before(levels, k)
  {
    if j < k {
      BeforeMonotone(levels, j, k - 1);
    }
  }

  lemma {:induction false} LevelOfName(levels: seq<seq<Step>>, k: nat, name: Name) returns (j: nat, s: Step)
    requires k <= |levels| && name in Before(levels, k)
    ensures j < k && s in levels[j] && s.name == name
  {
    if name in Names(levels[k - 1]) {
      var i :| 0 <= i < |levels[k - 1]| && levels[k - 1][i].name == name;
      j, s := k - 1, levels[k - 1][i];
    } else {
      j, s := LevelOfName(levels, k - 1, name);
    }
  }

  /** Each step is emitted at most once. */
  lemma {:induction false} EmittedOnce(steps: seq<Step>, levels: seq<seq<Step>>, j: nat, k: nat, s: Step)
    requires IsSchedule(steps, levels) && j < |levels| && k < |levels| && s in levels[j] && s in levels[k]
    ensures j == k
  {
    assert LevelAt(steps, levels, j) && LevelAt(steps, levels, k);
    if j < k {
      assert s.name in Names(levels[j]);
      BeforeMonotone(levels, j + 1, k);
    } else if k < j {
      assert s.name in Names(levels[k]);
      BeforeMonotone(levels, k + 1, j);
    }
  }

  /** Every dependency of an emitted step is itself a step and sits in a strictly earlier level. */
  lemma {:induction false} DependencyIsEarlier(steps: seq<Step>, levels: seq<seq<Step>>, k: nat, s: Step, d: Name)
    returns (j: nat, t: Step)
    requires IsSchedule(steps, levels) && k < |levels| && s in levels[k] && d in s.dependsOn
    ensures j < k && t in levels[j] && t.name == d && t in steps
  {
    assert LevelAt(steps, levels, k);
    j, t := LevelOfName(levels, k, d);
    assert LevelAt(steps, levels, j);
  }

  /** A step above the first level has a dependency in the level just below. */
  lemma {:induction false} DependencyJustBelow(steps: seq<Step>, levels: seq<seq<Step>>, k: nat, s: Step) returns (t: Step)
    requires IsSchedule(steps, levels) && 0 < k < |levels| && s in levels[k]
    ensures t in levels[k - 1] && t.name in s.dependsOn && t in steps
  {
    assert LevelAt(steps, levels, k) && LevelAt(steps, levels, k - 1);
    InNames(levels[k - 1], s);
    var d :| d in s.dependsOn && d !in Before(levels, k - 1);
    assert d in Names(levels[k - 1]);
    var i :| 0 <= i < |levels[k - 1]| && levels[k - 1][i].name == d;
    t := levels[k - 1][i];
  }

  // ---------- levels are longest-chain depths ----------

  /** A dependency chain: each step is a dependency of the next. */
  ghost predicate IsChain(steps: seq<Step>, chain: seq<Step>) {
    && (forall i :: 0 <= i < |chain| ==> chain[i] in steps)
    && (forall i :: 0 <= i < |chain| - 1 ==> chain[i].name in chain[i + 1].dependsOn)
  }

  lemma {:induction false} LongestChain(steps: seq<Step>, levels: seq<seq<Step>>, k: nat, s: Step) returns (chain: seq<Step>)
    requires IsSchedule(steps, levels) && k < |levels| && s in levels[k]
    ensures IsChain(steps, chain) && |chain| == k + 1 && chain[k] == s
  {
    assert LevelAt(steps, levels, k);
    if k == 0 {
      chain := [s];
    } else {
      var t := DependencyJustBelow(steps, levels, k, s);
      var below := LongestChain(steps, levels, k - 1, t);
      chain := below + [s];
    }
  }

  /** No dependency chain into a step of level `k` is longer than `k + 1`, so together with
  `LongestChain` the level of a step is the length of its longest dependency chain. */
  lemma {:induction false} NoLongerChain(steps: seq<Step>, levels: seq<seq<Step>>, k: nat, s: Step, chain: seq<Step>)
    requires IsSchedule(steps, levels) && k < |levels| && s in levels[k] && DistinctNames(steps)
    requires IsChain(steps, chain) && chain != [] && chain[|chain| - 1] == s
    ensures |chain| <= k + 1
  {
    if |chain| > 1 {
      var below := chain[..|chain| - 1];
      var p := below[|below| - 1];
      assert p == chain[|chain| - 2] && p.name in chain[|chain| - 1].dependsOn;
      var j, t := DependencyIsEarlier(steps, levels, k, s, p.name);
      SameNameSameStep(steps, p, t);
      NoLongerChain(steps, levels, j, p, below);
    }
  }

  // ---------- exactly the steps that lead nowhere are dropped ----------

  /** A walk along dependencies; its last name need not be a step. */
  ghost predicate IsWalk(steps: seq<Step>, walk: seq<Name>) {
    walk != [] && forall i :: 0 <= i < |walk| - 1 ==> Depends(steps, walk[i], walk[i + 1])
  }

  ghost predicate Depends(steps: seq<Step>, a: Name, b: Name) {
    exists s :: s in steps && s.name == a && b in s.dependsOn
  }

  ghost predicate IsStep(steps: seq<Step>, name: Name) {
    exists s :: s in steps && s.name == name
  }

  /** A walk that ends at a missing dependency or runs into a cycle. */
  ghost predicate LeadsNowhere(steps: seq<Step>, walk: seq<Name>) {
    IsWalk(steps, walk) && (!IsStep(steps, walk[|walk| - 1]) || !Distinct(walk))
  }

  lemma {:induction false} WalkDescends(steps: seq<Step>, levels: seq<seq<Step>>, k: nat, s: Step, walk: seq<Name>, i: nat)
    returns (j: nat, t: Step)
    requires IsSchedule(steps, levels) && DistinctNames(steps) && k < |levels| && s in levels[k]
    requires IsWalk(steps, walk) && walk[0] == s.name && i < |walk|
    ensures j + i <= k && t in levels[j] && t in steps && t.name == walk[i]
  {
    assert LevelAt(steps, levels, k);
    if i == 0 {
      j, t := k, s;
    } else {
      var j', t' := WalkDescends(steps, levels, k, s, walk, i - 1);
      assert Depends(steps, walk[i - 1], walk[i]);
      var u :| u in steps && u.name == walk[i - 1] && walk[i] in u.dependsOn;
      SameNameSameStep(steps, u, t');
      j, t := DependencyIsEarlier(steps, levels, j', t', walk[i]);
    }
  }

  /** No walk from an emitted step leads nowhere. */
  lemma {:induction false} EmittedWalksAreGood(steps: seq<Step>, levels: seq<seq<Step>>, k: nat, s: Step, walk: seq<Name>)
    requires IsSchedule(steps, levels) && DistinctNames(steps) && k < |levels| && s in levels[k]
    requires IsWalk(steps, walk) && walk[0] == s.name
    ensures !LeadsNowhere(steps, walk)
  {
    var _, last := WalkDescends(steps, levels, k, s, walk, |walk| - 1);
    assert IsStep(steps, walk[|walk| - 1]);
    if !Distinct(walk) {
      var a, b :| 0 <= a < b < |walk| && walk[a] == walk[b];
      var j, t := WalkDescends(steps, levels, k, s, walk, a);
      var rest := walk[a..];
      assert forall i :: 0 <= i < |rest| - 1 ==> Depends(steps, rest[i], rest[i + 1]) by {
        forall i | 0 <= i < |rest| - 1 ensures Depends(steps, rest[i], rest[i + 1]) {
          assert rest[i] == walk[a + i] && rest[i + 1] == walk[a + i + 1];
        }
      }
      var j', t' := WalkDescends(steps, levels, j, t, rest, b - a);
      SameNameSameStep(steps, t, t');
      EmittedOnce(steps, levels, j, j', t);
    }
  }

  /** From a dropped step one can keep walking over dropped steps, or reach a missing dependency. */
  lemma {:induction false} DroppedWalk(steps: seq<Step>, levels: seq<seq<Step>>, s: Step, n: nat) returns (walk: seq<Name>)
    requires IsSchedule(steps, levels) && s in steps && s.name !in Placed(levels)
    ensures IsWalk(steps, walk) && walk[0] == s.name
    ensures !IsStep(steps, walk[|walk| - 1])
         || (|walk| == n + 1 && forall i :: 0 <= i < |walk| ==> IsStep(steps, walk[i]))
    decreases n
  {
    assert IsStep(steps, s.name);
    walk := [s.name];
    if n > 0 {
      var d :| d in s.dependsOn && d !in Placed(levels);
      assert Depends(steps, s.name, d);
      if IsStep(steps, d) {
        var t :| t in steps && t.name == d;
        var rest := DroppedWalk(steps, levels, t, n - 1);
        walk := [s.name] + rest;
        forall i | 0 <= i < |walk| - 1 ensures Depends(steps, walk[i], walk[i + 1]) {
          if i > 0 {
            assert Depends(steps, rest[i - 1], rest[i]);
          }
        }
      } else {
        walk := [s.name, d];
      }
    }
  }

  lemma {:induction false} NoRepeatIsBounded(walk: seq<Name>, names: set<Name>)
    requires Distinct(walk) && forall i :: 0 <= i < |walk| ==> walk[i] in names
    ensures |walk| <= |names|
  {
    if walk != [] {
      var init, last := walk[..|walk| - 1], walk[|walk| - 1];
      assert forall i, j :: 0 <= i < j < |init| ==> init[i] == walk[i] && init[j] == walk[j];
      forall i | 0 <= i < |init| ensures init[i] in names - {last} {
        assert walk[i] == init[i];
      }
      NoRepeatIsBounded(init, names - {last});
    }
  }

  lemma {:induction false} NamesAreBounded(steps: seq<Step>)
    ensures |Names(steps)| <= |steps|
  {
    if steps != [] {
      var init := steps[..|steps| - 1];
      NamesAreBounded(init);
      assert Names(steps) == Names(init) + {steps[|steps| - 1].name};
    }
  }

  /** A step is dropped exactly when some walk from it leads nowhere. */
  lemma {:induction false} DroppedIff(steps: seq<Step>, levels: seq<seq<Step>>, s: Step)
    requires IsSchedule(steps, levels) && DistinctNames(steps) && s in steps
    ensures s.name !in Placed(levels) <==> exists walk :: LeadsNowhere(steps, walk) && walk[0] == s.name
  {
    if s.name in Placed(levels) {
      var k, t := LevelOfName(levels, |levels|, s.name);
      assert LevelAt(steps, levels, k);
      SameNameSameStep(steps, s, t);
      forall walk | IsWalk(steps, walk) && walk[0] == s.name ensures !LeadsNowhere(steps, walk) {
        EmittedWalksAreGood(steps, levels, k, s, walk);
      }
    } else {
      var walk := DroppedWalk(steps, levels, s, |steps|);
      if IsStep(steps, walk[|walk| - 1]) && Distinct(walk) {
        forall i | 0 <= i < |walk| ensures walk[i] in Names(steps) {
          assert IsStep(steps, walk[i]);
        }
        NoRepeatIsBounded(walk, Names(steps));
        NamesAreBounded(steps);
      }
      assert LeadsNowhere(steps, walk);
    }
  }

  // ---------- the planner and the step graph ----------

  const ALL_STEPS: seq<Name> := [
    Repair, Analysis, Architecture, Stack, Components, DataModel, ApiDesign,
    Codegen, Testing, Security, Optimization, Deployment, Review]

  const MINIMAL_STEPS: seq<Name> := [Analysis, Architecture, Stack, Codegen, Review]

  /** Task tags and complexities in lower case: those the planner tests for, or any other string. */
  datatype Tag =
    | DataTag | DatabaseTag | ApiTag | WebTag | RestTag | TestTag | QaTag | SecurityTag | AuthTag
    | PerformanceTag | HighLoadTag | OtherTag(text: string)

  datatype Complexity = Trivial | Simple | OtherComplexity(text: string)

  /** The order in which a plan lists its steps. */
  function PlanOrder(name: Name): nat {
    match name
    case Analysis => 0 case Repair => 1 case Architecture => 2 case Stack => 3 case Components => 4
    case DataModel => 5 case ApiDesign => 6 case Codegen => 7 case Testing => 8 case Security => 9
    case Optimization => 10 case Deployment => 11 case Review => 12 case Other(_) => 13
  }

  lemma {:induction false} PlanOrderIs(i: nat)
    requires i < 13
    ensures PlanOrder([Analysis, Repair, Architecture, Stack, Components, DataModel, ApiDesign,
                       Codegen, Testing, Security, Optimization, Deployment, Review][i]) == i
  {
  }

  ghost predicate InPlanOrder(steps: seq<Name>) {
    forall i, j :: 0 <= i < j < |steps| ==> PlanOrder(steps[i]) < PlanOrder(steps[j])
  }

  predicate IsMinimal(complexity: Complexity) {
    complexity == Trivial || complexity == Simple
  }

  /** Whether a plan for a task that is not trivial or simple contains a step. */
  predicate Wanted(name: Name, tags: set<Tag>, repair: bool) {
    match name
    case DataModel => DataTag in tags || DatabaseTag in tags
    case ApiDesign => ApiTag in tags || WebTag in tags || RestTag in tags
    case Testing => TestTag in tags || QaTag in tags
    case Security => SecurityTag in tags || AuthTag in tags
    case Optimization => PerformanceTag in tags || HighLoadTag in tags
    case Repair => repair
    case Other(_) => false
    case _ => true
  }

  /** The wanted steps up to a point of the order, without the repair step. */
  ghost predicate IsPlanPrefix(steps: seq<Name>, tags: set<Tag>, upTo: nat) {
    InPlanOrder(steps) && forall n :: n in steps <==> Wanted(n, tags, false) && PlanOrder(n) <= upTo
  }

  method AppendIf(steps: seq<Name>, ghost tags: set<Tag>, wanted: bool, name: Name) returns (r: seq<Name>)
    requires !name.Other? && name != Repair && name != Analysis && wanted == Wanted(name, tags, false)
    requires IsPlanPrefix(steps, tags, PlanOrder(name) - 1)
    ensures IsPlanPrefix(r, tags, PlanOrder(name))
  {
    r := if wanted then steps + [name] else steps;
    assert forall i :: 0 <= i < |steps| ==> steps[i] in steps;
    forall n ensures n in r <==> Wanted(n, tags, false) && PlanOrder(n) <= PlanOrder(name) {
      assert n in r <==> n in steps || (wanted && n == name);
      OrderTellsNames(n, name);
    }
  }

  lemma {:induction false} OrderTellsNames(n: Name, name: Name)
    requires !name.Other?
    ensures PlanOrder(n) == PlanOrder(name) ==> n == name
  {
  }

  lemma {:induction false} RepairSecond(steps: seq<Name>, tags: set<Tag>)
    requires IsPlanPrefix(steps, tags, 12) && steps != [] && steps[0] == Analysis
    ensures var r := steps[..1] + [Repair] + steps[1..];
            InPlanOrder(r) && forall n :: n in r <==> Wanted(n, tags, true)
  {
    var r := steps[..1] + [Repair] + steps[1..];
    RepairKeepsOrder(steps, tags);
    forall n ensures n in r <==> Wanted(n, tags, true) {
      assert steps == steps[..1] + steps[1..];
      assert n in r <==> n in steps || n == Repair;
      assert n in steps <==> Wanted(n, tags, false) && PlanOrder(n) <= 12;
    }
  }

  lemma {:induction false} RepairKeepsOrder(steps: seq<Name>, tags: set<Tag>)
    requires IsPlanPrefix(steps, tags, 12) && steps != [] && steps[0] == Analysis
    ensures InPlanOrder(steps[..1] + [Repair] + steps[1..])
  {
    var r := steps[..1] + [Repair] + steps[1..];
    forall i | 1 <= i < |steps| ensures PlanOrder(steps[i]) > 1 {
      assert steps[i] in steps && PlanOrder(steps[0]) < PlanOrder(steps[i]);
    }
    forall i, j | 0 <= i < j < |r| ensures PlanOrder(r[i]) < PlanOrder(r[j]) {
      assert j > 1 ==> r[j] == steps[j - 1];
      assert i > 1 ==> r[i] == steps[i - 1];
    }
  }

  lemma {:induction false} AnalysisFirst(steps: seq<Name>, tags: set<Tag>)
    requires IsPlanPrefix(steps, tags, 12)
    ensures steps != [] && steps[0] == Analysis && Analysis in steps
  {
    assert Wanted(Analysis, tags, false);
    assert PlanOrder(steps[0]) == 0;
  }

  lemma {:induction false} FixedPrefix(tags: set<Tag>)
    ensures IsPlanPrefix([Analysis, Architecture, Stack, Components], tags, 4)
  {
    var steps := [Analysis, Architecture, Stack, Components];
    forall n ensures n in steps <==> Wanted(n, tags, false) && PlanOrder(n) <= 4 {
      assert n in steps <==> n == Analysis || n == Architecture || n == Stack || n == Components;
    }
  }

  method PlanBase(tags: set<Tag>) returns (steps: seq<Name>)
    ensures IsPlanPrefix(steps, tags, 12)
  {
    steps := [Analysis, Architecture, Stack, Components];
    FixedPrefix(tags);
    steps := AppendIf(steps, tags, DataTag in tags || DatabaseTag in tags, DataModel);
    steps := AppendIf(steps, tags, ApiTag in tags || WebTag in tags || RestTag in tags, ApiDesign);
    steps := AppendIf(steps, tags, true, Codegen);
    steps := PlanChecks(tags, steps);
  }

  method PlanChecks(tags: set<Tag>, design: seq<Name>) returns (steps: seq<Name>)
    requires IsPlanPrefix(design, tags, 7)
    ensures IsPlanPrefix(steps, tags, 12)
  {
    steps := design;
    steps := AppendIf(steps, tags, TestTag in tags || QaTag in tags, Testing);
    steps := AppendIf(steps, tags, SecurityTag in tags || AuthTag in tags, Security);
    steps := AppendIf(steps, tags, PerformanceTag in tags || HighLoadTag in tags, Optimization);
    steps := PlanEnd(tags, steps);
  }

  method PlanEnd(ghost tags: set<Tag>, checks: seq<Name>) returns (steps: seq<Name>)
    requires IsPlanPrefix(checks, tags, 10)
    ensures IsPlanPrefix(steps, tags, 12)
  {
    steps := AppendIf(checks, tags, true, Deployment);
    steps := AppendIf(steps, tags, true, Review);
  }

  /** `StepPlanner.plan`. Every plan lists its steps once
  each, in the fixed order, with a repair step right after the analysis when there is something to repair. */
  method Plan(tags: set<Tag>, complexity: Complexity, hasErrors: bool, hasAttempts: bool) returns (steps: seq<Name>)
    ensures InPlanOrder(steps)
    ensures IsMinimal(complexity) ==> steps == [Analysis, Architecture, Stack, Codegen, Review]
    ensures !IsMinimal(complexity) ==> forall n :: n in steps <==> Wanted(n, tags, hasErrors && hasAttempts)
    ensures !IsMinimal(complexity) ==>
      && (DataModel in steps <==> DataTag in tags || DatabaseTag in tags)
      && (ApiDesign in steps <==> ApiTag in tags || WebTag in tags || RestTag in tags)
      && (Testing in steps <==> TestTag in tags || QaTag in tags)
      && (Security in steps <==> SecurityTag in tags || AuthTag in tags)
      && (Optimization in steps <==> PerformanceTag in tags || HighLoadTag in tags)
      && (Repair in steps <==> hasErrors && hasAttempts)
  {
    if IsMinimal(complexity) {
      return MINIMAL_STEPS;
    }
    steps := PlanBase(tags);
    if hasErrors && hasAttempts {
      AnalysisFirst(steps, tags);
      RepairSecond(steps, tags);
      var insertAt := if Analysis in steps then 1 else 0;
      steps := steps[..insertAt] + [Repair] + steps[insertAt..];
    }
  }

  /** The `depends_on` lists of `_build_dag`. */
  function StepDeps(name: Name): seq<Name> {
    match name
    case Architecture => [Analysis]
    case Stack => [Architecture]
    case Components => [Architecture, Stack]
    case DataModel => [Components, Stack]
    case ApiDesign => [Components, Stack]
    case Codegen => [Stack, ApiDesign, DataModel, Components]
    case Testing => [Codegen, Stack, ApiDesign, Components]
    case Security => [Codegen, Stack, ApiDesign, Components]
    case Optimization => [Codegen, Stack, Components, Architecture]
    case Deployment => [Stack, Components]
    case Review => [Analysis, Architecture, Stack, Components, DataModel, ApiDesign,
                      Codegen, Testing, Security, Optimization, Deployment]
    case Repair => [Analysis]
    case _ => []
  }

  ghost predicate DepsKept(s: Step, planned: seq<Name>) {
    forall d :: d in s.dependsOn <==> d in StepDeps(s.name) && d in planned
  }

  /** The step graph of a plan: its built-in steps, once each, without the dependencies outside the plan. */
  ghost predicate IsDag(planned: seq<Name>, universe: seq<Name>, steps: seq<Step>) {
    && DistinctNames(steps)
    && (forall s :: s in steps ==> s.name in planned && s.name in universe && DepsKept(s, planned))
    && (forall n :: n in planned && n in universe ==> IsStep(steps, n))
  }

  /** `_build_dag`. */
  method BuildDag(planned: seq<Name>, universe: seq<Name>) returns (steps: seq<Step>)
    requires Distinct(universe)
    ensures IsDag(planned, universe, steps)
  {
    steps := [];
    for i := 0 to |universe|
      invariant IsDag(planned, universe[..i], steps)
    {
      var name := universe[i];
      assert universe[..i + 1] == universe[..i] + [name] && name !in universe[..i];
      DagGrows(planned, universe[..i], steps, name);
      if name in planned {
        steps := steps + [Step(name, Keep(StepDeps(name), planned))];
      }
    }
    assert universe[..|universe|] == universe;
  }

  lemma {:induction false} DagGrows(planned: seq<Name>, universe: seq<Name>, steps: seq<Step>, name: Name)
    requires IsDag(planned, universe, steps) && name !in universe
    ensures IsDag(planned, universe + [name], if name in planned then steps + [Step(name, Keep(StepDeps(name), planned))] else steps)
  {
    if name in planned {
      var step := Step(name, Keep(StepDeps(name), planned));
      var more := steps + [step];
      assert DepsKept(step, planned);
      assert forall j :: 0 <= j < |steps| ==> steps[j] in steps;
      assert forall s :: s in more <==> s in steps || s == step;
      forall n | n in planned && n in universe + [name] ensures IsStep(more, n) {
        if n == name {
          assert step in more;
        } else {
          var s :| s in steps && s.name == n;
          assert s in more;
        }
      }
    }
  }

  function Keep(deps: seq<Name>, planned: seq<Name>): (r: seq<Name>)
    ensures forall d :: d in r <==> d in deps && d in planned
  {
    if deps == [] then []
    else (if deps[0] in planned then [deps[0]] else []) + Keep(deps[1..], planned)
  }

  /** An order that every built-in dependency respects. */
  function Rank(name: Name): nat {
    match name
    case Analysis => 0 case Repair => 1 case Architecture => 1 case Stack => 2 case Components => 3
    case DataModel => 4 case ApiDesign => 4 case Deployment => 4 case Codegen => 5
    case Testing => 6 case Security => 6 case Optimization => 6 case Review => 7 case Other(_) => 0
  }

  lemma {:induction false} DependenciesRankLower(name: Name, d: Name)
    requires d in StepDeps(name)
    ensures Rank(d) < Rank(name) && d in ALL_STEPS
  {
    assert !d.Other? && d != Repair && d != Review;
    InAllSteps(d);
  }

  lemma {:induction false} InAllSteps(d: Name)
    requires !d.Other?
    ensures d in ALL_STEPS
  {
  }

  /** Whatever is planned, the filtered graph loses no step. */
  lemma {:induction false} NoStepIsLost(planned: seq<Name>, steps: seq<Step>, levels: seq<seq<Step>>, s: Step)
    requires IsDag(planned, ALL_STEPS, steps) && IsSchedule(steps, levels) && s in steps
    ensures s.name in Placed(levels)
    decreases Rank(s.name)
  {
    assert DepsKept(s, planned);
    forall d | d in s.dependsOn ensures d in Placed(levels) {
      DependenciesRankLower(s.name, d);
      var t :| t in steps && t.name == d;
      NoStepIsLost(planned, steps, levels, t);
    }
  }

  /** The steps that wait for a step: the dependency table read the other way round. */
  function WaitsFor(d: Name): set<Name> {
    match d
    case Analysis => {Repair, Architecture, Review}
    case Architecture => {Stack, Components, Optimization, Review}
    case Stack => {Components, DataModel, ApiDesign, Codegen, Testing, Security, Optimization, Deployment, Review}
    case Components => {DataModel, ApiDesign, Codegen, Testing, Security, Optimization, Deployment, Review}
    case DataModel => {Codegen, Review}
    case ApiDesign => {Codegen, Testing, Security, Review}
    case Codegen => {Testing, Security, Optimization, Review}
    case Testing => {Review}
    case Security => {Review}
    case Optimization => {Review}
    case Deployment => {Review}
    case _ => {}
  }

  lemma {:induction false} TableReadsBothWays(d: Name, n: Name)
    ensures d in StepDeps(n) <==> n in WaitsFor(d)
  {
    if n == Review {
      ReviewWaitsForAll(d);
    }
  }

  lemma {:induction false} ReviewWaitsForAll(d: Name)
    ensures d in StepDeps(Review) <==> Review in WaitsFor(d)
    ensures d in StepDeps(Review) <==> d != Repair && d != Review && !d.Other?
  {
  }

  /** In a plan, a step of an earlier stage comes first; only the repair step is waited for by nothing, and the deployment
  step by the review alone. */
  predicate ComesFirst(a: Name, b: Name) {
    Rank(a) < Rank(b) && !b.Other? && !a.Other? && a != Repair && (a == Deployment ==> b == Review)
    && (b == Repair ==> a == Analysis)
  }

  /** A planned step between two, if there is no direct dependency. */
  lemma {:induction false} Between(a: Name, b: Name) returns (m: Name)
    requires ComesFirst(a, b) && a !in StepDeps(b)
    ensures m in {Architecture, Stack, Codegen} && m in StepDeps(b) && ComesFirst(a, m)
  {
    match b
    case Stack => m := Architecture;
    case Components => m := Architecture;
    case Testing => m := Codegen;
    case Security => m := Codegen;
    case Optimization => m := Codegen;
    case _ => m := Stack;
  }

  /** In every plan with the steps that all plans have, steps run stage by stage. */
  lemma {:induction false} StagesAreOrdered(planned: seq<Name>, steps: seq<Step>, levels: seq<seq<Step>>, k: nat, s: Step, a: Name)
    returns (j: nat, t: Step)
    requires IsDag(planned, ALL_STEPS, steps) && IsSchedule(steps, levels)
    requires Architecture in planned && Stack in planned && Codegen in planned && a in planned
    requires k < |levels| && s in levels[k] && ComesFirst(a, s.name)
    ensures j < k && t in levels[j] && t.name == a
    decreases Rank(s.name)
  {
    assert LevelAt(steps, levels, k) && DepsKept(s, planned);
    if a in StepDeps(s.name) {
      j, t := DependencyIsEarlier(steps, levels, k, s, a);
    } else {
      var m := Between(a, s.name);
      DependenciesRankLower(s.name, m);
      var i, u := DependencyIsEarlier(steps, levels, k, s, m);
      j, t := StagesAreOrdered(planned, steps, levels, i, u, a);
    }
  }

  lemma {:induction false} NextStageBelow(name: Name) returns (d: Name)
    requires Rank(name) > 0
    ensures d in StepDeps(name) && Rank(d) + 1 == Rank(name)
  {
    match name
    case Repair => d := Analysis;
    case Architecture => d := Analysis;
    case Stack => d := Architecture;
    case Components => d := Stack;
    case DataModel => d := Components;
    case ApiDesign => d := Components;
    case Deployment => d := Components;
    case Codegen => d := ApiDesign;
    case Review => d := Testing;
    case _ => d := Codegen;
  }

  /** In every plan, no step is later than its stage. */
  lemma {:induction false} LevelAtMostStage(planned: seq<Name>, steps: seq<Step>, levels: seq<seq<Step>>, k: nat, s: Step)
    requires IsDag(planned, ALL_STEPS, steps) && IsSchedule(steps, levels) && k < |levels| && s in levels[k]
    ensures k <= Rank(s.name)
    decreases k
  {
    if k > 0 {
      assert LevelAt(steps, levels, k);
      assert DepsKept(s, planned);
      var below := DependencyJustBelow(steps, levels, k, s);
      DependenciesRankLower(s.name, below.name);
      LevelAtMostStage(planned, steps, levels, k - 1, below);
    }
  }

  lemma {:induction false} LevelAtLeastStage(planned: seq<Name>, steps: seq<Step>, levels: seq<seq<Step>>, k: nat, s: Step)
    requires IsDag(planned, ALL_STEPS, steps) && IsSchedule(steps, levels) && k < |levels| && s in levels[k]
    requires forall n :: n in ALL_STEPS ==> n in planned
    ensures k >= Rank(s.name)
    decreases k
  {
    if Rank(s.name) > 0 {
      assert LevelAt(steps, levels, k);
      assert DepsKept(s, planned);
      var d := NextStageBelow(s.name);
      DependenciesRankLower(s.name, d);
      var j, t := DependencyIsEarlier(steps, levels, k, s, d);
      LevelAtLeastStage(planned, steps, levels, j, t);
    }
  }

  /** When everything is planned, each step is in the level of its stage. */
  lemma {:induction false} FullPlanLevels(planned: seq<Name>, steps: seq<Step>, levels: seq<seq<Step>>, s: Step)
    requires IsDag(planned, ALL_STEPS, steps) && IsSchedule(steps, levels) && s in steps
    requires forall n :: n in ALL_STEPS ==> n in planned
    ensures Rank(s.name) < |levels| && s in levels[Rank(s.name)]
  {
    NoStepIsLost(planned, steps, levels, s);
    var k, u := LevelOfName(levels, |levels|, s.name);
    assert LevelAt(steps, levels, k);
    SameNameSameStep(steps, s, u);
    LevelAtMostStage(planned, steps, levels, k, s);
    LevelAtLeastStage(planned, steps, levels, k, s);
  }

  /** Although the planner lists the repair step before the architecture step, the graph does not
  order them: both run in the second level. */
  lemma {:induction false} RepairRunsBesideArchitecture(planned: seq<Name>, steps: seq<Step>, levels: seq<seq<Step>>, r: Step, a: Step)
    requires IsDag(planned, ALL_STEPS, steps) && IsSchedule(steps, levels) && Analysis in planned
    requires r in steps && r.name == Repair && a in steps && a.name == Architecture
    ensures |levels| > 1 && r in levels[1] && a in levels[1]
  {
    forall s | s in steps && (s.name == Repair || s.name == Architecture) ensures |levels| > 1 && s in levels[1] {
      NoStepIsLost(planned, steps, levels, s);
      var k, t := LevelOfName(levels, |levels|, s.name);
      assert LevelAt(steps, levels, k);
      SameNameSameStep(steps, s, t);
      assert DepsKept(s, planned) && Analysis in s.dependsOn;
      var j, u := DependencyIsEarlier(steps, levels, k, s, Analysis);
      var below := DependencyJustBelow(steps, levels, k, s);
      assert below.name == Analysis;
      SameNameSameStep(steps, below, u);
      assert DepsKept(below, planned);
      assert forall d :: d !in below.dependsOn;
      if k > 1 {
        var lower := DependencyJustBelow(steps, levels, k - 1, below);
      }
    }
  }

  /** From a plan to its levels: every planned built-in step is scheduled, and nothing else. */
  method ScheduleOf(planned: seq<Name>) returns (steps: seq<Step>, levels: seq<seq<Step>>)
    ensures IsDag(planned, ALL_STEPS, steps) && IsSchedule(steps, levels)
    ensures forall n :: n in Placed(levels) <==> n in planned && n in ALL_STEPS
  {
    steps := BuildDag(planned, ALL_STEPS);
    levels := TopologicalLevels(steps);
    forall n | n in planned && n in ALL_STEPS ensures n in Placed(levels) {
      assert IsStep(steps, n);
      var s :| s in steps && s.name == n;
      NoStepIsLost(planned, steps, levels, s);
    }
    forall n | n in Placed(levels) ensures n in planned && n in ALL_STEPS {
      var k, s := LevelOfName(levels, |levels|, n);
      assert LevelAt(steps, levels, k);
    }
  }
}
