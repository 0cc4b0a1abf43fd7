/** The execution loop of `ChainOfThought.reason` as a state machine. Within a level the launched tasks
finish in any order, with any outcome, possibly while later tasks are still being launched; outcomes
are settled in launch order once all tasks of the level have finished. */
module StepMachine {
  import opened Scheduler
  import opened Sequences

  datatype Status = Pending | Running | Completed | Skipped | Failed

  /** How `_execute_step` ends. */
  datatype Outcome = Returned(result: string) | SkippedWith(note: string) | Raised(message: string)

  datatype Phase = Launching(i: nat) | Gathering | Settling(j: nat)

  /** `tasks` are those of the current level, in launch order; `outcomes` of all tasks that have finished. */
  datatype State = State(
    status: map<Name, Status>, result: map<Name, string>, context: map<Name, string>, completed: nat,
    level: nat, phase: Phase, tasks: seq<Name>, outcomes: map<Name, Outcome>)

  datatype Move = Launch | Finish(name: Name, outcome: Outcome) | Gather | StartSettling | Settle | NextLevel

  predicate IsSettled(s: Status) {
    s == Completed || s == Skipped || s == Failed
  }

  function StatusOf(st: State, n: Name): Status {
    if n in st.status then st.status[n] else Pending
  }

  function ResultOf(st: State, n: Name): string {
    if n in st.result then st.result[n] else ""
  }

  /** Restored steps start out completed, with their checkpointed result in the context. */
  function Init(steps: seq<Step>, resume: map<Name, string>): State {
    var restored := map n | n in Names(steps) && n in resume :: resume[n];
    State(map n | n in Names(steps) :: if n in resume then Completed else Pending,
          restored, restored, 0, 0, Launching(0), [], map[])
  }

  predicate CanLaunch(levels: seq<seq<Step>>, st: State) {
    st.level < |levels| && st.phase.Launching? && st.phase.i < |levels[st.level]|
  }

  function LaunchNext(levels: seq<seq<Step>>, st: State): State
    requires CanLaunch(levels, st)
  {
    var n, next := levels[st.level][st.phase.i].name, Launching(st.phase.i + 1);
    if StatusOf(st, n) == Skipped || StatusOf(st, n) == Completed
    then st.(completed := st.completed + 1, phase := next)
    else st.(status := st.status[n := Running], tasks := st.tasks + [n], phase := next)
  }

  predicate CanFinish(st: State, n: Name) {
    !st.phase.Settling? && n in st.tasks && n !in st.outcomes
  }

  function FinishTask(st: State, n: Name, o: Outcome): State {
    var st' := st.(outcomes := st.outcomes[n := o]);
    match o
    case Returned(r) => st'.(result := st.result[n := r])
    case SkippedWith(note) => st'.(status := st.status[n := Skipped], result := st.result[n := note])
    case Raised(_) => st'
  }

  predicate CanSettle(st: State) {
    st.phase.Settling? && st.phase.j < |st.tasks| && st.tasks[st.phase.j] in st.outcomes
  }

  function SettleNext(st: State): State
    requires CanSettle(st)
  {
    var n := st.tasks[st.phase.j];
    var st' := st.(completed := st.completed + 1, phase := Settling(st.phase.j + 1));
    match st.outcomes[n]
    case Raised(m) => st'.(status := st.status[n := Failed], result := st.result[n := "Error: " + m])
    case _ =>
      if StatusOf(st, n) == Skipped then st'
      else st'.(status := st.status[n := Completed], context := st.context[n := ResultOf(st, n)])
  }

  predicate Enabled(levels: seq<seq<Step>>, st: State, move: Move) {
    match move
    case Launch => CanLaunch(levels, st)
    case Finish(n, _) => CanFinish(st, n)
    case Gather => st.level < |levels| && st.phase == Launching(|levels[st.level]|)
    case StartSettling => st.phase == Gathering && forall n :: n in st.tasks ==> n in st.outcomes
    case Settle => CanSettle(st)
    case NextLevel => st.phase == Settling(|st.tasks|)
  }

  /** One move; a move that is not enabled changes nothing. */
  function Apply(levels: seq<seq<Step>>, st: State, move: Move): State {
    if !Enabled(levels, st, move) then st
    else
      match move
      case Launch => LaunchNext(levels, st)
      case Finish(n, o) => FinishTask(st, n, o)
      case Gather => st.(phase := Gathering)
      case StartSettling => st.(phase := Settling(0))
      case Settle => SettleNext(st)
      case NextLevel => st.(level := st.level + 1, phase := Launching(0), tasks := [])
  }

  function Run(levels: seq<seq<Step>>, st: State, moves: seq<Move>): State {
    if moves == [] then st else Apply(levels, Run(levels, st, moves[..|moves| - 1]), moves[|moves| - 1])
  }

  // ---------- the invariant ----------

  /** Every name occurs at one place of the schedule. */
  ghost predicate NoRepeats(levels: seq<seq<Step>>) {
    forall m, p, m', p' :: 0 <= m < |levels| && 0 <= p < |levels[m]| && 0 <= m' < |levels| && 0 <= p' < |levels[m']| ==>
      levels[m][p].name == levels[m'][p'].name ==> m == m' && p == p'
  }

  /** The tasks launched for the first `i` steps of a level: all but the restored ones. */
  function TasksOf(level: seq<Step>, restored: set<Name>, i: nat): seq<Name>
    requires i <= |level|
  {
    if i == 0 then []
    else TasksOf(level, restored, i - 1) + if level[i - 1].name in restored then [] else [level[i - 1].name]
  }

  function SumSizes(levels: seq<seq<Step>>, k: nat): nat
    requires k <= |levels|
  {
    if k == 0 then 0 else SumSizes(levels, k - 1) + |levels[k - 1]|
  }

  /** How many steps of the current level have been visited by the launch loop. */
  function Visited(levels: seq<seq<Step>>, st: State): nat
    requires st.level < |levels|
  {
    if st.phase.Launching? then st.phase.i else |levels[st.level]|
  }

  /** A step whose outcome was settled: its status, result and context say how it ended. */
  ghost predicate EndedAs(st: State, n: Name, o: Outcome) {
    match o
    case Returned(r) => StatusOf(st, n) == Completed && ResultOf(st, n) == r
    case SkippedWith(note) => StatusOf(st, n) == Skipped && ResultOf(st, n) == note
    case Raised(m) => StatusOf(st, n) == Failed && ResultOf(st, n) == "Error: " + m
  }

  ghost predicate Ended(st: State, n: Name) {
    n in st.outcomes && EndedAs(st, n, st.outcomes[n])
  }

  /** A step whose task has not been settled yet. */
  ghost predicate InFlight(st: State, n: Name) {
    if n !in st.outcomes then StatusOf(st, n) == Running
    else
      match st.outcomes[n]
      case Returned(r) => StatusOf(st, n) == Running && ResultOf(st, n) == r
      case SkippedWith(note) => StatusOf(st, n) == Skipped && ResultOf(st, n) == note
      case Raised(_) => StatusOf(st, n) == Running
  }

  ghost predicate TaskOk(st: State, n: Name) {
    if st.phase.Settling? && st.phase.j <= |st.tasks| && n in st.tasks[..st.phase.j] then Ended(st, n)
    else InFlight(st, n)
  }

  ghost predicate NameOk(levels: seq<seq<Step>>, restored: set<Name>, st: State, m: nat, p: nat)
    requires m < |levels| && p < |levels[m]|
  {
    var n := levels[m][p].name;
    if n in restored then StatusOf(st, n) == Completed && n !in st.outcomes
    else if m < st.level then Ended(st, n)
    else if m > st.level || p >= Visited(levels, st) then StatusOf(st, n) == Pending && n !in st.outcomes
    else TaskOk(st, n)
  }

  ghost predicate PhaseOk(levels: seq<seq<Step>>, restored: set<Name>, st: State) {
    if st.level >= |levels| then st.level == |levels| && st.phase == Launching(0) && st.tasks == []
    else
      && Visited(levels, st) <= |levels[st.level]|
      && st.tasks == TasksOf(levels[st.level], restored, Visited(levels, st))
      && (st.phase.Settling? ==> st.phase.j <= |st.tasks| && forall n :: n in st.tasks ==> n in st.outcomes)
  }

  /** The steps counted so far: earlier levels, restored steps passed over, outcomes settled. */
  function Counted(levels: seq<seq<Step>>, st: State): int {
    if st.level >= |levels| then SumSizes(levels, |levels|)
    else SumSizes(levels, st.level) + Visited(levels, st) - |st.tasks| + if st.phase.Settling? then st.phase.j else 0
  }

  /** The context holds a result for exactly the completed steps, and it is theirs. */
  ghost predicate ContextOk(st: State) {
    && (forall n :: n in st.context <==> n in st.status && st.status[n] == Completed)
    && (forall n :: n in st.context ==> st.context[n] == ResultOf(st, n))
  }

  ghost predicate Inv(levels: seq<seq<Step>>, resume: map<Name, string>, restored: set<Name>, st: State) {
    && PhaseOk(levels, restored, st)
    && (forall m, p :: 0 <= m < |levels| && 0 <= p < |levels[m]| ==> NameOk(levels, restored, st, m, p))
    && ContextOk(st)
    && (forall n :: n in restored ==> n in resume && n in st.context && st.context[n] == resume[n])
    && st.completed == Counted(levels, st)
  }

  // ---------- every move keeps the invariant ----------

  lemma {:induction false} TaskPosition(level: seq<Step>, restored: set<Name>, i: nat, n: Name) returns (p: nat)
    requires i <= |level| && n in TasksOf(level, restored, i)
    ensures p < i && level[p].name == n && n !in restored
  {
    if level[i - 1].name == n && n !in restored {
      p := i - 1;
    } else {
      p := TaskPosition(level, restored, i - 1, n);
    }
  }

  lemma {:induction false} VisitedIsTask(level: seq<Step>, restored: set<Name>, i: nat, p: nat)
    requires p < i <= |level| && level[p].name !in restored
    ensures level[p].name in TasksOf(level, restored, i)
  {
    if p < i - 1 {
      VisitedIsTask(level, restored, i - 1, p);
    }
  }

  lemma {:induction false} NotYetTask(levels: seq<seq<Step>>, m: nat, restored: set<Name>, i: nat)
    requires NoRepeats(levels) && m < |levels| && i < |levels[m]|
    ensures levels[m][i].name !in TasksOf(levels[m], restored, i)
  {
    var n := levels[m][i].name;
    if n in TasksOf(levels[m], restored, i) {
      var p := TaskPosition(levels[m], restored, i, n);
    }
  }

  lemma {:induction false} TasksAreDistinct(levels: seq<seq<Step>>, m: nat, restored: set<Name>, i: nat)
    requires NoRepeats(levels) && m < |levels| && i <= |levels[m]|
    ensures Distinct(TasksOf(levels[m], restored, i))
  {
    if i > 0 {
      TasksAreDistinct(levels, m, restored, i - 1);
      NotYetTask(levels, m, restored, i - 1);
      var t := TasksOf(levels[m], restored, i - 1);
      assert forall a :: 0 <= a < |t| ==> t[a] in t;
    }
  }

  /** A launched step was pending; a step passed over was restored. */
  lemma {:induction false} LaunchCases(levels: seq<seq<Step>>, resume: map<Name, string>, restored: set<Name>, st: State)
    requires NoRepeats(levels) && Inv(levels, resume, restored, st) && CanLaunch(levels, st)
    ensures var n := levels[st.level][st.phase.i].name;
            && StatusOf(st, n) == (if n in restored then Completed else Pending)
            && n !in st.tasks && n !in st.outcomes
  {
    assert NameOk(levels, restored, st, st.level, st.phase.i);
    NotYetTask(levels, st.level, restored, st.phase.i);
  }

  lemma {:induction false} LaunchKeepsNames(levels: seq<seq<Step>>, resume: map<Name, string>, restored: set<Name>, st: State)
    requires NoRepeats(levels) && Inv(levels, resume, restored, st) && CanLaunch(levels, st)
    ensures var st' := LaunchNext(levels, st);
            forall m, p :: 0 <= m < |levels| && 0 <= p < |levels[m]| ==> NameOk(levels, restored, st', m, p)
  {
    var st', k, i := LaunchNext(levels, st), st.level, st.phase.i;
    LaunchCases(levels, resume, restored, st);
    forall m, p | 0 <= m < |levels| && 0 <= p < |levels[m]| ensures NameOk(levels, restored, st', m, p) {
      assert NameOk(levels, restored, st, m, p);
      assert levels[m][p].name == levels[k][i].name ==> m == k && p == i;
    }
  }

  lemma {:induction false} LaunchKeeps(levels: seq<seq<Step>>, resume: map<Name, string>, restored: set<Name>, st: State)
    requires NoRepeats(levels) && Inv(levels, resume, restored, st) && CanLaunch(levels, st)
    ensures Inv(levels, resume, restored, LaunchNext(levels, st))
  {
    LaunchCases(levels, resume, restored, st);
    LaunchKeepsNames(levels, resume, restored, st);
  }

  lemma {:induction false} FinishKeeps(levels: seq<seq<Step>>, resume: map<Name, string>, restored: set<Name>, st: State, n: Name, o: Outcome)
    requires NoRepeats(levels) && Inv(levels, resume, restored, st) && CanFinish(st, n)
    ensures Inv(levels, resume, restored, FinishTask(st, n, o))
  {
    var q := TaskPosition(levels[st.level], restored, Visited(levels, st), n);
    assert NameOk(levels, restored, st, st.level, q);
    FinishKeepsNames(levels, restored, st, n, o, q);
    FinishKeepsContext(st, n, o);
  }

  lemma {:induction false} FinishKeepsContext(st: State, n: Name, o: Outcome)
    requires ContextOk(st) && StatusOf(st, n) == Running
    ensures ContextOk(FinishTask(st, n, o)) && FinishTask(st, n, o).context == st.context
  {
    assert n !in st.context;
  }

  lemma {:induction false} FinishKeepsNames(levels: seq<seq<Step>>, restored: set<Name>, st: State, n: Name, o: Outcome, q: nat)
    requires NoRepeats(levels) && st.level < |levels| && q < Visited(levels, st) <= |levels[st.level]|
    requires levels[st.level][q].name == n && n !in restored && CanFinish(st, n)
    requires forall m, p :: 0 <= m < |levels| && 0 <= p < |levels[m]| ==> NameOk(levels, restored, st, m, p)
    ensures var st' := FinishTask(st, n, o);
            forall m, p :: 0 <= m < |levels| && 0 <= p < |levels[m]| ==> NameOk(levels, restored, st', m, p)
  {
    var st' := FinishTask(st, n, o);
    assert NameOk(levels, restored, st, st.level, q);
    forall m, p | 0 <= m < |levels| && 0 <= p < |levels[m]| ensures NameOk(levels, restored, st', m, p) {
      FinishKeepsPlace(levels, restored, st, n, o, q, m, p);
    }
  }

  lemma {:induction false} FinishKeepsPlace(levels: seq<seq<Step>>, restored: set<Name>, st: State, n: Name, o: Outcome, q: nat, m: nat, p: nat)
    requires NoRepeats(levels) && st.level < |levels| && q < Visited(levels, st) <= |levels[st.level]|
    requires levels[st.level][q].name == n && n !in restored && CanFinish(st, n)
    requires NameOk(levels, restored, st, st.level, q)
    requires m < |levels| && p < |levels[m]| && NameOk(levels, restored, st, m, p)
    ensures NameOk(levels, restored, FinishTask(st, n, o), m, p)
  {
    assert levels[m][p].name == levels[st.level][q].name ==> m == st.level && p == q;
  }

  /** The task whose outcome is settled next is running or skipped, and was not settled before. */
  lemma {:induction false} SettleCases(levels: seq<seq<Step>>, resume: map<Name, string>, restored: set<Name>, st: State) returns (q: nat)
    requires NoRepeats(levels) && Inv(levels, resume, restored, st) && CanSettle(st)
    ensures st.level < |levels| && q < |levels[st.level]| && levels[st.level][q].name == st.tasks[st.phase.j]
    ensures var n := st.tasks[st.phase.j];
            && n !in restored && n !in st.tasks[..st.phase.j]
            && InFlight(st, n)
  {
    var k, j := st.level, st.phase.j;
    var n := st.tasks[j];
    TasksAreDistinct(levels, k, restored, Visited(levels, st));
    assert forall a :: 0 <= a < j ==> st.tasks[a] != n;
    q := TaskPosition(levels[k], restored, Visited(levels, st), n);
    assert NameOk(levels, restored, st, k, q);
  }

  lemma {:induction false} SettleKeepsNames(levels: seq<seq<Step>>, resume: map<Name, string>, restored: set<Name>, st: State)
    requires NoRepeats(levels) && Inv(levels, resume, restored, st) && CanSettle(st)
    ensures var st' := SettleNext(st);
            forall m, p :: 0 <= m < |levels| && 0 <= p < |levels[m]| ==> NameOk(levels, restored, st', m, p)
  {
    var st' := SettleNext(st);
    var q := SettleCases(levels, resume, restored, st);
    forall m, p | 0 <= m < |levels| && 0 <= p < |levels[m]| ensures NameOk(levels, restored, st', m, p) {
      SettleKeepsPlace(levels, restored, st, q, m, p);
    }
  }

  lemma {:induction false} SettleKeepsPlace(levels: seq<seq<Step>>, restored: set<Name>, st: State, q: nat, m: nat, p: nat)
    requires NoRepeats(levels) && st.level < |levels| && q < |levels[st.level]| && CanSettle(st)
    requires levels[st.level][q].name == st.tasks[st.phase.j] && st.tasks[st.phase.j] !in restored
    requires InFlight(st, st.tasks[st.phase.j])
    requires m < |levels| && p < |levels[m]| && NameOk(levels, restored, st, m, p)
    ensures NameOk(levels, restored, SettleNext(st), m, p)
  {
    var j := st.phase.j;
    assert st.tasks[..j + 1] == st.tasks[..j] + [st.tasks[j]];
    assert levels[m][p].name == levels[st.level][q].name ==> m == st.level && p == q;
  }

  lemma {:induction false} SettleKeepsContext(st: State)
    requires CanSettle(st) && ContextOk(st) && StatusOf(st, st.tasks[st.phase.j]) in {Running, Skipped}
    ensures ContextOk(SettleNext(st))
    ensures forall x :: x in st.context ==> x in SettleNext(st).context && SettleNext(st).context[x] == st.context[x]
  {
    var n, st' := st.tasks[st.phase.j], SettleNext(st);
    assert n !in st.context;
    forall x ensures x in st'.context <==> x in st'.status && st'.status[x] == Completed {
      assert x != n ==> (x in st'.context <==> x in st.context);
    }
    forall x | x in st'.context ensures st'.context[x] == ResultOf(st', x) {
      assert x != n ==> x in st.context;
    }
  }

  lemma {:induction false} SettleKeepsCount(levels: seq<seq<Step>>, restored: set<Name>, st: State)
    requires st.level < |levels| && PhaseOk(levels, restored, st) && CanSettle(st) && st.completed == Counted(levels, st)
    ensures PhaseOk(levels, restored, SettleNext(st)) && SettleNext(st).completed == Counted(levels, SettleNext(st))
  {
  }

  lemma {:induction false} SettleKeeps(levels: seq<seq<Step>>, resume: map<Name, string>, restored: set<Name>, st: State)
    requires NoRepeats(levels) && Inv(levels, resume, restored, st) && CanSettle(st)
    ensures Inv(levels, resume, restored, SettleNext(st))
  {
    var _ := SettleCases(levels, resume, restored, st);
    SettleKeepsNames(levels, resume, restored, st);
    SettleKeepsContext(st);
    SettleKeepsCount(levels, restored, st);
  }

  lemma {:induction false} NextLevelKeeps(levels: seq<seq<Step>>, resume: map<Name, string>, restored: set<Name>, st: State)
    requires NoRepeats(levels) && Inv(levels, resume, restored, st) && Enabled(levels, st, NextLevel)
    ensures Inv(levels, resume, restored, Apply(levels, st, NextLevel))
  {
    var st', k := Apply(levels, st, NextLevel), st.level;
    assert st.tasks[..|st.tasks|] == st.tasks;
    forall m, p | 0 <= m < |levels| && 0 <= p < |levels[m]| ensures NameOk(levels, restored, st', m, p) {
      assert NameOk(levels, restored, st, m, p);
      if m == k && levels[m][p].name !in restored {
        VisitedIsTask(levels[k], restored, |levels[k]|, p);
      }
    }
  }

  lemma {:induction false} PhaseMoveKeeps(levels: seq<seq<Step>>, resume: map<Name, string>, restored: set<Name>, st: State, move: Move)
    requires Inv(levels, resume, restored, st) && (move == Gather || move == StartSettling)
    ensures Inv(levels, resume, restored, Apply(levels, st, move))
  {
    var st' := Apply(levels, st, move);
    forall m, p | 0 <= m < |levels| && 0 <= p < |levels[m]| ensures NameOk(levels, restored, st', m, p) {
      assert NameOk(levels, restored, st, m, p);
    }
  }

  lemma {:induction false} MoveKeeps(levels: seq<seq<Step>>, resume: map<Name, string>, restored: set<Name>, st: State, move: Move)
    requires NoRepeats(levels) && Inv(levels, resume, restored, st)
    ensures Inv(levels, resume, restored, Apply(levels, st, move))
  {
    if Enabled(levels, st, move) {
      match move
      case Launch => LaunchKeeps(levels, resume, restored, st);
      case Finish(n, o) => FinishKeeps(levels, resume, restored, st, n, o);
      case Gather => PhaseMoveKeeps(levels, resume, restored, st, move);
      case StartSettling => PhaseMoveKeeps(levels, resume, restored, st, move);
      case Settle => SettleKeeps(levels, resume, restored, st);
      case NextLevel => NextLevelKeeps(levels, resume, restored, st);
    }
  }

  // ---------- whole runs ----------

  lemma {:induction false} ScheduleHasNoRepeats(steps: seq<Step>, levels: seq<seq<Step>>)
    requires IsSchedule(steps, levels) && DistinctNames(steps)
    ensures NoRepeats(levels)
  {
    forall m, p, m', p' | 0 <= m < |levels| && 0 <= p < |levels[m]| && 0 <= m' < |levels| && 0 <= p' < |levels[m']|
                          && levels[m][p].name == levels[m'][p'].name
      ensures m == m' && p == p'
    {
      var s, t := levels[m][p], levels[m'][p'];
      assert LevelAt(steps, levels, m) && LevelAt(steps, levels, m');
      assert s in levels[m] && t in levels[m'];
      SameNameSameStep(steps, s, t);
      EmittedOnce(steps, levels, m, m', s);
    }
  }

  ghost function Restored(steps: seq<Step>, resume: map<Name, string>): set<Name> {
    set n | n in Names(steps) && n in resume
  }

  /** The invariant holds in every state of every run. */
  lemma {:induction false} InvariantHolds(steps: seq<Step>, levels: seq<seq<Step>>, resume: map<Name, string>, moves: seq<Move>)
    requires IsSchedule(steps, levels) && DistinctNames(steps)
    ensures Inv(levels, resume, Restored(steps, resume), Run(levels, Init(steps, resume), moves))
  {
    ScheduleHasNoRepeats(steps, levels);
    if moves == [] {
      InitialState(steps, levels, resume);
    } else {
      var prev := moves[..|moves| - 1];
      InvariantHolds(steps, levels, resume, prev);
      MoveKeeps(levels, resume, Restored(steps, resume), Run(levels, Init(steps, resume), prev), moves[|moves| - 1]);
    }
  }

  lemma {:induction false} InitialState(steps: seq<Step>, levels: seq<seq<Step>>, resume: map<Name, string>)
    requires IsSchedule(steps, levels)
    ensures Inv(levels, resume, Restored(steps, resume), Init(steps, resume))
  {
    forall m, p | 0 <= m < |levels| && 0 <= p < |levels[m]|
      ensures NameOk(levels, Restored(steps, resume), Init(steps, resume), m, p)
    {
      assert LevelAt(steps, levels, m) && levels[m][p] in levels[m];
      InNames(steps, levels[m][p]);
    }
  }

  /** A step is started only when all its dependencies are settled, in any reachable state. */
  lemma {:induction false} StartsAfterDependencies(steps: seq<Step>, levels: seq<seq<Step>>, resume: map<Name, string>, moves: seq<Move>, d: Name)
    requires IsSchedule(steps, levels) && DistinctNames(steps)
    ensures var st := Run(levels, Init(steps, resume), moves);
            CanLaunch(levels, st) && d in levels[st.level][st.phase.i].dependsOn ==> IsSettled(StatusOf(st, d))
  {
    var st := Run(levels, Init(steps, resume), moves);
    if CanLaunch(levels, st) && d in levels[st.level][st.phase.i].dependsOn {
      InvariantHolds(steps, levels, resume, moves);
      var j, t := DependencyIsEarlier(steps, levels, st.level, levels[st.level][st.phase.i], d);
      var p :| 0 <= p < |levels[j]| && levels[j][p] == t;
      assert NameOk(levels, Restored(steps, resume), st, j, p);
    }
  }

  /** A restored step is never executed and keeps its checkpointed result. */
  lemma {:induction false} RestoredIsNeverRun(steps: seq<Step>, levels: seq<seq<Step>>, resume: map<Name, string>, moves: seq<Move>, n: Name)
    requires IsSchedule(steps, levels) && DistinctNames(steps) && n in Names(steps) && n in resume
    ensures var st := Run(levels, Init(steps, resume), moves);
            n !in st.tasks && StatusOf(st, n) == Completed && n in st.context && st.context[n] == resume[n]
  {
    var st := Run(levels, Init(steps, resume), moves);
    InvariantHolds(steps, levels, resume, moves);
    if n in st.tasks {
      var _ := TaskPosition(levels[st.level], Restored(steps, resume), Visited(levels, st), n);
    }
  }

  lemma {:induction false} LevelsPartition(steps: seq<Step>, levels: seq<seq<Step>>, k: nat)
    requires IsSchedule(steps, levels) && k <= |levels|
    ensures |Before(levels, k)| == SumSizes(levels, k)
  {
    if k > 0 {
      LevelsPartition(steps, levels, k - 1);
      assert LevelAt(steps, levels, k - 1);
      DistinctNamesCount(levels[k - 1]);
      var level := levels[k - 1];
      assert forall i :: 0 <= i < |level| ==> level[i] in level;
      assert Before(levels, k - 1) !! Names(level);
    }
  }

  lemma {:induction false} DistinctNamesCount(level: seq<Step>)
    requires DistinctNames(level)
    ensures |Names(level)| == |level|
  {
    if level != [] {
      var init, last := level[..|level| - 1], level[|level| - 1];
      DistinctNamesCount(init);
      assert Names(level) == Names(init) + {last.name};
    }
  }

  /** When the last level is done, every scheduled step has ended, each as its own outcome says, each was
  counted once, and the context holds a result for exactly the completed ones. */
  lemma {:induction false} FinishedRun(steps: seq<Step>, levels: seq<seq<Step>>, resume: map<Name, string>, moves: seq<Move>)
    requires IsSchedule(steps, levels) && DistinctNames(steps)
    requires Run(levels, Init(steps, resume), moves).level == |levels|
    ensures var st := Run(levels, Init(steps, resume), moves);
            && (forall n :: n in Placed(levels) ==> IsSettled(StatusOf(st, n)))
            && (forall n :: n in Placed(levels) && n !in resume ==> Ended(st, n))
            && ContextOk(st)
            && st.completed == |Placed(levels)|
            && (Placed(levels) == Names(steps) ==> st.completed == |steps|)
  {
    var st := Run(levels, Init(steps, resume), moves);
    InvariantHolds(steps, levels, resume, moves);
    forall n | n in Placed(levels) ensures IsSettled(StatusOf(st, n)) && (n !in resume ==> Ended(st, n)) {
      var j, s := LevelOfName(levels, |levels|, n);
      var p :| 0 <= p < |levels[j]| && levels[j][p] == s;
      assert NameOk(levels, Restored(steps, resume), st, j, p);
    }
    LevelsPartition(steps, levels, |levels|);
    DistinctNamesCount(steps);
  }

  // ---------- outcomes are those of the moves ----------

  /** Move `k` of a run ends the task of a step, with an outcome. */
  ghost predicate FinishedAt(levels: seq<seq<Step>>, start: State, moves: seq<Move>, k: nat, n: Name, o: Outcome) {
    k < |moves| && moves[k] == Finish(n, o) && Enabled(levels, Run(levels, start, moves[..k]), moves[k])
  }

  lemma {:induction false} FinishedAtPrefix(levels: seq<seq<Step>>, start: State, moves: seq<Move>, k: nat, n: Name, o: Outcome, m: nat)
    requires k < m <= |moves|
    ensures FinishedAt(levels, start, moves, k, n, o) <==> FinishedAt(levels, start, moves[..m], k, n, o)
  {
    assert moves[..m][..k] == moves[..k];
  }

  /** One move changes the outcome of a step only by ending its task. */
  lemma {:induction false} MoveOutcome(levels: seq<seq<Step>>, st: State, move: Move, n: Name)
    ensures var after := Apply(levels, st, move).outcomes;
            && (n in st.outcomes ==> n in after && after[n] == st.outcomes[n])
            && (n !in st.outcomes && n in after ==> move == Finish(n, after[n]) && Enabled(levels, st, move))
            && (forall o :: move == Finish(n, o) && Enabled(levels, st, move) ==> n in after && after[n] == o)
  {
    if Enabled(levels, st, move) {
      match move
      case Finish(x, o) => assert Apply(levels, st, move).outcomes == st.outcomes[x := o];
      case _ => assert Apply(levels, st, move).outcomes == st.outcomes;
    }
  }

  lemma {:induction false} LastOutcome(levels: seq<seq<Step>>, start: State, moves: seq<Move>, n: Name)
    requires moves != []
    ensures var m := |moves| - 1;
            var before, after := Run(levels, start, moves[..m]).outcomes, Run(levels, start, moves).outcomes;
            && (n in before ==> n in after && after[n] == before[n])
            && (n !in before && n in after ==> FinishedAt(levels, start, moves, m, n, after[n]))
            && (forall o :: FinishedAt(levels, start, moves, m, n, o) ==> n in after && after[n] == o)
  {
    var m := |moves| - 1;
    MoveOutcome(levels, Run(levels, start, moves[..m]), moves[m], n);
  }

  /** An outcome is there because a task ended with it. */
  lemma {:induction false} OutcomeHasMove(levels: seq<seq<Step>>, start: State, moves: seq<Move>, n: Name) returns (k: nat)
    requires n !in start.outcomes
    ensures var st := Run(levels, start, moves);
            n in st.outcomes ==> FinishedAt(levels, start, moves, k, n, st.outcomes[n])
  {
    k := 0;
    if moves != [] {
      var m := |moves| - 1;
      var before := Run(levels, start, moves[..m]).outcomes;
      LastOutcome(levels, start, moves, n);
      if n in before {
        k := OutcomeHasMove(levels, start, moves[..m], n);
        FinishedAtPrefix(levels, start, moves, k, n, before[n], m);
      } else {
        k := m;
      }
    }
  }

  lemma {:induction false} LastFinish(levels: seq<seq<Step>>, start: State, moves: seq<Move>, n: Name, o: Outcome)
    requires moves != [] && FinishedAt(levels, start, moves, |moves| - 1, n, o)
    ensures var st := Run(levels, start, moves); n in st.outcomes && st.outcomes[n] == o
  {
    LastOutcome(levels, start, moves, n);
  }

  lemma {:induction false} OutcomeStays(levels: seq<seq<Step>>, start: State, moves: seq<Move>, n: Name)
    requires moves != []
    ensures var before, after := Run(levels, start, moves[..|moves| - 1]).outcomes, Run(levels, start, moves).outcomes;
            n in before ==> n in after && after[n] == before[n]
  {
    LastOutcome(levels, start, moves, n);
  }

  /** A task that ended with an outcome has it for ever. */
  lemma {:induction false} MoveHasOutcome(levels: seq<seq<Step>>, start: State, moves: seq<Move>, k: nat, n: Name, o: Outcome)
    requires FinishedAt(levels, start, moves, k, n, o)
    ensures var st := Run(levels, start, moves); n in st.outcomes && st.outcomes[n] == o
  {
    var m := |moves| - 1;
    if k < m {
      FinishedAtPrefix(levels, start, moves, k, n, o, m);
      MoveHasOutcome(levels, start, moves[..m], k, n, o);
      OutcomeStays(levels, start, moves, n);
    } else {
      LastFinish(levels, start, moves, n, o);
    }
  }

  /** A task ends once. */
  lemma {:induction false} FinishesOnce(levels: seq<seq<Step>>, start: State, moves: seq<Move>, j: nat, k: nat, n: Name, o: Outcome, p: Outcome)
    requires FinishedAt(levels, start, moves, j, n, o) && FinishedAt(levels, start, moves, k, n, p)
    ensures j == k && o == p
  {
    if j < k {
      FinishedAtPrefix(levels, start, moves, j, n, o, k);
      MoveHasOutcome(levels, start, moves[..k], j, n, o);
    } else if k < j {
      FinishedAtPrefix(levels, start, moves, k, n, p, j);
      MoveHasOutcome(levels, start, moves[..j], k, n, p);
    }
  }

  lemma {:induction false} FinishedIsPlaced(steps: seq<Step>, levels: seq<seq<Step>>, resume: map<Name, string>, moves: seq<Move>, k: nat, n: Name, o: Outcome)
    requires IsSchedule(steps, levels) && DistinctNames(steps) && FinishedAt(levels, Init(steps, resume), moves, k, n, o)
    ensures n in Placed(levels) && !(n in Names(steps) && n in resume)
  {
    var st, restored := Run(levels, Init(steps, resume), moves[..k]), Restored(steps, resume);
    InvariantHolds(steps, levels, resume, moves[..k]);
    assert st.level < |levels|;
    var p := TaskPosition(levels[st.level], restored, Visited(levels, st), n);
    InNames(levels[st.level], levels[st.level][p]);
    BeforeMonotone(levels, st.level + 1, |levels|);
  }

  /** How a step has ended, told by what its own task did: an answer is in the context, word for word, a skipped step and
  a failed one are not there, and the error message is kept. */
  ghost predicate TellsOutcome(st: State, n: Name, o: Outcome) {
    match o
    case Returned(r) => StatusOf(st, n) == Completed && n in st.context && st.context[n] == r
    case SkippedWith(note) => StatusOf(st, n) == Skipped && n !in st.context && ResultOf(st, n) == note
    case Raised(m) => StatusOf(st, n) == Failed && n !in st.context && ResultOf(st, n) == "Error: " + m
  }

  /** At the end of every run each scheduled step that was not restored has ended by exactly one move, and the final state
  says what that move said. */
  lemma {:induction false} EndsAsItsTaskDid(steps: seq<Step>, levels: seq<seq<Step>>, resume: map<Name, string>, moves: seq<Move>, n: Name)
    returns (k: nat, o: Outcome)
    requires IsSchedule(steps, levels) && DistinctNames(steps) && n in Placed(levels) && n !in resume
    requires Run(levels, Init(steps, resume), moves).level == |levels|
    ensures var start := Init(steps, resume);
            && FinishedAt(levels, start, moves, k, n, o) && TellsOutcome(Run(levels, start, moves), n, o)
            && forall j, p :: FinishedAt(levels, start, moves, j, n, p) ==> j == k && p == o
  {
    var start := Init(steps, resume);
    var st := Run(levels, start, moves);
    FinishedRun(steps, levels, resume, moves);
    k := OutcomeHasMove(levels, start, moves, n);
    o := st.outcomes[n];
    forall j, p | FinishedAt(levels, start, moves, j, n, p) ensures j == k && p == o {
      FinishesOnce(levels, start, moves, j, k, n, p, o);
    }
  }

  /** Tasks end in any order and in any way: whatever was launched and has not ended may end now. */
  lemma {:induction false} AnyTaskMayFinish(steps: seq<Step>, levels: seq<seq<Step>>, resume: map<Name, string>, moves: seq<Move>, n: Name, o: Outcome)
    requires IsSchedule(steps, levels) && DistinctNames(steps)
    ensures var st := Run(levels, Init(steps, resume), moves);
            Enabled(levels, st, Finish(n, o)) <==> n in st.tasks && n !in st.outcomes
  {
    InvariantHolds(steps, levels, resume, moves);
  }

  /** For every plan: when the last level is done, every planned built-in step has ended and the counter has reached
  the number of steps. */
  lemma {:induction false} FinishedPlan(planned: seq<Name>, steps: seq<Step>, levels: seq<seq<Step>>, resume: map<Name, string>, moves: seq<Move>)
    requires IsDag(planned, ALL_STEPS, steps) && IsSchedule(steps, levels)
    requires Run(levels, Init(steps, resume), moves).level == |levels|
    ensures var st := Run(levels, Init(steps, resume), moves);
            && (forall n :: n in planned && n in ALL_STEPS ==> IsSettled(StatusOf(st, n)))
            && st.completed == |steps|
  {
    AllArePlaced(planned, steps, levels);
    FinishedRun(steps, levels, resume, moves);
    forall n | n in planned && n in ALL_STEPS ensures n in Placed(levels) {
      assert IsStep(steps, n);
    }
  }

  lemma {:induction false} AllArePlaced(planned: seq<Name>, steps: seq<Step>, levels: seq<seq<Step>>)
    requires IsDag(planned, ALL_STEPS, steps) && IsSchedule(steps, levels)
    ensures Placed(levels) == Names(steps)
  {
    forall n | n in Names(steps) ensures n in Placed(levels) {
      var i :| 0 <= i < |steps| && steps[i].name == n;
      NoStepIsLost(planned, steps, levels, steps[i]);
    }
    forall n | n in Placed(levels) ensures n in Names(steps) {
      var k, s := LevelOfName(levels, |levels|, n);
      assert LevelAt(steps, levels, k);
      InNames(steps, s);
    }
  }

  /** Until the last level is done some move is always enabled: the loop cannot get stuck. */
  lemma {:induction false} NeverStuck(steps: seq<Step>, levels: seq<seq<Step>>, resume: map<Name, string>, moves: seq<Move>) returns (move: Move)
    requires IsSchedule(steps, levels) && DistinctNames(steps)
    requires Run(levels, Init(steps, resume), moves).level < |levels|
    ensures Enabled(levels, Run(levels, Init(steps, resume), moves), move)
  {
    var st := Run(levels, Init(steps, resume), moves);
    InvariantHolds(steps, levels, resume, moves);
    match st.phase
    case Launching(i) => move := if i < |levels[st.level]| then Launch else Gather;
    case Gathering =>
      if n :| n in st.tasks && n !in st.outcomes {
        move := Finish(n, Returned(""));
      } else {
        move := StartSettling;
      }
    case Settling(j) => move := if j < |st.tasks| then Settle else NextLevel;
  }
}
