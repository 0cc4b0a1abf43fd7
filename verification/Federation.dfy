/** Fan-out and re-join of noema/federation/router.py as a state machine. Sub-tasks run concurrently;
which peers are healthy, whether a peer or the local executor answers, and in what order, is arbitrary. */
module Federation {
  import opened Bytes
  import opened Ledger
  import opened Sequences

  datatype Config = Config(taskId: string, subtasks: seq<string>, nodeId: string, hasLocal: bool)

  /** What `execute` fans out; an empty list of sub-tasks stands for the title itself. */
  function ConfigFor(title: string, taskId: string, requested: seq<string>, nodeId: string, hasLocal: bool): (c: Config)
    ensures requested == [] ==> c.subtasks == [title]
    ensures requested != [] ==> c.subtasks == requested
    ensures c.taskId == taskId && c.nodeId == nodeId && c.hasLocal == hasLocal
  {
    Config(taskId, if requested == [] then [title] else requested, nodeId, hasLocal)
  }

  datatype Response = Response(tokensInput: int, tokensOutput: int, costUsd: real)

  datatype Status = Delegated | Local | Failed

  datatype DelegationResult = DelegationResult(
    subtaskId: string, description: string, peer: string, status: Status, response: Response, attempts: nat)

  /** Where one `delegate` call stands. */
  datatype Task = NotStarted | AtPeer(peer: string) | AtLocal | Done(result: DelegationResult)

  datatype State = State(tasks: seq<Task>, robin: nat, ledger: seq<Entry>)

  datatype Move =
    | Start(i: nat, healthy: seq<string>)
    | PeerAnswers(i: nat, response: Response, attempts: nat)
    | PeerFails(i: nat)
    | LocalAnswers(i: nat, response: Response)
    | LocalFails(i: nat)

  const NO_RESPONSE: Response := Response(0, 0, 0.0)

  function SubtaskId(taskId: string, i: nat): string {
    if taskId == "" then Decimal(i) else taskId + ":" + Decimal(i)
  }

  lemma {:induction false} SubtaskIdInjective(taskId: string, i: nat, j: nat)
    requires SubtaskId(taskId, i) == SubtaskId(taskId, j)
    ensures i == j
  {
    if taskId != "" {
      var p := taskId + ":";
      assert (p + Decimal(i))[|p|..] == Decimal(i) && (p + Decimal(j))[|p|..] == Decimal(j);
    }
    DecimalInjective(i, j);
  }

  function KindOf(s: Status): string {
    match s case Delegated => "subtask" case Local => "delegation-local" case Failed => "delegation-failed"
  }

  /** `_record`: the one ledger entry of a finished sub-task. */
  function EntryFor(c: Config, r: DelegationResult): Entry {
    MakeEntry(c.nodeId, r.subtaskId, KindOf(r.status), r.response.tokensInput, r.response.tokensOutput, r.response.costUsd, r.peer)
  }

  function Finish(c: Config, st: State, i: nat, peer: string, status: Status, response: Response, attempts: nat): State
    requires i < |st.tasks| == |c.subtasks|
  {
    var r := DelegationResult(SubtaskId(c.taskId, i), c.subtasks[i], peer, status, response, attempts);
    st.(tasks := st.tasks[i := Done(r)], ledger := st.ledger + [EntryFor(c, r)])
  }

  /** `_run_local`: hand over to the local executor, or fail at once when there is none. */
  function RunLocal(c: Config, st: State, i: nat): State
    requires i < |st.tasks| == |c.subtasks|
  {
    if c.hasLocal then st.(tasks := st.tasks[i := AtLocal]) else Finish(c, st, i, "", Failed, NO_RESPONSE, 0)
  }

  predicate Enabled(st: State, move: Move) {
    move.i < |st.tasks| &&
    match move
    case Start(i, _) => st.tasks[i].NotStarted?
    case PeerAnswers(i, _, _) => st.tasks[i].AtPeer?
    case PeerFails(i) => st.tasks[i].AtPeer?
    case LocalAnswers(i, _) => st.tasks[i].AtLocal?
    case LocalFails(i) => st.tasks[i].AtLocal?
  }

  /** One move; a move that is not enabled changes nothing. */
  function Apply(c: Config, st: State, move: Move): State
    requires |st.tasks| == |c.subtasks|
  {
    if !Enabled(st, move) then st
    else
      match move
      case Start(i, healthy) =>
        if healthy == [] then RunLocal(c, st, i)
        else st.(tasks := st.tasks[i := AtPeer(healthy[st.robin % |healthy|])], robin := st.robin + 1)
      case PeerAnswers(i, response, attempts) => Finish(c, st, i, st.tasks[i].peer, Delegated, response, attempts)
      case PeerFails(i) => RunLocal(c, st, i)
      case LocalAnswers(i, response) => Finish(c, st, i, "", Local, response, 0)
      case LocalFails(i) => Finish(c, st, i, "", Failed, NO_RESPONSE, 0)
  }

  /** A fan-out starts with whatever cursor and ledger the router has from earlier ones. */
  function Init(c: Config, robin: nat, prior: seq<Entry>): State {
    State(seq(|c.subtasks|, _ => NotStarted), robin, prior)
  }

  function Run(c: Config, robin: nat, prior: seq<Entry>, moves: seq<Move>): (st: State)
    ensures |st.tasks| == |c.subtasks|
  {
    if moves == [] then Init(c, robin, prior)
    else Apply(c, Run(c, robin, prior, moves[..|moves| - 1]), moves[|moves| - 1])
  }

  // ---------- counting ----------

  function CountFor(ledger: seq<Entry>, id: string): nat {
    if ledger == [] then 0 else CountFor(ledger[..|ledger| - 1], id) + if ledger[|ledger| - 1].taskId == id then 1 else 0
  }

  function Tokens(r: Response): nat {
    ClampInt(r.tokensInput) + ClampInt(r.tokensOutput)
  }

  function CountDone(tasks: seq<Task>, n: nat): nat
    requires n <= |tasks|
  {
    if n == 0 then 0 else CountDone(tasks, n - 1) + if tasks[n - 1].Done? then 1 else 0
  }

  function DoneTokens(tasks: seq<Task>, n: nat): nat
    requires n <= |tasks|
  {
    if n == 0 then 0
    else DoneTokens(tasks, n - 1) + if tasks[n - 1].Done? then Tokens(tasks[n - 1].result.response) else 0
  }

  /** Changing one unfinished task changes the sums by that task's part only. */
  lemma {:induction false} SumsAfterUpdate(tasks: seq<Task>, i: nat, t: Task, n: nat)
    requires i < |tasks| && n <= |tasks| && !tasks[i].Done?
    ensures CountDone(tasks[i := t], n) == CountDone(tasks, n) + if i < n && t.Done? then 1 else 0
    ensures DoneTokens(tasks[i := t], n) == DoneTokens(tasks, n) + if i < n && t.Done? then Tokens(t.result.response) else 0
  {
    if n > 0 {
      SumsAfterUpdate(tasks, i, t, n - 1);
    }
  }

  // ---------- the invariant ----------

  /** A finished sub-task has its own id and description, and exactly one ledger entry of this fan-out, which is its
  own; an unfinished one has none. */
  ghost predicate TaskOk(c: Config, mine: seq<Entry>, t: Task, i: nat)
    requires i < |c.subtasks|
  {
    var id := SubtaskId(c.taskId, i);
    match t
    case Done(r) =>
      && r.subtaskId == id && r.description == c.subtasks[i] && (r.status != Delegated ==> r.peer == "")
      && CountFor(mine, id) == 1 && EntryFor(c, r) in mine
    case _ => CountFor(mine, id) == 0
  }

  /** The ledger is what it was before, followed by the entries `mine` of this fan-out. */
  ghost predicate Inv(c: Config, prior: seq<Entry>, mine: seq<Entry>, st: State) {
    && |st.tasks| == |c.subtasks| && st.ledger == prior + mine
    && (forall i :: 0 <= i < |st.tasks| ==> TaskOk(c, mine, st.tasks[i], i))
    && |mine| == CountDone(st.tasks, |st.tasks|)
    && TotalTokens(mine) == DoneTokens(st.tasks, |st.tasks|)
    && TotalsAdd(mine)
  }

  lemma {:induction false} CountForAppend(mine: seq<Entry>, e: Entry, id: string)
    ensures CountFor(mine + [e], id) == CountFor(mine, id) + if e.taskId == id then 1 else 0
  {
    assert (mine + [e])[..|mine|] == mine;
  }

  /** The entry of a finished task is its own and no other task's. */
  lemma {:induction false} FinishKeepsTask(c: Config, mine: seq<Entry>, t: Task, j: nat, i: nat, r: DelegationResult)
    requires j < |c.subtasks| && TaskOk(c, mine, t, j) && r.subtaskId == SubtaskId(c.taskId, i)
    requires j == i ==> !t.Done? && r.description == c.subtasks[i] && (r.status != Delegated ==> r.peer == "")
    ensures TaskOk(c, mine + [EntryFor(c, r)], if j == i then Done(r) else t, j)
  {
    var e := EntryFor(c, r);
    assert (mine + [e])[|mine|] == e;
    CountForAppend(mine, e, SubtaskId(c.taskId, j));
    if SubtaskId(c.taskId, j) == SubtaskId(c.taskId, i) {
      SubtaskIdInjective(c.taskId, j, i);
    }
  }

  lemma {:induction false} FinishKeeps(c: Config, prior: seq<Entry>, mine: seq<Entry>, st: State, i: nat,
                                       peer: string, status: Status, response: Response, attempts: nat) returns (mine': seq<Entry>)
    requires Inv(c, prior, mine, st) && i < |st.tasks| && !st.tasks[i].Done? && (status != Delegated ==> peer == "")
    ensures Inv(c, prior, mine', Finish(c, st, i, peer, status, response, attempts))
  {
    var r := DelegationResult(SubtaskId(c.taskId, i), c.subtasks[i], peer, status, response, attempts);
    var e := EntryFor(c, r);
    mine' := mine + [e];
    assert prior + mine' == (prior + mine) + [e];
    SumsAfterUpdate(st.tasks, i, Done(r), |st.tasks|);
    TotalsOfAppend(mine, e);
    var tasks := st.tasks[i := Done(r)];
    forall j | 0 <= j < |tasks| ensures TaskOk(c, mine', tasks[j], j) {
      FinishKeepsTask(c, mine, st.tasks[j], j, i, r);
    }
  }

  lemma {:induction false} WaitKeeps(c: Config, prior: seq<Entry>, mine: seq<Entry>, st: State, i: nat, t: Task, robin: nat)
    requires Inv(c, prior, mine, st) && i < |st.tasks| && !st.tasks[i].Done? && !t.Done?
    ensures Inv(c, prior, mine, st.(tasks := st.tasks[i := t], robin := robin))
  {
    SumsAfterUpdate(st.tasks, i, t, |st.tasks|);
    assert TaskOk(c, mine, st.tasks[i], i);
  }

  lemma {:induction false} LocalKeeps(c: Config, prior: seq<Entry>, mine: seq<Entry>, st: State, i: nat) returns (mine': seq<Entry>)
    requires Inv(c, prior, mine, st) && i < |st.tasks| && !st.tasks[i].Done?
    ensures Inv(c, prior, mine', RunLocal(c, st, i))
  {
    if c.hasLocal {
      mine' := mine;
      WaitKeeps(c, prior, mine, st, i, AtLocal, st.robin);
    } else {
      mine' := FinishKeeps(c, prior, mine, st, i, "", Failed, NO_RESPONSE, 0);
    }
  }

  lemma {:induction false} MoveKeeps(c: Config, prior: seq<Entry>, mine: seq<Entry>, st: State, move: Move) returns (mine': seq<Entry>)
    requires Inv(c, prior, mine, st)
    ensures Inv(c, prior, mine', Apply(c, st, move))
  {
    mine' := mine;
    if Enabled(st, move) {
      match move
      case Start(i, healthy) =>
        if healthy == [] {
          mine' := LocalKeeps(c, prior, mine, st, i);
        } else {
          WaitKeeps(c, prior, mine, st, i, AtPeer(healthy[st.robin % |healthy|]), st.robin + 1);
        }
      case PeerAnswers(i, response, attempts) =>
        mine' := FinishKeeps(c, prior, mine, st, i, st.tasks[i].peer, Delegated, response, attempts);
      case PeerFails(i) => mine' := LocalKeeps(c, prior, mine, st, i);
      case LocalAnswers(i, response) => mine' := FinishKeeps(c, prior, mine, st, i, "", Local, response, 0);
      case LocalFails(i) => mine' := FinishKeeps(c, prior, mine, st, i, "", Failed, NO_RESPONSE, 0);
    }
  }

  lemma {:induction false} NothingDone(tasks: seq<Task>, n: nat)
    requires n <= |tasks| && forall i :: 0 <= i < |tasks| ==> !tasks[i].Done?
    ensures CountDone(tasks, n) == 0 && DoneTokens(tasks, n) == 0
  {
    if n > 0 {
      NothingDone(tasks, n - 1);
    }
  }

  /** The invariant holds after every run from any cursor and any ledger, whatever the interleaving and the outcomes:
  `mine` are the entries of this fan-out. */
  lemma {:induction false} InvariantHolds(c: Config, robin: nat, prior: seq<Entry>, moves: seq<Move>) returns (mine: seq<Entry>)
    ensures Inv(c, prior, mine, Run(c, robin, prior, moves))
  {
    if moves == [] {
      mine := [];
      NothingDone(Init(c, robin, prior).tasks, |c.subtasks|);
    } else {
      var before := InvariantHolds(c, robin, prior, moves[..|moves| - 1]);
      mine := MoveKeeps(c, prior, before, Run(c, robin, prior, moves[..|moves| - 1]), moves[|moves| - 1]);
    }
  }

  // ---------- results are those of the moves ----------

  /** Where a task stands after one of its own moves: sent to the next peer, or to the local executor if there is one, or
  ended with what the peer or the local executor answered, or failed. */
  ghost predicate MovesTo(c: Config, robin: nat, i: nat, before: Task, move: Move, after: Task)
    requires i < |c.subtasks|
  {
    var id, text := SubtaskId(c.taskId, i), c.subtasks[i];
    var failed := Done(DelegationResult(id, text, "", Failed, Response(0, 0, 0.0), 0));
    match (before, move)
    case (NotStarted, Start(_, healthy)) =>
      if healthy == [] then after == (if c.hasLocal then AtLocal else failed)
      else after == AtPeer(healthy[robin % |healthy|])
    case (AtPeer(peer), PeerAnswers(_, response, attempts)) => after == Done(DelegationResult(id, text, peer, Delegated, response, attempts))
    case (AtPeer(_), PeerFails(_)) => after == if c.hasLocal then AtLocal else failed
    case (AtLocal, LocalAnswers(_, response)) => after == Done(DelegationResult(id, text, "", Local, response, 0))
    case (AtLocal, LocalFails(_)) => after == failed
    case _ => false
  }

  lemma {:induction false} MoveOfTask(c: Config, st: State, move: Move, i: nat)
    requires i < |st.tasks| == |c.subtasks|
    ensures var next := Apply(c, st, move);
            if move.i == i && Enabled(st, move) then MovesTo(c, st.robin, i, st.tasks[i], move, next.tasks[i])
            else next.tasks[i] == st.tasks[i]
  {
  }

  /** The cursor advances exactly when a sub-task is sent to a peer. */
  lemma {:induction false} MoveOfCursor(c: Config, st: State, move: Move)
    requires |st.tasks| == |c.subtasks|
    ensures Apply(c, st, move).robin == st.robin + if Enabled(st, move) && move.Start? && move.healthy != [] then 1 else 0
  {
  }

  /** Whatever has not ended may go on in every way: any healthy peers, any answer, any failure. */
  lemma {:induction false} AnyOutcomeIsPossible(st: State, i: nat, healthy: seq<string>, response: Response, attempts: nat)
    requires i < |st.tasks|
    ensures st.tasks[i].NotStarted? <==> Enabled(st, Start(i, healthy))
    ensures st.tasks[i].AtPeer? <==> Enabled(st, PeerAnswers(i, response, attempts)) && Enabled(st, PeerFails(i))
    ensures st.tasks[i].AtLocal? <==> Enabled(st, LocalAnswers(i, response)) && Enabled(st, LocalFails(i))
  {
  }

  /** Move `k` of a run moves a task. */
  ghost predicate TaskMovesAt(c: Config, robin: nat, prior: seq<Entry>, moves: seq<Move>, k: nat, i: nat, after: Task) {
    && k < |moves| && i < |c.subtasks| && moves[k].i == i
    && var st := Run(c, robin, prior, moves[..k]);
       Enabled(st, moves[k]) && MovesTo(c, st.robin, i, st.tasks[i], moves[k], after)
  }

  lemma {:induction false} TaskMovesPrefix(c: Config, robin: nat, prior: seq<Entry>, moves: seq<Move>, k: nat, i: nat, after: Task, m: nat)
    requires k < m <= |moves|
    ensures TaskMovesAt(c, robin, prior, moves, k, i, after) <==> TaskMovesAt(c, robin, prior, moves[..m], k, i, after)
  {
    assert moves[..m][..k] == moves[..k];
  }

  lemma {:induction false} LastMoveOfTask(c: Config, robin: nat, prior: seq<Entry>, moves: seq<Move>, i: nat)
    requires moves != [] && i < |c.subtasks|
    ensures var m := |moves| - 1;
            var before, after := Run(c, robin, prior, moves[..m]).tasks[i], Run(c, robin, prior, moves).tasks[i];
            after == before || TaskMovesAt(c, robin, prior, moves, m, i, after)
    ensures var m := |moves| - 1;
            forall t :: TaskMovesAt(c, robin, prior, moves, m, i, t) ==> Run(c, robin, prior, moves).tasks[i] == t
  {
    var m := |moves| - 1;
    MoveOfTask(c, Run(c, robin, prior, moves[..m]), moves[m], i);
  }

  /** Where a task stands it was brought by a move of its own. */
  lemma {:induction false} TaskHasMove(c: Config, robin: nat, prior: seq<Entry>, moves: seq<Move>, i: nat) returns (k: nat)
    requires i < |c.subtasks|
    ensures var t := Run(c, robin, prior, moves).tasks[i]; t.NotStarted? || TaskMovesAt(c, robin, prior, moves, k, i, t)
  {
    k := 0;
    if moves != [] {
      var m := |moves| - 1;
      var before, after := Run(c, robin, prior, moves[..m]).tasks[i], Run(c, robin, prior, moves).tasks[i];
      LastMoveOfTask(c, robin, prior, moves, i);
      if after == before {
        k := TaskHasMove(c, robin, prior, moves[..m], i);
        if !after.NotStarted? {
          TaskMovesPrefix(c, robin, prior, moves, k, i, after, m);
        }
      } else {
        k := m;
      }
    }
  }

  /** A task that has ended stays as it ended. */
  lemma {:induction false} EndedTaskStays(c: Config, robin: nat, prior: seq<Entry>, moves: seq<Move>, k: nat, i: nat, r: DelegationResult)
    requires TaskMovesAt(c, robin, prior, moves, k, i, Done(r))
    ensures Run(c, robin, prior, moves).tasks[i] == Done(r)
  {
    var m := |moves| - 1;
    LastMoveOfTask(c, robin, prior, moves, i);
    if k < m {
      TaskMovesPrefix(c, robin, prior, moves, k, i, Done(r), m);
      EndedTaskStays(c, robin, prior, moves[..m], k, i, r);
      MoveOfTask(c, Run(c, robin, prior, moves[..m]), moves[m], i);
    }
  }

  /** In every run, a sub-task has a result exactly when one of its own moves ended it with that result: its peer answered,
  the local executor answered, the local executor failed, or it had to run locally and there is no local executor. */
  lemma {:induction false} ResultIsOfMoves(c: Config, robin: nat, prior: seq<Entry>, moves: seq<Move>, i: nat, r: DelegationResult)
    requires i < |c.subtasks|
    ensures Run(c, robin, prior, moves).tasks[i] == Done(r) <==> exists k :: TaskMovesAt(c, robin, prior, moves, k, i, Done(r))
  {
    if Run(c, robin, prior, moves).tasks[i] == Done(r) {
      var k := TaskHasMove(c, robin, prior, moves, i);
    }
    forall k | TaskMovesAt(c, robin, prior, moves, k, i, Done(r)) ensures Run(c, robin, prior, moves).tasks[i] == Done(r) {
      EndedTaskStays(c, robin, prior, moves, k, i, r);
    }
  }

  /** What is recorded for a result. */
  lemma {:induction false} EntryTells(c: Config, r: DelegationResult)
    ensures var e := EntryFor(c, r);
            && e.nodeId == c.nodeId && e.taskId == r.subtaskId && e.peer == r.peer
            && e.kind == (if r.status == Delegated then "subtask" else "delegation-" + if r.status == Local then "local" else "failed")
            && (r.response.tokensInput >= 0 ==> e.inputTokens == r.response.tokensInput)
            && (r.response.tokensOutput >= 0 ==> e.outputTokens == r.response.tokensOutput)
            && (r.response.costUsd >= 0.0 ==> e.costUsd == r.response.costUsd)
            && e.totalTokens == e.inputTokens + e.outputTokens
  {
    assert "delegation-" + "local" == "delegation-local" && "delegation-" + "failed" == "delegation-failed";
  }

  // ---------- round-robin ----------

  /** Starting several sub-tasks one after the other while the same peers are healthy. */
  function StartAll(c: Config, st: State, order: seq<nat>, healthy: seq<string>): (r: State)
    requires |st.tasks| == |c.subtasks|
    ensures |r.tasks| == |st.tasks|
  {
    if order == [] then st
    else Apply(c, StartAll(c, st, order[..|order| - 1], healthy), Start(order[|order| - 1], healthy))
  }

  /** `r` is `st` after starting some sub-tasks: the `m`-th is at the `m`-th peer after the cursor. */
  ghost predicate Rotated(st: State, r: State, order: seq<nat>, healthy: seq<string>) {
    && healthy != [] && |r.tasks| == |st.tasks| && r.robin == st.robin + |order| && r.ledger == st.ledger
    && (forall m :: 0 <= m < |order| ==> order[m] < |r.tasks| && r.tasks[order[m]] == AtPeer(healthy[(st.robin + m) % |healthy|]))
    && (forall i :: 0 <= i < |st.tasks| && i !in order ==> r.tasks[i] == st.tasks[i])
  }

  lemma {:induction false} RotatedNext(c: Config, st: State, r: State, order: seq<nat>, i: nat, healthy: seq<string>)
    requires |st.tasks| == |c.subtasks| && Rotated(st, r, order, healthy)
    requires i < |st.tasks| && i !in order && st.tasks[i].NotStarted?
    ensures Rotated(st, Apply(c, r, Start(i, healthy)), order + [i], healthy)
  {
    var next := Apply(c, r, Start(i, healthy));
    forall m | 0 <= m < |order + [i]| ensures next.tasks[(order + [i])[m]] == AtPeer(healthy[(st.robin + m) % |healthy|]) {
      assert m < |order| ==> order[m] in order;
    }
  }

  lemma {:induction false} StartsRotate(c: Config, st: State, order: seq<nat>, healthy: seq<string>)
    requires |st.tasks| == |c.subtasks| && healthy != [] && Distinct(order)
    requires forall m :: 0 <= m < |order| ==> order[m] < |st.tasks| && st.tasks[order[m]].NotStarted?
    ensures Rotated(st, StartAll(c, st, order, healthy), order, healthy)
    decreases |order|
  {
    if order != [] {
      var init, last := order[..|order| - 1], order[|order| - 1];
      assert forall m :: 0 <= m < |init| ==> init[m] == order[m];
      StartsRotate(c, st, init, healthy);
      assert last !in init;
      RotatedNext(c, st, StartAll(c, st, init, healthy), init, last, healthy);
      assert order == init + [last];
    }
  }

  /** Two different multiples of `n` are at least `n` apart. */
  lemma {:induction false} MultiplesAreApart(q: int, q': int, n: nat)
    requires q * n < q' * n
    ensures q' * n >= q * n + n
  {
    if q < q' {
      assert (q' - q - 1) * n >= 0;
      assert q' * n == q * n + n + (q' - q - 1) * n;
    }
  }

  lemma {:induction false} ModDiffers(r: nat, a: nat, b: nat, n: nat)
    requires a < b < n
    ensures (r + a) % n != (r + b) % n
  {
    var q, q' := (r + a) / n, (r + b) / n;
    assert r + a == q * n + (r + a) % n && r + b == q' * n + (r + b) % n;
    if q * n < q' * n {
      MultiplesAreApart(q, q', n);
    }
  }

  /** Up to as many sub-tasks as there are healthy peers are spread over different peers. */
  lemma {:induction false} WorkSpreads(c: Config, st: State, order: seq<nat>, healthy: seq<string>, a: nat, b: nat)
    requires |st.tasks| == |c.subtasks| && Distinct(healthy) && Distinct(order) && |order| <= |healthy|
    requires forall m :: 0 <= m < |order| ==> order[m] < |st.tasks| && st.tasks[order[m]].NotStarted?
    requires a < b < |order|
    ensures var r := StartAll(c, st, order, healthy);
            r.tasks[order[a]].AtPeer? && r.tasks[order[b]].AtPeer? && r.tasks[order[a]].peer != r.tasks[order[b]].peer
  {
    StartsRotate(c, st, order, healthy);
    ModDiffers(st.robin, a, b, |healthy|);
  }

  // ---------- re-joining ----------

  ghost predicate AllDone(st: State) {
    forall i :: 0 <= i < |st.tasks| ==> st.tasks[i].Done?
  }

  lemma {:induction false} EverythingDone(tasks: seq<Task>, n: nat)
    requires n <= |tasks| && forall i :: 0 <= i < |tasks| ==> tasks[i].Done?
    ensures CountDone(tasks, n) == n
  {
    if n > 0 {
      EverythingDone(tasks, n - 1);
    }
  }

  /** What one `execute` adds to the ledger: exactly one entry per sub-task id, no others, and the same tokens. */
  ghost predicate IsJoined(c: Config, mine: seq<Entry>, tasks: seq<Task>) {
    && |tasks| == |c.subtasks| == |mine| && TotalTokens(mine) == DoneTokens(tasks, |tasks|)
    && forall i :: 0 <= i < |tasks| ==>
         && tasks[i].Done? && tasks[i].result.subtaskId == (if c.taskId == "" then Decimal(i) else c.taskId + ":" + Decimal(i)) && tasks[i].result.description == c.subtasks[i]
         && CountFor(mine, SubtaskId(c.taskId, i)) == 1 && EntryFor(c, tasks[i].result) in mine
  }

  /** A finished `execute` on a router with any past: results are in submission order, the ledger keeps its past, and
  the rest of it joins the results one to one. */
  lemma {:induction false} FinishedFanOut(title: string, taskId: string, requested: seq<string>, nodeId: string, hasLocal: bool,
                                          robin: nat, prior: seq<Entry>, moves: seq<Move>)
    requires var c := ConfigFor(title, taskId, requested, nodeId, hasLocal); AllDone(Run(c, robin, prior, moves))
    ensures var c := ConfigFor(title, taskId, requested, nodeId, hasLocal); var st := Run(c, robin, prior, moves);
            && prior <= st.ledger && IsJoined(c, st.ledger[|prior|..], st.tasks)
            && |st.ledger| == |prior| + if requested == [] then 1 else |requested|
  {
    var c := ConfigFor(title, taskId, requested, nodeId, hasLocal);
    var st := Run(c, robin, prior, moves);
    var mine := InvariantHolds(c, robin, prior, moves);
    assert st.ledger[|prior|..] == mine;
    EverythingDone(st.tasks, |st.tasks|);
    forall i | 0 <= i < |st.tasks|
      ensures st.tasks[i].result.subtaskId == SubtaskId(c.taskId, i) && st.tasks[i].result.description == c.subtasks[i]
      ensures CountFor(mine, SubtaskId(c.taskId, i)) == 1 && EntryFor(c, st.tasks[i].result) in mine
    {
      assert TaskOk(c, mine, st.tasks[i], i);
    }
  }

  // ---------- the ledger in memory ----------

  /** What happens to the ledger before a fan-out has no influence on it. */
  lemma {:induction false} PriorIsKept(c: Config, robin: nat, prior: seq<Entry>, moves: seq<Move>)
    ensures var own := Run(c, robin, [], moves); Run(c, robin, prior, moves) == own.(ledger := prior + own.ledger)
  {
    if moves == [] {
      assert prior + [] == prior;
    } else {
      PriorIsKept(c, robin, prior, moves[..|moves| - 1]);
      MoveAppends(c, Run(c, robin, [], moves[..|moves| - 1]), prior, moves[|moves| - 1]);
    }
  }

  /** A move adds the entry of the sub-task it finishes, if it finishes one, and nothing else. */
  lemma {:induction false} MoveAppends(c: Config, st: State, prior: seq<Entry>, move: Move)
    requires |st.tasks| == |c.subtasks|
    ensures var next := Apply(c, st, move);
            && next.ledger == st.ledger + (if Finishes(c, st, move) then [EntryFor(c, next.tasks[move.i].result)] else [])
            && Apply(c, st.(ledger := prior + st.ledger), move) == next.(ledger := prior + next.ledger)
  {
    var next := Apply(c, st, move);
    assert st.ledger + [] == st.ledger;
    if Finishes(c, st, move) {
      var e := EntryFor(c, next.tasks[move.i].result);
      assert prior + (st.ledger + [e]) == (prior + st.ledger) + [e];
    }
  }

  predicate Finishes(c: Config, st: State, move: Move)
    requires |st.tasks| == |c.subtasks|
  {
    Enabled(st, move) && Apply(c, st, move).tasks[move.i].Done?
  }

  /** A fan-out on a real ledger: `_record` is called once for each finished sub-task, as it finishes. */
  method FanOut(c: Config, robin: nat, moves: seq<Move>, ledger: ContributionLedger) returns (st: State)
    requires ledger.Valid()
    modifies ledger
    ensures ledger.Valid() && st == Run(c, robin, [], moves)
    ensures ledger.history == old(ledger.history) + st.ledger
    ensures ledger.entries == LastOf(old(ledger.history) + st.ledger, ledger.maxEntries)
  {
    st := Init(c, robin, []);
    for k := 0 to |moves|
      invariant ledger.Valid() && st == Run(c, robin, [], moves[..k])
      invariant ledger.history == old(ledger.history) + st.ledger
    {
      var next := Apply(c, st, moves[k]);
      assert moves[..k + 1][..k] == moves[..k];
      MoveAppends(c, st, [], moves[k]);
      if Finishes(c, st, moves[k]) {
        var r := next.tasks[moves[k].i].result;
        var e := ledger.Record(c.nodeId, r.subtaskId, KindOf(r.status), r.response.tokensInput, r.response.tokensOutput,
                               r.response.costUsd, r.peer);
        assert old(ledger.history) + (st.ledger + [e]) == (old(ledger.history) + st.ledger) + [e];
      }
      st := next;
    }
    assert moves[..|moves|] == moves;
  }

  lemma {:induction false} CountForConcat(s: seq<Entry>, t: seq<Entry>, id: string)
    ensures CountFor(s + t, id) == CountFor(s, id) + CountFor(t, id)
    decreases |t|
  {
    if t == [] {
      assert s + t == s;
    } else {
      assert (s + t)[..|s + t| - 1] == s + t[..|t| - 1];
      CountForConcat(s, t[..|t| - 1], id);
    }
  }

  lemma {:induction false} CountForFound(s: seq<Entry>, p: nat, id: string)
    requires p < |s| && s[p].taskId == id
    ensures CountFor(s, id) >= 1
  {
    if p < |s| - 1 {
      CountForFound(s[..|s| - 1], p, id);
    }
  }

  lemma {:induction false} LastOfConcat(s: seq<Entry>, t: seq<Entry>, n: nat)
    ensures LastOf(s + t, n) == LastOf(s, if n > |t| then n - |t| else 0) + LastOf(t, n)
  {
  }

  /** Of the last `n` entries, the only one with an id at position `p` is one exactly when at most `n` entries were
  recorded from it on. */
  lemma {:induction false} CountInLast(s: seq<Entry>, p: nat, id: string, n: nat)
    requires p < |s| && s[p].taskId == id && CountFor(s, id) == 1
    ensures CountFor(LastOf(s, n), id) == if |s| - p <= n then 1 else 0
  {
    var cut := if |s| <= n then 0 else |s| - n;
    var before, last := s[..cut], s[cut..];
    assert s == before + last && last == LastOf(s, n);
    CountForConcat(before, last, id);
    if p < cut {
      CountForFound(before, p, id);
    } else {
      CountForFound(last, p - cut, id);
    }
  }

  /** What is left in memory of entries older than the last `m`. */
  function Older(prior: seq<Entry>, m: nat, n: nat): seq<Entry> {
    LastOf(prior, if n > m then n - m else 0)
  }

  lemma {:induction false} CountInMemory(prior: seq<Entry>, mine: seq<Entry>, p: nat, id: string, n: nat)
    requires p < |mine| && mine[p].taskId == id && CountFor(mine, id) == 1
    ensures CountFor(LastOf(prior + mine, n), id) == CountFor(Older(prior, |mine|, n), id) + if |mine| - p <= n then 1 else 0
  {
    LastOfConcat(prior, mine, n);
    CountInLast(mine, p, id, n);
    CountForConcat(Older(prior, |mine|, n), LastOf(mine, n), id);
  }

  lemma {:induction false} OwnEntry(c: Config, robin: nat, moves: seq<Move>, i: nat) returns (p: nat)
    requires AllDone(Run(c, robin, [], moves)) && i < |c.subtasks|
    ensures var st := Run(c, robin, [], moves);
            p < |st.ledger| && st.ledger[p] == EntryFor(c, st.tasks[i].result)
            && st.ledger[p].taskId == SubtaskId(c.taskId, i) && CountFor(st.ledger, SubtaskId(c.taskId, i)) == 1
  {
    var st := Run(c, robin, [], moves);
    var mine := InvariantHolds(c, robin, [], moves);
    assert st.ledger == mine && TaskOk(c, mine, st.tasks[i], i);
    p :| 0 <= p < |mine| && mine[p] == EntryFor(c, st.tasks[i].result);
  }

  /** After a finished fan-out the memory of the ledger has, beside what is left of older entries, the one entry of a
  sub-task exactly when at most as many entries as the ledger holds were recorded from it on. */
  lemma {:induction false} EntryInMemoryIff(c: Config, robin: nat, prior: seq<Entry>, moves: seq<Move>, n: nat, i: nat) returns (p: nat)
    requires AllDone(Run(c, robin, [], moves)) && i < |c.subtasks|
    ensures var st := Run(c, robin, [], moves);
            var id := SubtaskId(c.taskId, i);
            && p < |st.ledger| && st.ledger[p] == EntryFor(c, st.tasks[i].result)
            && CountFor(LastOf(prior + st.ledger, n), id) ==
               CountFor(Older(prior, |st.ledger|, n), id) + if |st.ledger| - p <= n then 1 else 0
  {
    p := OwnEntry(c, robin, moves, i);
    CountInMemory(prior, Run(c, robin, [], moves).ledger, p, SubtaskId(c.taskId, i), n);
  }

  // ---------- the summary ----------

  function CountStatus(results: seq<DelegationResult>, s: Status): nat {
    if results == [] then 0
    else CountStatus(results[..|results| - 1], s) + if results[|results| - 1].status == s then 1 else 0
  }

  /** The summary counts of `execute`: every result is counted once. */
  method Summarize(results: seq<DelegationResult>) returns (total: nat, delegated: nat, local: nat, failed: nat)
    ensures total == |results| && delegated + local + failed == total
    ensures delegated == CountStatus(results, Delegated) && local == CountStatus(results, Local)
    ensures failed == CountStatus(results, Failed)
  {
    delegated, local, failed := 0, 0, 0;
    for i := 0 to |results|
      invariant delegated + local + failed == i
      invariant delegated == CountStatus(results[..i], Delegated) && local == CountStatus(results[..i], Local)
      invariant failed == CountStatus(results[..i], Failed)
    {
      assert results[..i + 1][..i] == results[..i];
      match results[i].status
      case Delegated => delegated := delegated + 1;
      case Local => local := local + 1;
      case Failed => failed := failed + 1;
    }
    assert results[..|results|] == results;
    total := |results|;
  }
}
