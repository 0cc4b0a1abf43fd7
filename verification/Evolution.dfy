/** The landing policy of noema/evolution/engine.py over a modelled worktree. Tests, compilation and patch
generation are oracles: the test runner sees the whole worktree and may answer differently each time. */
module Evolution {
  import opened Bytes
  import opened Sequences

  type Worktree = map<string, string>

  datatype Patch = Patch(
    target: string, originalCode: string, patchedCode: string, applied: bool, testsPassed: bool)

  datatype CycleResult = CycleResult(cycle: nat, generated: nat, applied: nat, proposed: nat, rejected: nat)

  /** One test run: what the worktree held, and whether it was green. */
  datatype TestRun = TestRun(tree: Worktree, green: bool)

  /** A patch as the generator handed it over, and the worktree at that moment. */
  datatype Offer = Offer(patch: Patch, tree: Worktree)

  /** What the engine has at a moment of a cycle. */
  datatype Snapshot = Snapshot(tree: Worktree, patches: seq<Patch>, runs: seq<TestRun>)

  datatype Stats = Stats(cycles: nat, total: nat, applied: nat, proposed: nat, rejected: nat)

  type Runner = (nat, Worktree) -> bool
  type Compiler = (string, string) -> bool
  type Generator = (nat, string, Worktree) -> Option<Patch>

  /** The backup sibling that `apply_patch` writes and deletes. */
  function Backup(path: string): string {
    path + ".bak"
  }

  lemma {:induction false} BackupIs(path: string)
    ensures Backup(path)[..|path|] == path && Backup(path)[|path|..] == ".bak"
  {
  }

  // ---------- reverting ----------

  /** The content of the target after landing. `mayApply` says that the patch got past the tests and is to be
  applied; `original` is what the code writes back, and an empty one is read from the target again. */
  function FinalContent(patch: Patch, content: string, tested: bool, mayApply: bool, compiles: bool): string {
    var original := if patch.originalCode != "" then patch.originalCode else content;
    if mayApply && (compiles || (tested && original == "")) then patch.patchedCode else original
  }

  /** When writing back the original brings back the content: the patch carries no other content, and it is
  not tested code for an empty target, for which `apply_patch` reads the tested code as the original. */
  predicate RevertIsSafe(patch: Patch, content: string, tested: bool, mayApply: bool) {
    && (patch.originalCode == "" || patch.originalCode == content)
    && !(tested && mayApply && content == "" && patch.patchedCode != "")
  }

  /** A patch that is not applied, be it rejected by the tests or the compiler or merely proposed, leaves its
  target as it was exactly when the revert is safe. */
  lemma {:induction false} RevertRestoresIff(patch: Patch, content: string, tested: bool, mayApply: bool, compiles: bool)
    requires !(mayApply && compiles)
    ensures FinalContent(patch, content, tested, mayApply, compiles) == content <==> RevertIsSafe(patch, content, tested, mayApply)
  {
  }

  ghost predicate Restores(patch: Patch, content: string, tested: bool, autoApply: bool, green: bool, compiles: bool) {
    (green && autoApply && compiles) || FinalContent(patch, content, tested, green && autoApply, compiles) == content
  }

  /** What a caller can check beforehand: whatever the tests and the compiler will say, a patch that ends up
  not applied leaves its target as it was. */
  lemma {:induction false} AlwaysRestoresIff(patch: Patch, content: string, tested: bool, autoApply: bool)
    ensures (forall green, compiles :: Restores(patch, content, tested, autoApply, green, compiles)) <==>
            RevertIsSafe(patch, content, tested, autoApply)
  {
    if forall green, compiles :: Restores(patch, content, tested, autoApply, green, compiles) {
      assert Restores(patch, content, tested, autoApply, true, false);
    }
  }

  // ---------- what the generator hands over ----------

  ghost predicate IsUnmarked(p: Patch) {
    !p.applied && !p.testsPassed
  }

  /** An offer that the policy can rely on: not marked, and safe to revert where it was made. */
  ghost predicate IsFresh(o: Offer, tested: bool, autoApply: bool) {
    IsUnmarked(o.patch) && (o.patch.target in o.tree ==> RevertIsSafe(o.patch, o.tree[o.patch.target], tested, autoApply))
  }

  ghost predicate AllUnmarked(offers: seq<Offer>) {
    forall i :: 0 <= i < |offers| ==> IsUnmarked(offers[i].patch)
  }

  ghost predicate AllFresh(offers: seq<Offer>, from: nat, tested: bool, autoApply: bool) {
    forall i :: from <= i < |offers| ==> IsFresh(offers[i], tested, autoApply)
  }

  /** The code a model answers with for a file and its content, if any. */
  type Model = (nat, string, string) -> Option<string>

  /** `generate_patch`: the content read, and the model's code for it. */
  function OwnGenerator(answer: Model): Generator {
    (n: nat, issue: string, tree: Worktree) =>
      if issue !in tree then None
      else
        match answer(n, issue, tree[issue])
        case Some(code) => Some(Patch(issue, tree[issue], code, false, false))
        case None => None
  }

  /** Every patch is for the file of the issue, carries the content read, and is not marked. */
  ghost predicate ReadsContent(generate: Generator) {
    forall n, issue, tree :: generate(n, issue, tree).Some? ==> ReadsFile(generate(n, issue, tree).value, issue, tree)
  }

  ghost predicate ReadsFile(p: Patch, issue: string, tree: Worktree) {
    p.target == issue && issue in tree && p.originalCode == tree[issue] && IsUnmarked(p)
  }

  ghost predicate NeverEmpty(generate: Generator) {
    forall n, issue, tree :: generate(n, issue, tree).Some? ==> generate(n, issue, tree).value.patchedCode != ""
  }

  /** None of the listed files, from a position on, is empty. */
  ghost predicate AllFull(tree: Worktree, files: seq<string>, from: nat) {
    forall i :: from <= i < |files| && files[i] in tree ==> tree[files[i]] != ""
  }

  /** The engine's own generator reads content. What it hands over is fresh exactly when it is not tested code for an
  empty file that may be applied. */
  lemma {:induction false} OwnGeneratorIsFreshIff(answer: Model, n: nat, issue: string, tree: Worktree, tested: bool, autoApply: bool)
    ensures ReadsContent(OwnGenerator(answer))
    ensures var r := OwnGenerator(answer)(n, issue, tree);
            r.Some? ==> (IsFresh(Offer(r.value, tree), tested, autoApply) <==>
                         !(tested && autoApply && tree[issue] == "" && r.value.patchedCode != ""))
  {
    var generate := OwnGenerator(answer);
    forall n', issue', tree' | generate(n', issue', tree').Some? ensures ReadsFile(generate(n', issue', tree').value, issue', tree') {
    }
  }

  ghost predicate SameFile(a: Worktree, b: Worktree, f: string) {
    (f in a <==> f in b) && (f in a ==> a[f] == b[f])
  }

  /** A patch had a green run while its target held its code. */
  ghost predicate HadGreenRun(p: Patch, runs: seq<TestRun>) {
    exists i :: 0 <= i < |runs| && runs[i].green && p.target in runs[i].tree && runs[i].tree[p.target] == p.patchedCode
  }

  lemma {:induction false} GreenRunStays(p: Patch, runs: seq<TestRun>, more: seq<TestRun>)
    requires HadGreenRun(p, runs)
    ensures HadGreenRun(p, runs + more)
  {
    var i :| 0 <= i < |runs| && runs[i].green && p.target in runs[i].tree && runs[i].tree[p.target] == p.patchedCode;
    assert (runs + more)[i] == runs[i];
  }

  // ---------- counting ----------

  datatype Outcome = NoPatch | Applied | Proposed | Rejected

  /** What `get_stats` takes a patch for. */
  function MarkOf(p: Patch): Outcome {
    if p.applied then Applied else if p.testsPassed then Proposed else Rejected
  }

  /** How many of the first `n` patches have a mark. */
  function CountFirst(ps: seq<Patch>, n: nat, mark: Outcome): nat
    requires n <= |ps|
  {
    if n == 0 then 0 else CountFirst(ps, n - 1, mark) + if MarkOf(ps[n - 1]) == mark then 1 else 0
  }

  function CountMarked(ps: seq<Patch>, mark: Outcome): nat {
    CountFirst(ps, |ps|, mark)
  }

  function Add(t: CycleResult, r: CycleResult): CycleResult {
    CycleResult(r.cycle, t.generated + r.generated, t.applied + r.applied, t.proposed + r.proposed, t.rejected + r.rejected)
  }

  function TotalFirst(history: seq<CycleResult>, n: nat): CycleResult
    requires n <= |history|
  {
    if n == 0 then CycleResult(0, 0, 0, 0, 0) else Add(TotalFirst(history, n - 1), history[n - 1])
  }

  /** The sums over a history. */
  function Total(history: seq<CycleResult>): CycleResult {
    TotalFirst(history, |history|)
  }

  lemma {:induction false} TotalOfPrefix(history: seq<CycleResult>, r: CycleResult, n: nat)
    requires n <= |history|
    ensures TotalFirst(history + [r], n) == TotalFirst(history, n)
  {
    if n > 0 {
      TotalOfPrefix(history, r, n - 1);
    }
  }

  lemma {:induction false} CountOfPrefix(ps: seq<Patch>, p: Patch, n: nat, mark: Outcome)
    requires n <= |ps|
    ensures CountFirst(ps + [p], n, mark) == CountFirst(ps, n, mark)
  {
    if n > 0 {
      CountOfPrefix(ps, p, n - 1, mark);
    }
  }

  lemma {:induction false} CountOfAppend(ps: seq<Patch>, p: Patch, mark: Outcome)
    ensures CountMarked(ps + [p], mark) == CountMarked(ps, mark) + if MarkOf(p) == mark then 1 else 0
  {
    CountOfPrefix(ps, p, |ps|, mark);
  }

  /** Issues taken per cycle: the Python slice `issues[:n]`. */
  function FirstIssues(issues: seq<string>, n: int): seq<string> {
    if n < 0 then issues[..if |issues| + n > 0 then |issues| + n else 0]
    else if n < |issues| then issues[..n]
    else issues
  }

  lemma {:induction false} FreshBefore(offers: seq<Offer>, o: Offer, from: nat, tested: bool, autoApply: bool)
    requires from <= |offers| && AllFresh(offers + [o], from, tested, autoApply)
    ensures AllFresh(offers, from, tested, autoApply) && IsFresh(o, tested, autoApply)
  {
    assert forall i :: 0 <= i < |offers| ==> (offers + [o])[i] == offers[i];
    assert (offers + [o])[|offers|] == o;
  }

  lemma {:induction false} UnmarkedBefore(offers: seq<Offer>, o: Offer)
    requires AllUnmarked(offers + [o])
    ensures AllUnmarked(offers) && IsUnmarked(o.patch)
  {
    assert forall i :: 0 <= i < |offers| ==> (offers + [o])[i] == offers[i];
    assert (offers + [o])[|offers|] == o;
  }

  /** The sums `t` of a history account for every patch; without tests a proposal is marked like a rejection. */
  ghost predicate BooksAgree(tested: bool, patches: seq<Patch>, t: CycleResult) {
    && |patches| == t.generated
    && CountMarked(patches, Applied) == t.applied
    && CountMarked(patches, Proposed) == (if tested then t.proposed else 0)
    && CountMarked(patches, Rejected) == (if tested then t.rejected else t.proposed + t.rejected)
  }

  /** A prefix, of the length that the slice has in Python: `n` if there are so many, and for a negative `n` all but
  the last `-n`. */
  lemma {:induction false} FirstIssuesIs(issues: seq<string>, n: int)
    ensures var r := FirstIssues(issues, n);
            && r <= issues
            && (0 <= n <= |issues| ==> |r| == n) && (n > |issues| ==> r == issues)
            && (-|issues| <= n < 0 ==> |r| == |issues| + n) && (n < -|issues| ==> r == [])
  {
  }

  function CountOutcome(outcomes: seq<Outcome>, n: nat, o: Outcome): nat
    requires n <= |outcomes|
  {
    if n == 0 then 0 else CountOutcome(outcomes, n - 1, o) + if outcomes[n - 1] == o then 1 else 0
  }

  /** The numbers of a cycle result are those of its outcomes. */
  ghost predicate Tallies(r: CycleResult, outcomes: seq<Outcome>) {
    && r.applied == CountOutcome(outcomes, |outcomes|, Applied)
    && r.proposed == CountOutcome(outcomes, |outcomes|, Proposed)
    && r.rejected == CountOutcome(outcomes, |outcomes|, Rejected)
    && r.generated + CountOutcome(outcomes, |outcomes|, NoPatch) == |outcomes|
  }

  lemma {:induction false} CountOutcomePrefix(outcomes: seq<Outcome>, next: Outcome, n: nat, o: Outcome)
    requires n <= |outcomes|
    ensures CountOutcome(outcomes + [next], n, o) == CountOutcome(outcomes, n, o)
  {
    if n > 0 {
      CountOutcomePrefix(outcomes, next, n - 1, o);
    }
  }

  lemma {:induction false} TalliesNext(r: CycleResult, outcomes: seq<Outcome>, next: Outcome)
    requires Tallies(r, outcomes)
    ensures Tallies(Count(r, next), outcomes + [next])
  {
    CountOutcomePrefix(outcomes, next, |outcomes|, Applied);
    CountOutcomePrefix(outcomes, next, |outcomes|, Proposed);
    CountOutcomePrefix(outcomes, next, |outcomes|, Rejected);
    CountOutcomePrefix(outcomes, next, |outcomes|, NoPatch);
  }

  // ---------- the policy ----------

  ghost predicate IsApplied(patches: seq<Patch>, f: string, code: string) {
    exists i :: 0 <= i < |patches| && patches[i].applied && patches[i].target == f && patches[i].patchedCode == code
  }

  ghost predicate IsBackup(patches: seq<Patch>, f: string) {
    exists i :: 0 <= i < |patches| && f == Backup(patches[i].target)
  }

  /** After a cycle there is no new file, every file holds what it held at the start or the code of an applied
  patch to it, and only the backup sibling of a patched file can have disappeared. */
  ghost predicate FileOk(start: Worktree, tree: Worktree, patches: seq<Patch>, f: string) {
    && (f in tree ==> f in start && (tree[f] == start[f] || IsApplied(patches, f, tree[f])))
    && (f in start && f !in tree ==> IsBackup(patches, f))
  }

  /** How the counters of a patch's outcome show in its flags. */
  ghost predicate FlagsTell(p: Patch, landed: bool, tested: bool) {
    && (p.applied ==> landed)
    && (tested ==> p.testsPassed == landed)
    && (!tested ==> !p.testsPassed)
  }

  lemma {:induction false} FileOkAfterLanding(start: Worktree, before: Worktree, after: Worktree, patches: seq<Patch>, p: Patch, f: string)
    requires FileOk(start, before, patches, f)
    requires f != p.target ==> SameFile(before, after, f) || (f == Backup(p.target) && f !in after)
    requires f == p.target && !p.applied ==> SameFile(before, after, f)
    requires f == p.target && p.applied ==> f in before && f in after && after[f] == p.patchedCode
    ensures FileOk(start, after, patches + [p], f)
  {
    var more := patches + [p];
    assert forall i :: 0 <= i < |patches| ==> more[i] == patches[i];
    assert more[|patches|] == p;
  }

  class EvolutionEngine {
    const enabled: bool
    const testBeforeApply: bool
    const autoApply: bool
    const maxPatches: int
    const runner: Runner
    const compiles: Compiler
    const generate: Generator
    var tree: Worktree
    var patches: seq<Patch>
    var history: seq<CycleResult>
    var cycle: nat
    var runs: seq<TestRun>  // every test run so far
    ghost var offers: seq<Offer>  // what the generator handed over, patch by patch

    constructor (enabled: bool, testBeforeApply: bool, autoApply: bool, maxPatches: int,
                 runner: Runner, compiles: Compiler, generate: Generator, tree: Worktree)
      ensures Valid() && this.enabled == enabled && this.testBeforeApply == testBeforeApply
      ensures this.autoApply == autoApply && this.maxPatches == maxPatches && this.tree == tree
      ensures this.runner == runner && this.compiles == compiles && this.generate == generate
      ensures patches == [] && history == [] && runs == [] && offers == []
    {
      this.enabled, this.testBeforeApply, this.autoApply, this.maxPatches := enabled, testBeforeApply, autoApply, maxPatches;
      this.runner, this.compiles, this.generate := runner, compiles, generate;
      this.tree, patches, history, cycle, runs, offers := tree, [], [], 0, [], [];
    }

    /** The books: if no patch came marked, the history accounts for every patch, and the flags tell the outcomes
    apart. */
    ghost predicate Valid()
      reads this
    {
      |offers| == |patches| && (AllUnmarked(offers) ==> BooksAgree(testBeforeApply, patches, Total(history)))
    }

    /** `apply_patch`, not a dry run. */
    method ApplyPatch(patch: Patch) returns (ok: bool, p: Patch)
      modifies this`tree
      ensures p == patch.(applied := p.applied, testsPassed := p.testsPassed)
      ensures patch.target !in old(tree) ==> !ok && p == patch && tree == old(tree)
      ensures patch.target in old(tree) ==>
        && ok == p.applied == compiles(patch.target, patch.patchedCode)
        && (p.testsPassed <==> ok && patch.testsPassed)
        && patch.target in tree
        && tree[patch.target] ==
             (if ok then patch.patchedCode else if patch.originalCode != "" then patch.originalCode else old(tree)[patch.target])
        && Backup(patch.target) !in tree
        && forall f :: f != patch.target && f != Backup(patch.target) ==> SameFile(old(tree), tree, f)
    {
      p := patch;
      if patch.target !in tree {
        return false, p;
      }
      var original := if patch.originalCode != "" then patch.originalCode else tree[patch.target];
      var backup := Backup(patch.target);
      tree := tree[backup := original];
      tree := tree[patch.target := patch.patchedCode];
      if compiles(patch.target, patch.patchedCode) {
        p := p.(applied := true);
        tree := tree - {backup};
        return true, p;
      }
      tree := tree[patch.target := original];
      tree := tree - {backup};
      p := p.(applied := false, testsPassed := false);
      return false, p;
    }

    /** Whether a patch gets past the tests. */
    ghost function Green(patch: Patch, tree: Worktree, n: nat): bool {
      testBeforeApply ==> runner(n, tree[patch.target := patch.patchedCode])
    }

    /** The test phase of `_validate_and_land`: the patch is written, the tests run, a red run is reverted. */
    method TestPatch(patch: Patch) returns (green: bool, p: Patch)
      requires patch.target in tree
      modifies this`tree, this`runs
      ensures green == Green(patch, old(tree), |old(runs)|)
      ensures p == if testBeforeApply then patch.(testsPassed := green) else patch
      ensures tree == if !testBeforeApply then old(tree)
        else if green then old(tree)[patch.target := patch.patchedCode]
        else old(tree)[patch.target := patch.originalCode]
      ensures runs == if !testBeforeApply then old(runs)
        else old(runs) + [TestRun(old(tree)[patch.target := patch.patchedCode], green)]
    {
      p, green := patch, true;
      if testBeforeApply {
        tree := tree[p.target := p.patchedCode];
        green := runner(|runs|, tree);
        runs := runs + [TestRun(tree, green)];
        p := p.(testsPassed := green);
        if !green {
          tree := tree[p.target := p.originalCode];
          assert tree == old(tree)[patch.target := patch.originalCode];
        }
      }
    }

    /** What `_validate_and_land` does to a patch, the worktree and the test runs. */
    ghost predicate LandsAs(patch: Patch, landed: bool, p: Patch, before: Worktree, runs: seq<TestRun>, after: Worktree, runs': seq<TestRun>) {
      if patch.target !in before then !landed && p == patch && after == before && runs' == runs
      else
        var content := before[patch.target];
        var green, ok := Green(patch, before, |runs|), compiles(patch.target, patch.patchedCode);
        && landed == (green && (ok || !autoApply))
        && p == patch.(originalCode := if patch.originalCode != "" then patch.originalCode else content,
                       applied := if green then autoApply && ok else patch.applied,
                       testsPassed := if testBeforeApply then landed else patch.testsPassed && landed)
        && runs' == (if testBeforeApply then runs + [TestRun(before[patch.target := patch.patchedCode], green)] else runs)
        && patch.target in after && after[patch.target] == FinalContent(patch, content, testBeforeApply, green && autoApply, ok)
        && (forall f :: f != patch.target && f != Backup(patch.target) ==> SameFile(before, after, f))
        && (if green && autoApply then Backup(patch.target) !in after else SameFile(before, after, Backup(patch.target)))
    }

    /** `_validate_and_land`, for any patch: what it decides, what its target holds afterwards, and exactly when
    a rejected or merely proposed patch leaves its target as it was. */
    method ValidateAndLand(patch: Patch) returns (landed: bool, p: Patch)
      modifies this`tree, this`runs
      ensures LandsAs(patch, landed, p, old(tree), old(runs), tree, runs)
      ensures patch.target in old(tree) && !(landed && autoApply) ==>
        (tree[patch.target] == old(tree)[patch.target] <==>
         RevertIsSafe(patch, old(tree)[patch.target], testBeforeApply, autoApply && Green(patch, old(tree), |old(runs)|)))
    {
      p := patch;
      landed := false;
      if patch.target !in tree {
        return;
      }
      var original := if patch.originalCode != "" then patch.originalCode else tree[patch.target];
      p := p.(originalCode := original);
      var green;
      green, p := TestPatch(p);
      if !green {
        return;
      }
      if !autoApply {
        p := p.(applied := false);
        tree := tree[p.target := original];
        landed := true;
        return;
      }
      ghost var mid := tree;
      landed, p := ApplyPatch(p);
      forall f | f != patch.target && f != Backup(patch.target) ensures SameFile(old(tree), tree, f) {
        assert SameFile(mid, tree, f);
      }
    }

    /** What landing a fresh patch means for the policy. */
    ghost predicate LandsWell(p: Patch, before: Worktree, after: Worktree, runs: seq<TestRun>) {
      && (forall f :: f != p.target && (!autoApply || f != Backup(p.target)) ==> SameFile(before, after, f))
      && (SameFile(before, after, Backup(p.target)) || (autoApply && Backup(p.target) !in after))
      && (!p.applied ==> SameFile(before, after, p.target))
      && (p.applied ==> autoApply && p.target in before && p.target in after && after[p.target] == p.patchedCode)
      && (p.applied && testBeforeApply ==> HadGreenRun(p, runs))
    }

    ghost function Now(): Snapshot
      reads this
    {
      Snapshot(tree, patches, runs)
    }

    /** One issue of the cycle: nothing happens exactly when the generator has no patch for it at the worktree it sees;
    otherwise the patch lands, is booked, and its outcome is told by whether it landed and is marked applied. */
    ghost predicate StepsTo(issue: string, before: Snapshot, after: Snapshot, outcome: Outcome) {
      match generate(|before.patches|, issue, before.tree)
      case None => outcome == NoPatch && after == before
      case Some(o) =>
        && |after.patches| == |before.patches| + 1 && before.patches == after.patches[..|before.patches|]
        && var p := after.patches[|before.patches|];
           && LandsAs(o, outcome != Rejected, p, before.tree, before.runs, after.tree, after.runs)
           && (outcome == Applied <==> outcome != Rejected && p.applied) && outcome != NoPatch
    }

    /** One issue of the cycle: generate a patch for it, land it, and book it. */
    method ProcessIssue(issue: string) returns (outcome: Outcome)
      requires |offers| == |patches|
      modifies this`tree, this`runs, this`patches, this`offers
      ensures |offers| == |patches| && old(runs) <= runs
      ensures StepsTo(issue, old(Now()), Now(), outcome)
      ensures outcome == NoPatch ==> offers == old(offers)
      ensures outcome != NoPatch ==>
        var offer := generate(old(|patches|), issue, old(tree));
        && offer.Some? && offers == old(offers) + [Offer(offer.value, old(tree))]
        && Lands(issue, offer.value, patches[|patches| - 1], outcome, old(tree), tree, runs)
    {
      var patch := generate(|patches|, issue, tree);
      if patch == None {
        return NoPatch;
      }
      offers := offers + [Offer(patch.value, tree)];
      var landed, p := ValidateAndLand(patch.value);
      patches := patches + [p];
      outcome := if !landed then Rejected else if p.applied then Applied else Proposed;
      if patch.value.target in old(tree) && testBeforeApply && p.applied && IsUnmarked(patch.value) {
        assert runs[|old(runs)|].green;
      }
    }

    /** What becomes of an offered patch `o`: `p` afterwards. Its flags tell the outcome if it came unmarked, the
    policy holds of it if it came fresh, and one that carries the content read writes to no other file and empties
    its own only with empty code. */
    ghost predicate Lands(issue: string, o: Patch, p: Patch, outcome: Outcome, before: Worktree, after: Worktree, runs: seq<TestRun>) {
      && outcome != NoPatch
      && (IsUnmarked(o) ==> FlagsTell(p, outcome != Rejected, testBeforeApply) && (outcome == Applied <==> p.applied))
      && (IsFresh(Offer(o, before), testBeforeApply, autoApply) ==> LandsWell(p, before, after, runs))
      && (ReadsFile(o, issue, before) ==> forall f :: f != issue ==> SameFile(before, after, f) || f !in after)
      && (ReadsFile(o, issue, before) && before[issue] != "" && o.patchedCode != "" && issue in after ==> after[issue] != "")
    }

    /** Everything the policy promises about the patches of one cycle. */
    ghost predicate PolicyHolds(start: Worktree, tree: Worktree, mine: seq<Patch>, runs: seq<TestRun>) {
      && (forall f :: FileOk(start, tree, mine, f))
      && (testBeforeApply ==> forall i :: 0 <= i < |mine| && mine[i].applied ==> HadGreenRun(mine[i], runs))
      && (!autoApply ==> forall f :: SameFile(start, tree, f))
    }

    lemma {:induction false} PolicyKept(start: Worktree, before: Worktree, after: Worktree, mine: seq<Patch>, p: Patch,
                     runs: seq<TestRun>, runs': seq<TestRun>)
      requires PolicyHolds(start, before, mine, runs) && LandsWell(p, before, after, runs') && runs <= runs'
      ensures PolicyHolds(start, after, mine + [p], runs')
    {
      var more := mine + [p];
      forall f ensures FileOk(start, after, more, f) {
        assert FileOk(start, before, mine, f);
        FileOkAfterLanding(start, before, after, mine, p, f);
      }
      forall i | testBeforeApply && 0 <= i < |more| && more[i].applied ensures HadGreenRun(more[i], runs') {
        if i < |mine| {
          assert mine[i].applied;
          GreenRunStays(mine[i], runs, runs'[|runs|..]);
          assert runs + runs'[|runs|..] == runs';
        }
      }
      forall f | !autoApply ensures SameFile(start, after, f) {
        assert SameFile(start, before, f) && SameFile(before, after, f);
      }
    }

    lemma {:induction false} BooksKept(before: seq<Patch>, t: CycleResult, p: Patch, outcome: Outcome)
      requires outcome != NoPatch && FlagsTell(p, outcome != Rejected, testBeforeApply) && (outcome == Applied <==> p.applied)
      requires BooksAgree(testBeforeApply, before, t)
      ensures BooksAgree(testBeforeApply, before + [p], Count(t, outcome))
    {
      CountOfAppend(before, p, Applied);
      CountOfAppend(before, p, Proposed);
      CountOfAppend(before, p, Rejected);
    }

    /** If all that was offered since is fresh, the policy holds. */
    ghost predicate PolicyIfFresh(start: Worktree, before: nat)
      reads this
      requires before <= |patches|
    {
      AllFresh(offers, before, testBeforeApply, autoApply) ==> PolicyHolds(start, tree, patches[before..], runs)
    }

    /** One round of the cycle keeps the policy and the books. */
    method StepCycle(issue: string, ghost start: Worktree, ghost before: nat, ghost booked: CycleResult) returns (outcome: Outcome)
      requires before <= |patches| == |offers| && PolicyIfFresh(start, before)
      requires AllUnmarked(offers) ==> BooksAgree(testBeforeApply, patches, booked)
      modifies this`tree, this`runs, this`patches, this`offers
      ensures old(patches) <= patches && |patches| == |offers| == old(|patches|) + if outcome == NoPatch then 0 else 1
      ensures PolicyIfFresh(start, before)
      ensures AllUnmarked(offers) ==> BooksAgree(testBeforeApply, patches, Count(booked, outcome))
      ensures StepsTo(issue, old(Now()), Now(), outcome)
      ensures outcome == NoPatch ==> offers == old(offers)
      ensures outcome != NoPatch ==>
        var offer := generate(old(|patches|), issue, old(tree));
        && offer.Some? && offers == old(offers) + [Offer(offer.value, old(tree))]
        && Lands(issue, offer.value, patches[|patches| - 1], outcome, old(tree), tree, runs)
    {
      ghost var tree0, runs0, patches0, offers0 := tree, runs, patches, offers;
      outcome := ProcessIssue(issue);
      if outcome != NoPatch {
        ghost var p, o := patches[|patches| - 1], offers[|offers| - 1];
        assert patches == patches0 + [p] && offers == offers0 + [o];
        if AllFresh(offers, before, testBeforeApply, autoApply) {
          FreshBefore(offers0, o, before, testBeforeApply, autoApply);
          assert patches[before..] == patches0[before..] + [p];
          PolicyKept(start, tree0, tree, patches0[before..], p, runs0, runs);
        }
        if AllUnmarked(offers) {
          UnmarkedBefore(offers0, o);
          BooksKept(patches0, booked, p, outcome);
        }
      }
    }

    lemma {:induction false} CountAdds(t: CycleResult, r: CycleResult, outcome: Outcome)
      ensures Count(Add(t, r), outcome) == Add(t, Count(r, outcome))
    {
    }

    lemma {:induction false} CountBalances(r: CycleResult, outcome: Outcome)
      requires r.generated == r.applied + r.proposed + r.rejected
      ensures var r' := Count(r, outcome);
              && r'.generated == r'.applied + r'.proposed + r'.rejected && r'.cycle == r.cycle
              && r'.generated == r.generated + if outcome == NoPatch then 0 else 1
    {
    }

    /** When every offer is fresh although the generator hands over what it reads: tests or auto-apply are off, or no
    file at issue is empty, and none is emptied before it is read again. */
    ghost predicate ReadsFullFiles(start: Worktree, todo: seq<string>) {
      && ReadsContent(generate)
      && (testBeforeApply && autoApply ==> AllFull(start, todo, 0) && (Distinct(todo) || NeverEmpty(generate)))
    }

    /** The files at the issues still to come are not empty, where that matters. */
    ghost predicate StaysFull(tree: Worktree, todo: seq<string>, i: nat) {
      testBeforeApply && autoApply ==> AllFull(tree, todo, i)
    }

    lemma {:induction false} NextIsFull(start: Worktree, todo: seq<string>, i: nat, before: Worktree, after: Worktree,
                                        n: nat, p: Patch, outcome: Outcome, runs: seq<TestRun>)
      requires ReadsFullFiles(start, todo) && i < |todo| && StaysFull(before, todo, i)
      requires generate(n, todo[i], before).Some?
      requires Lands(todo[i], generate(n, todo[i], before).value, p, outcome, before, after, runs)
      ensures IsFresh(Offer(generate(n, todo[i], before).value, before), testBeforeApply, autoApply)
      ensures StaysFull(after, todo, i + 1)
    {
      var o := generate(n, todo[i], before).value;
      assert ReadsFile(o, todo[i], before);
      if testBeforeApply && autoApply {
        forall j | i + 1 <= j < |todo| && todo[j] in after ensures after[todo[j]] != "" {
          if todo[j] != todo[i] {
            assert SameFile(before, after, todo[j]);
          }
        }
      }
    }

    ghost predicate FreshIfFull(start: Worktree, before: nat, todo: seq<string>, i: nat)
      reads this
    {
      ReadsFullFiles(start, todo) ==> AllFresh(offers, before, testBeforeApply, autoApply) && StaysFull(tree, todo, i)
    }

    /** One round of the cycle, at issue `i`, also keeps what was offered fresh. */
    method StepFull(todo: seq<string>, i: nat, ghost start: Worktree, ghost before: nat, ghost booked: CycleResult)
      returns (outcome: Outcome)
      requires i < |todo| && before <= |patches| == |offers| && PolicyIfFresh(start, before) && FreshIfFull(start, before, todo, i)
      requires AllUnmarked(offers) ==> BooksAgree(testBeforeApply, patches, booked)
      modifies this`tree, this`runs, this`patches, this`offers
      ensures old(patches) <= patches && |patches| == |offers| == old(|patches|) + if outcome == NoPatch then 0 else 1
      ensures StepsTo(todo[i], old(Now()), Now(), outcome)
      ensures old(offers) <= offers && PolicyIfFresh(start, before) && FreshIfFull(start, before, todo, i + 1)
      ensures AllUnmarked(offers) ==> BooksAgree(testBeforeApply, patches, Count(booked, outcome))
    {
      ghost var tree0, n := tree, |patches|;
      outcome := StepCycle(todo[i], start, before, booked);
      if outcome != NoPatch && ReadsFullFiles(start, todo) {
        NextIsFull(start, todo, i, tree0, tree, n, patches[|patches| - 1], outcome, runs);
      }
    }

    /** A whole cycle, moment by moment: one step per issue, in order, each from where the last one ended. */
    ghost predicate IsCycle(todo: seq<string>, trace: seq<Snapshot>, outcomes: seq<Outcome>) {
      |trace| == |todo| + 1 && |outcomes| == |todo|
      && forall i :: 0 <= i < |todo| ==> StepsTo(todo[i], trace[i], trace[i + 1], outcomes[i])
    }

    lemma {:induction false} CycleNext(todo: seq<string>, i: nat, trace: seq<Snapshot>, outcomes: seq<Outcome>, next: Snapshot, outcome: Outcome)
      requires i < |todo| && IsCycle(todo[..i], trace, outcomes) && StepsTo(todo[i], trace[i], next, outcome)
      ensures IsCycle(todo[..i + 1], trace + [next], outcomes + [outcome])
    {
      var more, outs := trace + [next], outcomes + [outcome];
      forall k | 0 <= k < i + 1 ensures StepsTo(todo[..i + 1][k], more[k], more[k + 1], outs[k]) {
        if k < i {
          assert StepsTo(todo[..i][k], trace[k], trace[k + 1], outcomes[k]);
        }
      }
    }

    /** The loop of `run_evolution_cycle`: every generated patch ends applied, proposed or rejected. */
    method ProcessIssues(todo: seq<string>, ghost booked: CycleResult)
      returns (result: CycleResult, ghost trace: seq<Snapshot>, ghost outcomes: seq<Outcome>)
      requires |patches| == |offers| && (AllUnmarked(offers) ==> BooksAgree(testBeforeApply, patches, booked))
      modifies this`tree, this`runs, this`patches, this`offers
      ensures IsCycle(todo, trace, outcomes) && trace[0] == old(Now()) && trace[|todo|] == Now() && Tallies(result, outcomes)
      ensures old(patches) <= patches && |patches| == |offers| == old(|patches|) + result.generated && result.cycle == cycle
      ensures old(offers) <= offers
      ensures result.generated == result.applied + result.proposed + result.rejected <= |todo|
      ensures AllUnmarked(offers) ==> BooksAgree(testBeforeApply, patches, Add(booked, result))
      ensures PolicyIfFresh(old(tree), old(|patches|))
      ensures ReadsFullFiles(old(tree), todo) ==> AllFresh(offers, old(|patches|), testBeforeApply, autoApply)
    {
      result := CycleResult(cycle, 0, 0, 0, 0);
      trace, outcomes := [Now()], [];
      for i := 0 to |todo|
        invariant IsCycle(todo[..i], trace, outcomes) && trace[0] == old(Now()) && trace[i] == Now() && Tallies(result, outcomes)
        invariant old(patches) <= patches && |patches| == |offers| == old(|patches|) + result.generated && result.cycle == cycle
        invariant old(offers) <= offers
        invariant result.generated == result.applied + result.proposed + result.rejected <= i
        invariant AllUnmarked(offers) ==> BooksAgree(testBeforeApply, patches, Add(booked, result))
        invariant PolicyIfFresh(old(tree), old(|patches|))
        invariant FreshIfFull(old(tree), old(|patches|), todo, i)
      {
        var outcome := StepFull(todo, i, old(tree), old(|patches|), Add(booked, result));
        CycleNext(todo, i, trace, outcomes, Now(), outcome);
        TalliesNext(result, outcomes, outcome);
        CountAdds(booked, result, outcome);
        CountBalances(result, outcome);
        result := Count(result, outcome);
        trace, outcomes := trace + [Now()], outcomes + [outcome];
      }
      assert todo[..|todo|] == todo;
    }

    /** `run_evolution_cycle` over the issues that the analysis found: the first of them are worked off one by one. The
    policy holds if what the generator offered in this cycle was fresh, and it was if the generator reads content and
    the files are full. */
    method RunCycle(issues: seq<string>) returns (result: CycleResult, ghost trace: seq<Snapshot>, ghost outcomes: seq<Outcome>)
      requires Valid()
      modifies this
      ensures Valid() && history == old(history) + [result] && cycle == old(cycle) + 1 == result.cycle
      ensures var todo := if enabled then FirstIssues(issues, maxPatches) else [];
              IsCycle(todo, trace, outcomes) && trace[0] == old(Now()) && trace[|todo|] == Now() && Tallies(result, outcomes)
      ensures old(patches) <= patches && old(offers) <= offers && |patches| == old(|patches|) + result.generated
      ensures result.generated == result.applied + result.proposed + result.rejected <= |issues|
      ensures maxPatches >= 0 ==> result.generated <= maxPatches
      ensures !enabled ==> result.generated == 0 && tree == old(tree) && runs == old(runs)
      ensures AllFresh(offers, old(|patches|), testBeforeApply, autoApply) ==>
        PolicyHolds(old(tree), tree, patches[old(|patches|)..], runs)
      ensures ReadsFullFiles(old(tree), FirstIssues(issues, maxPatches)) ==>
        AllFresh(offers, old(|patches|), testBeforeApply, autoApply)
    {
      cycle := cycle + 1;
      result, trace, outcomes := WorkOff(issues);
      TotalOfPrefix(history, result, |history|);
      history := history + [result];
    }

    /** The cycle before it is entered into the history: a disabled engine generates nothing. */
    method WorkOff(issues: seq<string>) returns (result: CycleResult, ghost trace: seq<Snapshot>, ghost outcomes: seq<Outcome>)
      requires Valid()
      modifies this`tree, this`runs, this`patches, this`offers
      ensures var todo := if enabled then FirstIssues(issues, maxPatches) else [];
              IsCycle(todo, trace, outcomes) && trace[0] == old(Now()) && trace[|todo|] == Now() && Tallies(result, outcomes)
      ensures old(patches) <= patches && old(offers) <= offers && result.cycle == cycle
      ensures |patches| == |offers| == old(|patches|) + result.generated
      ensures result.generated == result.applied + result.proposed + result.rejected <= |issues|
      ensures maxPatches >= 0 ==> result.generated <= maxPatches
      ensures !enabled ==> result.generated == 0 && tree == old(tree) && runs == old(runs)
      ensures AllUnmarked(offers) ==> BooksAgree(testBeforeApply, patches, Add(Total(history), result))
      ensures PolicyIfFresh(old(tree), old(|patches|))
      ensures ReadsFullFiles(old(tree), FirstIssues(issues, maxPatches)) ==>
        AllFresh(offers, old(|patches|), testBeforeApply, autoApply)
    {
      if !enabled {
        result := CycleResult(cycle, 0, 0, 0, 0);
        trace, outcomes := [Now()], [];
        return;
      }
      FirstIssuesIs(issues, maxPatches);
      result, trace, outcomes := ProcessIssues(FirstIssues(issues, maxPatches), Total(history));
    }

    /** `get_stats`. The books agree with the history exactly when tests are required or nothing was
    ever proposed: without tests a proposal is indistinguishable from a rejection. */
    method GetStats() returns (s: Stats)
      requires Valid()
      ensures s == Stats(cycle, |patches|, CountMarked(patches, Applied), CountMarked(patches, Proposed), CountMarked(patches, Rejected))
      ensures AllUnmarked(offers) ==>
        var t := Total(history);
        && s.total == t.generated && s.applied == t.applied
        && (s.proposed == t.proposed && s.rejected == t.rejected <==> testBeforeApply || t.proposed == 0)
    {
      var applied, proposed, rejected := 0, 0, 0;
      for i := 0 to |patches|
        invariant applied == CountFirst(patches, i, Applied) && proposed == CountFirst(patches, i, Proposed)
        invariant rejected == CountFirst(patches, i, Rejected)
      {
        applied := applied + if patches[i].applied then 1 else 0;
        proposed := proposed + if !patches[i].applied && patches[i].testsPassed then 1 else 0;
        rejected := rejected + if !patches[i].applied && !patches[i].testsPassed then 1 else 0;
      }
      return Stats(cycle, |patches|, applied, proposed, rejected);
    }
  }

  /** The result with one more outcome counted. */
  function Count(r: CycleResult, outcome: Outcome): CycleResult {
    match outcome
    case NoPatch => r
    case Applied => r.(generated := r.generated + 1, applied := r.applied + 1)
    case Proposed => r.(generated := r.generated + 1, proposed := r.proposed + 1)
    case Rejected => r.(generated := r.generated + 1, rejected := r.rejected + 1)
  }


  // ---------- the families of unsafe reverts ----------

  /** An empty target: the tests pass, the code does not compile, the patch is rejected, and its code stays. */
  method EmptyTargetKeepsRejectedCode(runner: Runner, generate: Generator) returns (landed: bool, p: Patch, content: string)
    requires forall n, tree :: runner(n, tree)
    ensures !landed && !p.applied && content == "new"
  {
    var engine := new EvolutionEngine(true, true, true, 1, runner, (_, _) => false, generate, map["f" := ""]);
    landed, p := engine.ValidateAndLand(Patch("f", "", "new", false, false));
    content := engine.tree["f"];
  }

  /** A stale original: the patch is only proposed, and yet its target is overwritten. */
  method ProposalWritesStaleOriginal(runner: Runner, compiles: Compiler, generate: Generator)
    returns (landed: bool, p: Patch, content: string)
    ensures landed && !p.applied && content == "old"
  {
    var engine := new EvolutionEngine(true, false, false, 1, runner, compiles, generate, map["f" := "current"]);
    landed, p := engine.ValidateAndLand(Patch("f", "old", "new", false, false));
    content := engine.tree["f"];
  }

  /** Why files must stay full: the first patch of a cycle empties a file and is applied; the second, for the same
  file, reads nothing, passes the tests, does not compile, is rejected, and stays. */
  method EmptiedFileKeepsRejectedCode(runner: Runner, generate: Generator) returns (first: Patch, second: Patch, content: string)
    requires forall n, tree :: runner(n, tree)
    ensures first.applied && first.patchedCode == "" && !second.applied && content == second.patchedCode == "bad"
  {
    var engine := new EvolutionEngine(true, true, true, 2, runner, (_, code) => code == "", generate, map["f" := "x"]);
    var landed;
    landed, first := engine.ValidateAndLand(Patch("f", "x", "", false, false));
    landed, second := engine.ValidateAndLand(Patch("f", engine.tree["f"], "bad", false, false));
    content := engine.tree["f"];
  }
}
