/** The logger of noema/audit/logger.py in file-fallback mode: a leaf list, the incremental tree over it,
and an append-only directory of per-tenant files that a later process reloads. */
module AuditLogger {
  import opened Bytes
  import opened Sequences
  import opened StaticMerkle
  import opened AuditLog
  import IncrementalMerkle

  class FallbackDir {
    var files: Files

    constructor ()
      ensures files == map[]
    {
      files := map[];
    }
  }

  class AuditEvent {
    const leaf: LeafData
    var commitment: Option<string>
    var chainLink: Option<string>
    var blockIndex: Option<int>

    constructor (leaf: LeafData)
      ensures this.leaf == leaf && commitment == None && chainLink == None && blockIndex == None
    {
      this.leaf := leaf;
      commitment, chainLink, blockIndex := None, None, None;
    }

    function AsRecord(): Record
      reads this
    {
      Record(leaf, commitment, chainLink, blockIndex)
    }
  }

  datatype LogOutcome = Saved | WriteFailed | TenantRejected
  datatype ProofOutcome =
    | InvalidTenant
    | TaskNotFound
    | ProofError(error: ProofResult)
    | Found(proof: InclusionProof, leafData: LeafData)

  /** What becomes of an event's record: a tenant id that names no file is rejected before the disk is touched. */
  function StoreOutcome(e: LeafData, diskOk: bool): LogOutcome {
    if TenantFilename(e.tenantId) == None then TenantRejected else if diskOk then Saved else WriteFailed
  }

  predicate IsStored(e: LeafData, diskOk: bool) {
    StoreOutcome(e, diskOk) == Saved
  }

  /** The answer for a proof result. */
  function Answer(result: ProofResult, leafData: LeafData): ProofOutcome {
    if result.Proved? then Found(result.proof, leafData) else ProofError(result)
  }

  /** What `_get_proof_fallback` answers in any state: the last matching record of the tenant's file is proved at its
  block index, over the leaves in memory if the index is among them and otherwise over the file's own commitments. */
  function LookUp(h: Hash, ser: Serializer, leaves: seq<Bytes>, files: Files, tenantId: string, taskId: string): ProofOutcome {
    match TenantFilename(tenantId)
    case None => InvalidTenant
    case Some(name) =>
      var file := FileOrEmpty(files, name);
      match LastMatch(file, tenantId, taskId)
      case None => TaskNotFound
      case Some(last) => Answer(ProofOver(h, ser, LeavesFor(leaves, file, SortKey(last)), last.leaf, SortKey(last)), last.leaf)
  }

  /** A matching record with a block index was saved. */
  ghost predicate IsSaved(saved: seq<Record>, index: nat, tenantId: string, taskId: string) {
    exists k :: 0 <= k < |saved| && Matches(saved[k], tenantId, taskId) && SortKey(saved[k]) == index
  }

  /** The tenant has a saved record of the task. */
  ghost predicate HasTask(saved: seq<Record>, tenantId: string, taskId: string) {
    exists k :: 0 <= k < |saved| && saved[k].leaf.tenantId == tenantId && saved[k].leaf.taskId == Some(taskId)
  }

  /** A found record: the matching one with the largest block index, and a proof that is accepted for its data. */
  ghost predicate IsFound(h: Hash, ser: Serializer, events: seq<LeafData>, saved: seq<Record>, r: ProofOutcome, tenantId: string, taskId: string) {
    r.Found? &&
    var index := r.proof.blockIndex;
    && index < |events| && events[index] == r.leafData && IsSaved(saved, index, tenantId, taskId)
    && r.leafData.tenantId == tenantId && r.leafData.taskId == Some(taskId)
    && (forall k :: 0 <= k < |saved| && Matches(saved[k], tenantId, taskId) ==> SortKey(saved[k]) <= index)
    && r.proof.rootHash == Root(h, Commitments(h, ser, events)) && Accepts(h, r.proof, ser(r.leafData))
  }

  /** What a faithful logger answers: a task is found exactly when a record of it was saved. */
  ghost predicate IsAnswer(h: Hash, ser: Serializer, events: seq<LeafData>, saved: seq<Record>, r: ProofOutcome, tenantId: string, taskId: string) {
    if HasTask(saved, tenantId, taskId) then IsFound(h, ser, events, saved, r, tenantId, taskId)
    else r == if TenantFilename(tenantId) == None then InvalidTenant else TaskNotFound
  }

  lemma {:induction false} ProvedIsFound(h: Hash, ser: Serializer, events: seq<LeafData>, saved: seq<Record>, k: nat,
                                         file: seq<Record>, tenantId: string, taskId: string)
    requires StrictlySorted(saved) && AreRecordsOf(h, ser, events, saved) && k < |saved| && Matches(saved[k], tenantId, taskId)
    requires forall j :: k < j < |saved| ==> !Matches(saved[j], tenantId, taskId)
    ensures var last, leaves := saved[k], Commitments(h, ser, events);
            IsFound(h, ser, events, saved,
                    Answer(ProofOver(h, ser, LeavesFor(leaves, file, SortKey(last)), last.leaf, SortKey(last)), last.leaf), tenantId, taskId)
  {
    LoggedProofAccepts(h, ser, events, SortKey(saved[k]));
    assert IsSaved(saved, SortKey(saved[k]), tenantId, taskId);
    forall j | 0 <= j < |saved| && Matches(saved[j], tenantId, taskId) ensures SortKey(saved[j]) <= SortKey(saved[k]) {
      assert j < k ==> SortKey(saved[j]) < SortKey(saved[k]);
    }
  }

  lemma {:induction false} FaithfulLookUp(h: Hash, ser: Serializer, events: seq<LeafData>, saved: seq<Record>, files: Files,
                                          tenantId: string, taskId: string)
    requires Consistent(h, ser, events, saved, files)
    ensures IsAnswer(h, ser, events, saved, LookUp(h, ser, Commitments(h, ser, events), files, tenantId, taskId), tenantId, taskId)
  {
    var k := LastMatchIsLast(saved, tenantId, taskId);
    match TenantFilename(tenantId)
    case None =>
      forall j | 0 <= j < |saved| ensures !Matches(saved[j], tenantId, taskId) {
        assert TenantFilename(saved[j].leaf.tenantId).Some?;
      }
    case Some(name) =>
      SavedFile(saved, files, name);
      LastMatchInFile(saved, name, tenantId, taskId);
      if LastMatch(saved, tenantId, taskId).Some? {
        ProvedIsFound(h, ser, events, saved, k, FileOrEmpty(files, name), tenantId, taskId);
      }
  }

  class Logger {
    const h: Hash
    const ser: Serializer
    const dir: FallbackDir
    var initialized: bool
    var leafHashes: seq<Bytes>
    var tree: IncrementalMerkle.IncrementalMerkleTree?
    ghost var events: seq<LeafData>  // everything logged, across restarts
    ghost var saved: seq<Record>     // the records that reached the directory

    /** The tree, once there is one, is over exactly the leaf list. */
    ghost predicate Valid()
      reads this, tree
    {
      && (tree != null ==> tree.Valid() && tree.h == h && tree.leaves == leafHashes)
      && (!initialized ==> tree == null && leafHashes == [])
    }

    /** Memory and disk agree with the log of events. */
    ghost predicate Faithful()
      reads this, dir
    {
      initialized && leafHashes == Commitments(h, ser, events) && Consistent(h, ser, events, saved, dir.files)
    }

    constructor (h: Hash, ser: Serializer, dir: FallbackDir)
      ensures Valid() && !initialized && tree == null && leafHashes == []
      ensures this.h == h && this.ser == ser && this.dir == dir
    {
      this.h, this.ser, this.dir := h, ser, dir;
      initialized, leafHashes, tree, events, saved := false, [], null, [], [];
    }

    method SyncTree()
      requires Valid()
      requires initialized
      modifies this`tree
      ensures Valid() && tree != null && (tree == old(tree) || fresh(tree))
    {
      if tree == null || |tree.leaves| != |leafHashes| {
        tree := new IncrementalMerkle.IncrementalMerkleTree(h, leafHashes);
      }
    }

    method LoadLeafHashes(order: seq<string>)
      requires IsListing(dir.files, order)
      modifies this`leafHashes
      ensures leafHashes == Recovered(dir.files, order)
    {
      leafHashes := [];
      var records: seq<Record> := [];
      for i := 0 to |order|
        invariant records == ReadAll(dir.files, order, i)
      {
        records := records + dir.files[order[i]];
      }
      records := SortByIndex(records);
      leafHashes := CollectCommitments(records);
    }

    static method CollectCommitments(records: seq<Record>) returns (hashes: seq<Bytes>)
      ensures hashes == LeafHashesOf(records, |records|)
    {
      hashes := [];
      for i := 0 to |records|
        invariant hashes == LeafHashesOf(records, i)
      {
        var c := records[i].commitment;
        if c.Some? && c.value != "" {
          var bytes := FromHex(c.value);
          if bytes.Some? {
            hashes := hashes + [bytes.value];
          }
        }
      }
    }

    /** A new process starts from whatever the directory holds. If `past` is the log that wrote it
    and every one of its writes succeeded, the logger continues that log. */
    method Initialize(order: seq<string>, ghost past: seq<LeafData>, ghost pastSaved: seq<Record>)
      requires tree == null && IsListing(dir.files, order)
      modifies this
      ensures Valid() && initialized && leafHashes == Recovered(dir.files, order)
      ensures tree != null && fresh(tree)
      ensures events == past && saved == pastSaved
      ensures Consistent(h, ser, past, pastSaved, dir.files) ==> |leafHashes| == |pastSaved|
      ensures Consistent(h, ser, past, pastSaved, dir.files) && |pastSaved| == |past| ==> Faithful()
    {
      initialized := true;
      LoadLeafHashes(order);
      SyncTree();
      events, saved := past, pastSaved;
      if Consistent(h, ser, past, pastSaved, dir.files) {
        RestartRecoversIff(h, ser, past, pastSaved, dir.files, order);
        NextIndexAfterRestart(h, ser, past, pastSaved, dir.files, order);
      }
    }

    method GetPrevRoot() returns (root: Bytes)
      requires Valid() && initialized
      modifies this`tree
      ensures Valid() && tree != null && (tree == old(tree) || fresh(tree))
      ensures root == Root(h, leafHashes)
    {
      SyncTree();
      root := tree.GetRoot();
    }

    /** `log`: load the directory first if that has not been done, then take the event. */
    method Log(event: AuditEvent, diskOk: bool, order: seq<string>, ghost past: seq<LeafData>, ghost pastSaved: seq<Record>)
      returns (r: LogOutcome)
      requires Valid() && (!initialized ==> IsListing(dir.files, order))
      modifies this, tree, dir, event
      ensures Valid() && initialized && tree != null && (tree == old(tree) || fresh(tree))
      ensures var before := if old(initialized) then old(leafHashes) else Recovered(old(dir.files), order);
              && leafHashes == before + [Commitment(h, ser, event.leaf)]
              && event.blockIndex == Some(|before|) && event.commitment == Some(Hex(Commitment(h, ser, event.leaf)))
              && event.chainLink == Some(Hex(ChainLink(h, ser, before, event.leaf)))
      ensures old(initialized) && old(Faithful()) ==> Faithful() && events == old(events) + [event.leaf]
      ensures !old(initialized) && |pastSaved| == |past| && Consistent(h, ser, past, pastSaved, old(dir.files)) ==>
        Faithful() && events == past + [event.leaf]
      ensures r == StoreOutcome(event.leaf, diskOk)
    {
      if !initialized {
        Initialize(order, past, pastSaved);
      }
      r := LogLoaded(event, diskOk);
    }

    /** `log` on a loaded logger. The leaf is taken into memory before the write is attempted, so a failed
    write or a rejected tenant id loses the record but not the leaf. */
    method LogLoaded(event: AuditEvent, diskOk: bool) returns (r: LogOutcome)
      requires Valid() && initialized
      modifies this, tree, dir, event
      ensures Valid() && initialized && tree != null && (tree == old(tree) || fresh(tree))
      ensures leafHashes == old(leafHashes) + [Commitment(h, ser, event.leaf)]
      ensures event.blockIndex == Some(old(|leafHashes|))
      ensures event.commitment == Some(Hex(Commitment(h, ser, event.leaf)))
      ensures event.chainLink == Some(Hex(ChainLink(h, ser, old(leafHashes), event.leaf)))
      ensures old(Faithful()) ==> Faithful() && events == old(events) + [event.leaf]
      ensures old(Faithful()) ==> event.AsRecord() == RecordFor(h, ser, events, old(|events|))
      ensures saved == if r == Saved then old(saved) + [event.AsRecord()] else old(saved)
      ensures r == StoreOutcome(event.leaf, diskOk)
    {
      Commit(event);
      r := WriteFallback(event, diskOk);
      if old(Faithful()) {
        NextRecord(h, ser, old(events), event.leaf);
        LogKeepsConsistent(h, ser, old(events), event.leaf, old(saved), old(dir.files), r == Saved);
      }
    }

    method LogNew(leaf: LeafData, diskOk: bool)
      requires Valid() && Faithful()
      modifies this, tree, dir
      ensures Valid() && Faithful() && tree != null && (tree == old(tree) || fresh(tree))
      ensures events == old(events) + [leaf]
      ensures |saved| == old(|saved|) + if IsStored(leaf, diskOk) then 1 else 0
    {
      var event := new AuditEvent(leaf);
      var _ := LogLoaded(event, diskOk);
    }

    /** The in-memory half of `log`: stamp the event and take its commitment as the next leaf. */
    method Commit(event: AuditEvent)
      requires Valid() && initialized
      modifies this`leafHashes, this`tree, tree, event
      ensures Valid() && tree != null && (tree == old(tree) || fresh(tree))
      ensures leafHashes == old(leafHashes) + [Commitment(h, ser, event.leaf)]
      ensures event.blockIndex == Some(old(|leafHashes|))
      ensures event.commitment == Some(Hex(Commitment(h, ser, event.leaf)))
      ensures event.chainLink == Some(Hex(ChainLink(h, ser, old(leafHashes), event.leaf)))
    {
      var payload := ser(event.leaf);
      var blockIndex := |leafHashes|;
      var commitment := SafeHash(h, payload);
      var prevRoot := GetPrevRoot();
      var chainLink := SafeHash(h, prevRoot + payload + Ascii(Decimal(blockIndex)));
      event.commitment := Some(Hex(commitment));
      event.chainLink := Some(Hex(chainLink));
      event.blockIndex := Some(blockIndex);
      leafHashes := leafHashes + [commitment];
      tree.Append(commitment);
    }

    /** `_write_fallback`: append the event's record to its tenant's file. */
    method WriteFallback(event: AuditEvent, diskOk: bool) returns (r: LogOutcome)
      modifies dir, this`events, this`saved
      ensures r == StoreOutcome(event.leaf, diskOk)
      ensures (r == TenantRejected <==> TenantFilename(event.leaf.tenantId) == None) && (r == Saved ==> diskOk)
      ensures TenantFilename(event.leaf.tenantId).Some? && diskOk ==> r == Saved
      ensures dir.files == if r == Saved then SavedTo(old(dir.files), event.AsRecord()) else old(dir.files)
      ensures events == old(events) + [event.leaf]
      ensures saved == if r == Saved then old(saved) + [event.AsRecord()] else old(saved)
    {
      events := events + [event.leaf];
      var name := TenantFilename(event.leaf.tenantId);
      if name == None {
        return TenantRejected;
      }
      if !diskOk {
        return WriteFailed;
      }
      dir.files := dir.files[name.value := FileOrEmpty(dir.files, name.value) + [event.AsRecord()]];
      saved := saved + [event.AsRecord()];
      return Saved;
    }

    /** `_get_proof_fallback`. */
    method GetProof(tenantId: string, taskId: string) returns (r: ProofOutcome)
      requires Valid()
      modifies this`tree
      ensures Valid() && (tree == old(tree) || fresh(tree))
      ensures r == LookUp(h, ser, leafHashes, dir.files, tenantId, taskId)
      ensures Faithful() ==> IsAnswer(h, ser, events, saved, r, tenantId, taskId)
    {
      if Faithful() {
        FaithfulLookUp(h, ser, events, saved, dir.files, tenantId, taskId);
      }
      var name := TenantFilename(tenantId);
      if name == None {
        return InvalidTenant;
      }
      var target, hashes := ScanFile(name.value, tenantId, taskId);
      if target == None {
        return TaskNotFound;
      }
      var leafData, index := target.value.leaf, SortKey(target.value);
      var result := ProveAt(leafData, index, hashes);
      return Answer(result, leafData);
    }

    /** A proof from the tree when the index is in memory, otherwise over the commitments of the tenant's own file. */
    method ProveAt(leafData: LeafData, index: int, hashes: seq<Bytes>) returns (result: ProofResult)
      requires Valid()
      modifies this`tree
      ensures Valid() && (tree == old(tree) || fresh(tree))
      ensures result == ProofOver(h, ser, if 0 <= index < |leafHashes| then leafHashes else hashes, leafData, index)
    {
      if leafHashes != [] && 0 <= index < |leafHashes| {
        SyncTree();
        result := tree.MakeInclusionProof(ser(leafData), index);
      } else {
        result := GenerateInclusionProof(h, ser(leafData), index, hashes);
      }
    }

    /** The last matching record of the tenant's file, and the commitments of the whole file. */
    method ScanFile(name: string, tenantId: string, taskId: string) returns (target: Option<Record>, hashes: seq<Bytes>)
      ensures target == LastMatch(FileOrEmpty(dir.files, name), tenantId, taskId)
      ensures hashes == SortedHashes(FileOrEmpty(dir.files, name))
    {
      var file := FileOrEmpty(dir.files, name);
      target := None;
      for i := 0 to |file|
        invariant target == LastMatch(file[..i], tenantId, taskId)
      {
        assert file[..i + 1][..i] == file[..i];
        if Matches(file[i], tenantId, taskId) {
          target := Some(file[i]);
        }
      }
      assert file[..|file|] == file;
      hashes := CollectCommitments(SortByIndex(file));
    }
  }

  /** A file, or its absence, shows the records saved for it. */
  lemma {:induction false} SavedFile(saved: seq<Record>, files: Files, name: string)
    requires Holds(files, saved)
    ensures FileOrEmpty(files, name) == Select(saved, name)
  {
    if name !in files {
      forall i | 0 <= i < |saved| ensures TenantFilename(saved[i].leaf.tenantId) != Some(name) {
      }
      SelectOfNoTenant(saved, name);
    }
  }

  ghost predicate AllStored(batch: seq<LeafData>, diskOk: nat -> bool) {
    forall k :: 0 <= k < |batch| ==> IsStored(batch[k], diskOk(k))
  }

  /** Which events of a batch were stored. */
  function Stored(batch: seq<LeafData>, diskOk: nat -> bool): (flags: seq<bool>)
    ensures |flags| == |batch|
  {
    seq(|batch|, k requires 0 <= k < |batch| => IsStored(batch[k], diskOk(k)))
  }

  function CountTrue(flags: seq<bool>, n: nat): nat
    requires n <= |flags|
  {
    if n == 0 then 0 else CountTrue(flags, n - 1) + if flags[n - 1] then 1 else 0
  }

  function CountStored(batch: seq<LeafData>, diskOk: nat -> bool): nat {
    CountTrue(Stored(batch, diskOk), |batch|)
  }

  lemma {:induction false} CountIsFull(flags: seq<bool>, n: nat)
    requires n <= |flags|
    ensures CountTrue(flags, n) <= n
    ensures CountTrue(flags, n) == n <==> forall k :: 0 <= k < n ==> flags[k]
  {
    if n > 0 {
      CountIsFull(flags, n - 1);
    }
  }

  lemma {:induction false} CountStoredIsFull(batch: seq<LeafData>, diskOk: nat -> bool)
    ensures CountStored(batch, diskOk) <= |batch|
    ensures CountStored(batch, diskOk) == |batch| <==> AllStored(batch, diskOk)
  {
    var flags := Stored(batch, diskOk);
    CountIsFull(flags, |batch|);
    assert forall k :: 0 <= k < |batch| ==> flags[k] == IsStored(batch[k], diskOk(k));
  }

  method StartEmpty(h: Hash, ser: Serializer) returns (logger: Logger)
    ensures fresh(logger) && fresh(logger.dir) && logger.tree != null && fresh(logger.tree)
    ensures logger.h == h && logger.ser == ser && logger.Valid() && logger.Faithful()
    ensures logger.events == [] && logger.saved == []
  {
    var dir := new FallbackDir();
    logger := new Logger(h, ser, dir);
    logger.Initialize([], [], []);
  }

  /** A whole run from an empty directory: the logger stays faithful whatever writes fail, and every
  record is on disk exactly when every event was stored. */
  method Run(h: Hash, ser: Serializer, batch: seq<LeafData>, diskOk: nat -> bool) returns (running: Logger)
    ensures fresh(running) && fresh(running.dir) && running.Valid() && running.Faithful() && running.events == batch
    ensures running.h == h && running.ser == ser
    ensures |running.saved| == CountStored(batch, diskOk)
    ensures |running.saved| == |batch| <==> AllStored(batch, diskOk)
  {
    running := StartEmpty(h, ser);
    for k := 0 to |batch|
      invariant running.tree != null && fresh(running.tree) && fresh(running.dir)
      invariant HasLogged(running, batch, diskOk, k)
    {
      LogAt(running, batch, diskOk, k);
    }
    assert batch[..|batch|] == batch;
    CountStoredIsFull(batch, diskOk);
  }

  /** The logger has taken the first `k` events of a batch and nothing else. */
  ghost predicate HasLogged(logger: Logger, batch: seq<LeafData>, diskOk: nat -> bool, k: nat)
    reads logger, logger.tree, logger.dir
    requires k <= |batch|
  {
    && logger.Valid() && logger.Faithful() && logger.events == batch[..k]
    && |logger.saved| == CountTrue(Stored(batch, diskOk), k)
  }

  method LogAt(logger: Logger, batch: seq<LeafData>, diskOk: nat -> bool, k: nat)
    requires k < |batch| && HasLogged(logger, batch, diskOk, k)
    modifies logger, logger.tree, logger.dir
    ensures HasLogged(logger, batch, diskOk, k + 1) && logger.tree != null && (logger.tree == old(logger.tree) || fresh(logger.tree))
  {
    PrefixGrows(batch, k);
    logger.LogNew(batch[k], diskOk(k));
  }

  /** A restart after a whole run, whatever the order of the directory listing: the new logger has the
  same leaves exactly when every event was stored, and then it continues the same log. */
  method RunThenRestart(h: Hash, ser: Serializer, batch: seq<LeafData>, diskOk: nat -> bool, listing: Files -> seq<string>)
    returns (restarted: Logger)
    requires forall files :: IsListing(files, listing(files))
    ensures fresh(restarted) && fresh(restarted.dir) && restarted.tree != null && fresh(restarted.tree)
    ensures restarted.Valid() && restarted.initialized && |restarted.leafHashes| == CountStored(batch, diskOk)
    ensures restarted.leafHashes == Commitments(h, ser, batch) <==> AllStored(batch, diskOk)
    ensures AllStored(batch, diskOk) ==> restarted.Faithful() && restarted.events == batch
  {
    var running := Run(h, ser, batch, diskOk);
    restarted := new Logger(h, ser, running.dir);
    var order := listing(running.dir.files);
    RestartRecoversIff(h, ser, running.events, running.saved, running.dir.files, order);
    restarted.Initialize(order, running.events, running.saved);
  }

  /** The first event after a restart gets the number of stored events as its block index: a new index exactly when
  every event was stored, and otherwise one that an earlier event got. */
  method RestartThenLog(h: Hash, ser: Serializer, batch: seq<LeafData>, diskOk: nat -> bool, listing: Files -> seq<string>,
                        next: LeafData, nextOk: bool)
    returns (index: int)
    requires forall files :: IsListing(files, listing(files))
    ensures index == CountStored(batch, diskOk) && 0 <= index <= |batch|
    ensures index == |batch| <==> AllStored(batch, diskOk)
  {
    var restarted := RunThenRestart(h, ser, batch, diskOk, listing);
    CountStoredIsFull(batch, diskOk);
    var event := new AuditEvent(next);
    var _ := restarted.LogLoaded(event, nextOk);
    index := event.blockIndex.value;
  }
}
