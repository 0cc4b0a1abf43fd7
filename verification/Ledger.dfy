/** The contribution ledger of noema/billing/ledger.py: a bounded window on an append-only history, and
its per-node aggregation. */
module Ledger {
  import opened Sequences

  datatype Entry = Entry(
    nodeId: string, taskId: string, kind: string, inputTokens: nat, outputTokens: nat, totalTokens: nat,
    costUsd: real, peer: string)

  datatype Aggregate = Aggregate(
    entries: nat, inputTokens: nat, outputTokens: nat, totalTokens: nat, costUsd: real, delegatedToPeers: nat)

  const NO_ENTRIES: Aggregate := Aggregate(0, 0, 0, 0, 0.0, 0)

  function ClampInt(n: int): nat {
    if n > 0 then n else 0
  }

  function MakeEntry(nodeId: string, taskId: string, kind: string, input: int, output: int, cost: real, peer: string): (e: Entry)
    ensures e.nodeId == nodeId && e.taskId == taskId && e.kind == kind && e.peer == peer
    ensures (input >= 0 ==> e.inputTokens == input) && (input < 0 ==> e.inputTokens == 0)
    ensures (output >= 0 ==> e.outputTokens == output) && (output < 0 ==> e.outputTokens == 0)
    ensures (cost >= 0.0 ==> e.costUsd == cost) && (cost < 0.0 ==> e.costUsd == 0.0)
    ensures e.totalTokens == e.inputTokens + e.outputTokens
  {
    Entry(nodeId, taskId, kind, ClampInt(input), ClampInt(output), ClampInt(input) + ClampInt(output),
          if cost > 0.0 then cost else 0.0, peer)
  }

  /** The last `n` elements, or all when there are fewer. */
  function LastOf<T>(s: seq<T>, n: nat): seq<T> {
    if |s| <= n then s else s[|s| - n..]
  }

  ghost predicate TotalsAdd(entries: seq<Entry>) {
    forall i :: 0 <= i < |entries| ==> entries[i].totalTokens == entries[i].inputTokens + entries[i].outputTokens
  }

  // ---------- sums ----------

  /** The aggregate of one node's entries. */
  function NodeAggregate(entries: seq<Entry>, node: string): Aggregate {
    if entries == [] then NO_ENTRIES
    else
      var a, e := NodeAggregate(entries[..|entries| - 1], node), entries[|entries| - 1];
      if e.nodeId == node then AddEntry(a, e) else a
  }

  function AddEntry(a: Aggregate, e: Entry): Aggregate {
    Aggregate(a.entries + 1, a.inputTokens + e.inputTokens, a.outputTokens + e.outputTokens,
              a.totalTokens + e.totalTokens, a.costUsd + e.costUsd, a.delegatedToPeers + if e.peer != "" then 1 else 0)
  }

  function TotalTokens(entries: seq<Entry>): nat {
    if entries == [] then 0 else TotalTokens(entries[..|entries| - 1]) + entries[|entries| - 1].totalTokens
  }

  function TotalCost(entries: seq<Entry>): real {
    if entries == [] then 0.0 else TotalCost(entries[..|entries| - 1]) + entries[|entries| - 1].costUsd
  }

  /** The entries of one task, in order. */
  function OfTask(entries: seq<Entry>, taskId: string): (r: seq<Entry>)
    ensures forall e :: e in r <==> e in entries && e.taskId == taskId
    ensures TotalsAdd(entries) ==> TotalsAdd(r)
  {
    if entries == [] then []
    else
      var init, e := entries[..|entries| - 1], entries[|entries| - 1];
      assert entries == init + [e];
      OfTask(init, taskId) + if e.taskId == taskId then [e] else []
  }

  /** What `per_node` aggregates: the entries of one task, or all for the empty task id. */
  function Selected(entries: seq<Entry>, taskId: string): (r: seq<Entry>)
    ensures TotalsAdd(entries) ==> TotalsAdd(r)
  {
    if taskId == "" then entries else OfTask(entries, taskId)
  }

  function SumTokens(entries: seq<Entry>, nodes: seq<string>): nat {
    if nodes == [] then 0
    else SumTokens(entries, nodes[..|nodes| - 1]) + NodeAggregate(entries, nodes[|nodes| - 1]).totalTokens
  }

  function SumCost(entries: seq<Entry>, nodes: seq<string>): real {
    if nodes == [] then 0.0
    else SumCost(entries, nodes[..|nodes| - 1]) + NodeAggregate(entries, nodes[|nodes| - 1]).costUsd
  }

  /** One more entry adds its tokens and its cost to exactly one of distinct nodes. */
  lemma {:induction false} SumsOfAppend(entries: seq<Entry>, e: Entry, nodes: seq<string>)
    requires Distinct(nodes)
    ensures SumTokens(entries + [e], nodes) == SumTokens(entries, nodes) + if e.nodeId in nodes then e.totalTokens else 0
    ensures SumCost(entries + [e], nodes) == SumCost(entries, nodes) + if e.nodeId in nodes then e.costUsd else 0.0
  {
    if nodes != [] {
      var init, last := nodes[..|nodes| - 1], nodes[|nodes| - 1];
      SumsOfAppend(entries, e, init);
      assert (entries + [e])[..|entries|] == entries;
      assert nodes == init + [last];
    }
  }

  lemma {:induction false} SumsOfNothing(nodes: seq<string>)
    ensures SumTokens([], nodes) == 0 && SumCost([], nodes) == 0.0
  {
    if nodes != [] {
      SumsOfNothing(nodes[..|nodes| - 1]);
    }
  }

  /** Conservation: the per-node totals of any complete listing of the nodes add up to the overall totals. */
  lemma {:induction false} NodesSumToTotal(entries: seq<Entry>, nodes: seq<string>)
    requires Distinct(nodes) && forall i :: 0 <= i < |entries| ==> entries[i].nodeId in nodes
    ensures SumTokens(entries, nodes) == TotalTokens(entries) && SumCost(entries, nodes) == TotalCost(entries)
  {
    if entries == [] {
      SumsOfNothing(nodes);
    } else {
      var init, e := entries[..|entries| - 1], entries[|entries| - 1];
      NodesSumToTotal(init, nodes);
      SumsOfAppend(init, e, nodes);
      assert entries == init + [e];
    }
  }

  /** The sum of a quantity over the entries of one node. */
  function SumOf(entries: seq<Entry>, node: string, f: Entry -> nat): nat {
    if entries == [] then 0
    else SumOf(entries[..|entries| - 1], node, f) + if entries[|entries| - 1].nodeId == node then f(entries[|entries| - 1]) else 0
  }

  function SumOfCost(entries: seq<Entry>, node: string): real {
    if entries == [] then 0.0
    else SumOfCost(entries[..|entries| - 1], node) + if entries[|entries| - 1].nodeId == node then entries[|entries| - 1].costUsd else 0.0
  }

  /** Every field of an aggregate is the sum of its own quantity over the entries of the node. */
  lemma {:induction false} AggregateSums(entries: seq<Entry>, node: string)
    ensures var a := NodeAggregate(entries, node);
            && a.entries == SumOf(entries, node, _ => 1)
            && a.inputTokens == SumOf(entries, node, (e: Entry) => e.inputTokens)
            && a.outputTokens == SumOf(entries, node, (e: Entry) => e.outputTokens)
            && a.totalTokens == SumOf(entries, node, (e: Entry) => e.totalTokens)
            && a.delegatedToPeers == SumOf(entries, node, (e: Entry) => if e.peer == "" then 0 else 1)
            && a.costUsd == SumOfCost(entries, node)
  {
    if entries != [] {
      AggregateSums(entries[..|entries| - 1], node);
    }
  }

  /** The trail of a task keeps every entry of the task, as often as it was recorded and in that order. */
  lemma {:induction false} TrailIsInOrder(a: seq<Entry>, e: Entry, b: seq<Entry>, taskId: string)
    ensures OfTask(a + b, taskId) == OfTask(a, taskId) + OfTask(b, taskId)
    ensures OfTask([e], taskId) == if e.taskId == taskId then [e] else []
    decreases |b|
  {
    assert [e][..0] == [];
    if b == [] {
      assert a + b == a;
    } else {
      var init, last := b[..|b| - 1], b[|b| - 1];
      assert (a + b)[..|a + b| - 1] == a + init;
      TrailIsInOrder(a, e, init, taskId);
    }
  }

  /** Within every aggregate, input and output tokens add up to the total. */
  lemma {:induction false} AggregateAdds(entries: seq<Entry>, node: string)
    requires TotalsAdd(entries)
    ensures var a := NodeAggregate(entries, node); a.totalTokens == a.inputTokens + a.outputTokens
  {
    if entries != [] {
      AggregateAdds(entries[..|entries| - 1], node);
    }
  }

  ghost predicate HasNode(entries: seq<Entry>, node: string) {
    exists i :: 0 <= i < |entries| && entries[i].nodeId == node
  }

  /** The aggregates of all nodes of some entries, and of no others. */
  ghost predicate AggregatesNode(nodes: map<string, Aggregate>, entries: seq<Entry>, n: string) {
    && (n in nodes <==> HasNode(entries, n))
    && NodeAggregate(entries, n) == if n in nodes then nodes[n] else NO_ENTRIES
  }

  ghost predicate Aggregates(nodes: map<string, Aggregate>, entries: seq<Entry>) {
    forall n :: AggregatesNode(nodes, entries, n)
  }

  lemma {:induction false} AggregateOfAppend(entries: seq<Entry>, e: Entry, n: string)
    ensures HasNode(entries + [e], n) <==> HasNode(entries, n) || e.nodeId == n
    ensures var a := NodeAggregate(entries, n); NodeAggregate(entries + [e], n) == if e.nodeId == n then AddEntry(a, e) else a
  {
    var more := entries + [e];
    assert more[..|entries|] == entries && more[|entries|] == e;
    if HasNode(entries, n) {
      var i :| 0 <= i < |entries| && entries[i].nodeId == n;
      assert more[i].nodeId == n;
    }
  }

  lemma {:induction false} TotalsOfAppend(entries: seq<Entry>, e: Entry)
    ensures TotalTokens(entries + [e]) == TotalTokens(entries) + e.totalTokens
    ensures TotalCost(entries + [e]) == TotalCost(entries) + e.costUsd
  {
    assert (entries + [e])[..|entries|] == entries;
  }

  // ---------- the ledger ----------

  class ContributionLedger {
    const maxEntries: nat
    var entries: seq<Entry>
    ghost var history: seq<Entry>  // everything ever recorded

    /** Memory holds exactly the last `maxEntries` of the history. */
    ghost predicate Valid()
      reads this
    {
      maxEntries >= 1 && entries == LastOf(history, maxEntries) && TotalsAdd(history)
    }

    constructor (maxEntries: int)
      ensures Valid() && history == [] && this.maxEntries == (if maxEntries > 1 then maxEntries else 1)
    {
      this.maxEntries := if maxEntries > 1 then maxEntries else 1;
      entries, history := [], [];
    }

    method Record(nodeId: string, taskId: string, kind: string, input: int, output: int, cost: real, peer: string)
      returns (e: Entry)
      requires Valid()
      modifies this
      ensures Valid() && e == MakeEntry(nodeId, taskId, kind, input, output, cost, peer)
      ensures history == old(history) + [e]
    {
      e := MakeEntry(nodeId, taskId, kind, input, output, cost, peer);
      entries := entries + [e];
      if |entries| > maxEntries {
        entries := entries[|entries| - maxEntries..];
      }
      history := history + [e];
    }

    method EntriesFor(taskId: string) returns (r: seq<Entry>)
      ensures r == OfTask(entries, taskId)
    {
      r := [];
      for i := 0 to |entries|
        invariant r == OfTask(entries[..i], taskId)
      {
        assert entries[..i + 1][..i] == entries[..i];
        if entries[i].taskId == taskId {
          r := r + [entries[i]];
        }
      }
      assert entries[..|entries|] == entries;
    }

    /** `per_node`: the nodes of the selected entries, each with its own aggregate, and the totals. */
    method PerNode(taskId: string) returns (nodes: map<string, Aggregate>, totalTokens: nat, totalCost: real)
      ensures var s := Selected(entries, taskId);
              Aggregates(nodes, s) && totalTokens == TotalTokens(s) && totalCost == TotalCost(s)
    {
      var s := Selected(entries, taskId);
      nodes, totalTokens, totalCost := map[], 0, 0.0;
      for i := 0 to |s|
        invariant Aggregates(nodes, s[..i])
        invariant totalTokens == TotalTokens(s[..i]) && totalCost == TotalCost(s[..i])
      {
        PrefixGrows(s, i);
        TotalsOfAppend(s[..i], s[i]);
        nodes := AddToNode(nodes, s[..i], s[i]);
        totalTokens := totalTokens + s[i].totalTokens;
        totalCost := totalCost + s[i].costUsd;
      }
      assert s[..|s|] == s;
    }

    /** One turn of the loop: the entry goes to its node's aggregate, which starts out empty. */
    static method AddToNode(nodes: map<string, Aggregate>, ghost done: seq<Entry>, e: Entry) returns (r: map<string, Aggregate>)
      requires Aggregates(nodes, done)
      ensures Aggregates(r, done + [e])
    {
      var agg := if e.nodeId in nodes then nodes[e.nodeId] else NO_ENTRIES;
      r := nodes[e.nodeId := AddEntry(agg, e)];
      forall n ensures AggregatesNode(r, done + [e], n) {
        assert AggregatesNode(nodes, done, n) && AggregatesNode(nodes, done, e.nodeId);
        AggregateOfAppend(done, e, n);
      }
    }
  }
}
