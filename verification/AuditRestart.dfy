/** What a second restart of noema/audit/logger.py rebuilds once a block index has been reused: after a lossy restart
the next record gets the number of saved records as its index, which a saved record may carry already. */
module AuditRestart {
  import opened Bytes
  import opened Sequences
  import opened AuditLog

  // ---------- the sort is stable ----------

  /** The records with a block index, in order. */
  function AtIndex(records: seq<Record>, k: int): seq<Record> {
    if records == [] then []
    else
      var r := records[|records| - 1];
      AtIndex(records[..|records| - 1], k) + if SortKey(r) == k then [r] else []
  }

  lemma {:induction false} AtIndexAppend(records: seq<Record>, r: Record, k: int)
    ensures AtIndex(records + [r], k) == AtIndex(records, k) + if SortKey(r) == k then [r] else []
  {
    assert (records + [r])[..|records|] == records;
  }

  lemma {:induction false} AtIndexConcat(a: seq<Record>, b: seq<Record>, k: int)
    ensures AtIndex(a + b, k) == AtIndex(a, k) + AtIndex(b, k)
    decreases |b|
  {
    if b == [] {
      assert a + b == a;
    } else {
      var init, last := b[..|b| - 1], b[|b| - 1];
      assert a + b == (a + init) + [last];
      AtIndexAppend(a + init, last, k);
      AtIndexConcat(a, init, k);
    }
  }

  lemma {:induction false} OneIsEmpty(g: seq<Record>, a: seq<Record>, b: seq<Record>)
    requires a == [] || b == []
    ensures g + a + b == g + b + a
  {
  }

  lemma {:induction false} InsertIsStable(sorted: seq<Record>, r: Record, k: int)
    ensures AtIndex(Insert(sorted, r), k) == AtIndex(sorted, k) + if SortKey(r) == k then [r] else []
  {
    if sorted == [] || SortKey(sorted[|sorted| - 1]) <= SortKey(r) {
      AtIndexAppend(sorted, r, k);
    } else {
      var init, last := sorted[..|sorted| - 1], sorted[|sorted| - 1];
      InsertIsStable(init, r, k);
      AtIndexAppend(Insert(init, r), last, k);
      OneIsEmpty(AtIndex(init, k), if SortKey(r) == k then [r] else [], if SortKey(last) == k then [last] else []);
    }
  }

  /** Sorting keeps the order of records with the same index. */
  lemma {:induction false} SortIsStable(records: seq<Record>, k: int)
    ensures AtIndex(SortByIndex(records), k) == AtIndex(records, k)
  {
    if records != [] {
      var init, last := records[..|records| - 1], records[|records| - 1];
      SortIsStable(init, k);
      InsertIsStable(SortByIndex(init), last, k);
    }
  }

  lemma {:induction false} AtIndexMember(records: seq<Record>, k: int, i: nat)
    requires i < |records| && SortKey(records[i]) == k
    ensures AtIndex(records, k) != []
  {
    if i < |records| - 1 {
      AtIndexMember(records[..|records| - 1], k, i);
    }
  }

  lemma {:induction false} AtIndexFound(records: seq<Record>, k: int) returns (i: nat)
    requires AtIndex(records, k) != []
    ensures i < |records| && SortKey(records[i]) == k
  {
    if SortKey(records[|records| - 1]) == k {
      i := |records| - 1;
    } else {
      i := AtIndexFound(records[..|records| - 1], k);
    }
  }

  lemma {:induction false} LastIndexBound(a: seq<Record>, b: seq<Record>)
    requires a != [] && Sorted(b) && AtIndex(a, SortKey(a[|a| - 1])) == AtIndex(b, SortKey(a[|a| - 1]))
    ensures b != [] && SortKey(a[|a| - 1]) <= SortKey(b[|b| - 1])
  {
    AtIndexMember(a, SortKey(a[|a| - 1]), |a| - 1);
    var i := AtIndexFound(b, SortKey(a[|a| - 1]));
  }

  /** Index by index, the same records in the same order. */
  ghost predicate SameGroups(x: seq<Record>, y: seq<Record>) {
    forall k :: AtIndex(x, k) == AtIndex(y, k)
  }

  /** A sorted list is determined by its records index by index. */
  lemma {:induction false} SortedByGroups(a: seq<Record>, b: seq<Record>)
    requires Sorted(a) && Sorted(b) && SameGroups(a, b)
    ensures a == b
    decreases |a|
  {
    if a == [] {
      if b != [] {
        LastIndexBound(b, a);
      }
    } else {
      LastsAgree(a, b);
      ShorterGroups(a, b);
      var a', b' := a[..|a| - 1], b[..|b| - 1];
      SortedPrefix(a);
      SortedPrefix(b);
      SortedByGroups(a', b');
      assert a == a' + [a[|a| - 1]] && b == b' + [b[|b| - 1]];
    }
  }

  lemma {:induction false} SortedPrefix(a: seq<Record>)
    requires Sorted(a) && a != []
    ensures Sorted(a[..|a| - 1])
  {
  }

  lemma {:induction false} LastsAgree(a: seq<Record>, b: seq<Record>)
    requires a != [] && Sorted(a) && Sorted(b) && SameGroups(a, b)
    ensures b != [] && a[|a| - 1] == b[|b| - 1]
  {
    LastIndexBound(a, b);
    LastIndexBound(b, a);
    SameLast(a, b);
  }

  lemma {:induction false} ShorterGroups(a: seq<Record>, b: seq<Record>)
    requires a != [] && b != [] && a[|a| - 1] == b[|b| - 1] && SameGroups(a, b)
    ensures SameGroups(a[..|a| - 1], b[..|b| - 1])
  {
    var a', b' := a[..|a| - 1], b[..|b| - 1];
    forall k ensures AtIndex(a', k) == AtIndex(b', k) {
      assert AtIndex(a, k) == AtIndex(b, k);
      ShorterGroup(a, b, k);
    }
  }

  lemma {:induction false} SameLast(a: seq<Record>, b: seq<Record>)
    requires a != [] && b != [] && SortKey(a[|a| - 1]) == SortKey(b[|b| - 1])
    requires AtIndex(a, SortKey(a[|a| - 1])) == AtIndex(b, SortKey(a[|a| - 1]))
    ensures a[|a| - 1] == b[|b| - 1]
  {
    var g, g' := AtIndex(a, SortKey(a[|a| - 1])), AtIndex(b, SortKey(a[|a| - 1]));
    assert g[|g| - 1] == a[|a| - 1] && g'[|g'| - 1] == b[|b| - 1];
  }

  lemma {:induction false} ShorterGroup(a: seq<Record>, b: seq<Record>, k: int)
    requires a != [] && b != [] && a[|a| - 1] == b[|b| - 1] && AtIndex(a, k) == AtIndex(b, k)
    ensures AtIndex(a[..|a| - 1], k) == AtIndex(b[..|b| - 1], k)
  {
    var g, g' := AtIndex(a[..|a| - 1], k), AtIndex(b[..|b| - 1], k);
    if SortKey(a[|a| - 1]) == k {
      assert g == AtIndex(a, k)[..|AtIndex(a, k)| - 1] && g' == AtIndex(b, k)[..|AtIndex(b, k)| - 1];
    } else {
      assert g == AtIndex(a, k) && g' == AtIndex(b, k);
    }
  }

  lemma {:induction false} GroupsOfSorted(x: seq<Record>, y: seq<Record>, k: int)
    ensures AtIndex(x, k) == AtIndex(y, k) <==> AtIndex(SortByIndex(x), k) == AtIndex(SortByIndex(y), k)
  {
    SortIsStable(x, k);
    SortIsStable(y, k);
  }

  /** Whatever the directory: two readings of it sort to the same records exactly when, index by index, they give the
  records in the same order. */
  lemma {:induction false} SortsAgreeIff(x: seq<Record>, y: seq<Record>)
    ensures SortByIndex(x) == SortByIndex(y) <==> SameGroups(x, y)
  {
    if SameGroups(x, y) {
      forall k ensures AtIndex(SortByIndex(x), k) == AtIndex(SortByIndex(y), k) {
        assert AtIndex(x, k) == AtIndex(y, k);
        GroupsOfSorted(x, y, k);
      }
      SortIsSorted(x);
      SortIsSorted(y);
      SortedByGroups(SortByIndex(x), SortByIndex(y));
    }
    if SortByIndex(x) == SortByIndex(y) {
      forall k ensures AtIndex(x, k) == AtIndex(y, k) {
        GroupsOfSorted(x, y, k);
      }
    }
  }

  // ---------- one reused index ----------

  lemma {:induction false} AtIndexCounts(records: seq<Record>, k: int, e: Record)
    ensures multiset(AtIndex(records, k))[e] == if SortKey(e) == k then multiset(records)[e] else 0
  {
    if records != [] {
      AtIndexCounts(records[..|records| - 1], k, e);
      assert records == records[..|records| - 1] + [records[|records| - 1]];
    }
  }

  lemma {:induction false} GroupIsPart(x: seq<Record>, y: seq<Record>, k: int)
    requires multiset(x) == multiset(y)
    ensures multiset(AtIndex(x, k)) == multiset(AtIndex(y, k))
  {
    forall e ensures multiset(AtIndex(x, k))[e] == multiset(AtIndex(y, k))[e] {
      AtIndexCounts(x, k, e);
      AtIndexCounts(y, k, e);
    }
  }

  lemma {:induction false} SmallSame(g: seq<Record>, g': seq<Record>)
    requires multiset(g) == multiset(g') && |g'| <= 1
    ensures g == g'
  {
    assert |g| == |multiset(g)| == |multiset(g')| == |g'|;
    if g' != [] {
      assert g[0] in multiset(g');
    }
  }

  /** Readings of the same records agree on every index that only one of them has. */
  lemma {:induction false} GroupIsFixed(x: seq<Record>, y: seq<Record>, k: int)
    requires multiset(x) == multiset(y) && |AtIndex(y, k)| <= 1
    ensures AtIndex(x, k) == AtIndex(y, k)
  {
    GroupIsPart(x, y, k);
    SmallSame(AtIndex(x, k), AtIndex(y, k));
  }

  lemma {:induction false} AtIndexBelow(records: seq<Record>, k: int)
    requires forall i :: 0 <= i < |records| ==> SortKey(records[i]) != k
    ensures AtIndex(records, k) == []
  {
    if records != [] {
      AtIndexBelow(records[..|records| - 1], k);
    }
  }

  lemma {:induction false} AtIndexOfStrict(records: seq<Record>, k: int)
    requires StrictlySorted(records)
    ensures |AtIndex(records, k)| <= 1
    ensures forall i :: 0 <= i < |records| && SortKey(records[i]) == k ==> AtIndex(records, k) == [records[i]]
  {
    if records != [] {
      var init, last := records[..|records| - 1], records[|records| - 1];
      AtIndexOfStrict(init, k);
      if SortKey(last) == k {
        AtIndexBelow(init, k);
      } else {
        forall i | 0 <= i < |records| && SortKey(records[i]) == k ensures AtIndex(records, k) == [records[i]] {
          assert init[i] == records[i];
        }
      }
    }
  }

  /** The saved records with the record at position `p` replaced by two. */
  function WithPair(saved: seq<Record>, p: nat, u: Record, v: Record): seq<Record>
    requires p < |saved|
  {
    saved[..p] + [u, v] + saved[p + 1..]
  }

  lemma {:induction false} WithPairGroups(saved: seq<Record>, p: nat, u: Record, v: Record, k: int)
    requires StrictlySorted(saved) && p < |saved| && SortKey(u) == SortKey(v) == SortKey(saved[p])
    ensures AtIndex(WithPair(saved, p, u, v), k) == if k == SortKey(u) then [u, v] else AtIndex(saved, k)
  {
    var before, after := saved[..p], saved[p + 1..];
    AtIndexConcat(before + [u, v], after, k);
    AtIndexConcat(before, [u, v], k);
    assert [u, v] == [u] + [v];
    AtIndexAppend([u], v, k);
    AtIndexAppend([], u, k);
    assert saved == before + [saved[p]] + after;
    AtIndexConcat(before + [saved[p]], after, k);
    AtIndexAppend(before, saved[p], k);
    if k == SortKey(u) {
      AtIndexBelow(before, k);
      AtIndexBelow(after, k);
    }
  }

  lemma {:induction false} WithPairSorted(saved: seq<Record>, p: nat, u: Record, v: Record)
    requires StrictlySorted(saved) && p < |saved| && SortKey(u) == SortKey(v) == SortKey(saved[p])
    ensures Sorted(WithPair(saved, p, u, v))
  {
    var w := WithPair(saved, p, u, v);
    assert forall i :: 0 <= i < |w| ==> SortKey(w[i]) == SortKey(saved[if i <= p then i else i - 1]);
  }

  /** What a reading sorts to when one saved record shares its index with the new one. */
  lemma {:induction false} SortOfReused(saved: seq<Record>, r: Record, p: nat, x: seq<Record>)
    requires StrictlySorted(saved) && p < |saved| && SortKey(saved[p]) == SortKey(r) && multiset(x) == multiset(saved + [r])
    requires var g := AtIndex(x, SortKey(r)); g == [saved[p], r] || g == [r, saved[p]]
    ensures var g := AtIndex(x, SortKey(r)); SortByIndex(x) == WithPair(saved, p, g[0], g[1])
  {
    var g := AtIndex(x, SortKey(r));
    var w := WithPair(saved, p, g[0], g[1]);
    SortIsSorted(x);
    WithPairSorted(saved, p, g[0], g[1]);
    forall k ensures AtIndex(SortByIndex(x), k) == AtIndex(w, k) {
      SortIsStable(x, k);
      WithPairGroups(saved, p, g[0], g[1], k);
      if k != SortKey(r) {
        AtIndexAppend(saved, r, k);
        AtIndexOfStrict(saved, k);
        GroupIsFixed(x, saved + [r], k);
      }
    }
    SortedByGroups(SortByIndex(x), w);
  }

  // ---------- the listing decides ----------

  lemma {:induction false} GroupOfFile(records: seq<Record>, name: string, k: int)
    ensures AtIndex(Select(records, name), k) == Select(AtIndex(records, k), name)
  {
    if records != [] {
      var init, last := records[..|records| - 1], records[|records| - 1];
      GroupOfFile(init, name, k);
      assert records == init + [last];
      SelectAppend(init, last, name);
      if IsIn(last, name) {
        AtIndexAppend(Select(init, name), last, k);
      } else {
        assert Select(records, name) == Select(init, name);
      }
      if SortKey(last) == k {
        SelectAppend(AtIndex(init, k), last, name);
      } else {
        assert AtIndex(records, k) == AtIndex(init, k);
      }
    }
  }

  /** A record if it has been read. */
  function IfRead(r: Record, read: bool): seq<Record> {
    if read then [r] else []
  }

  ghost predicate IsIn(r: Record, name: string) {
    TenantFilename(r.leaf.tenantId) == Some(name)
  }

  lemma {:induction false} GroupOfPairInFile(records: seq<Record>, name: string, k: int, s: Record, r: Record)
    requires AtIndex(records, k) == [s, r]
    ensures AtIndex(Select(records, name), k) == IfRead(s, IsIn(s, name)) + IfRead(r, IsIn(r, name))
  {
    GroupOfFile(records, name, k);
    assert [s, r] == [s] + [r] && [s] == [] + [s];
    SelectAppend([s], r, name);
    SelectAppend([], s, name);
  }

  lemma {:induction false} NextRead(u: Record, v: Record, a: nat, b: nat, n: nat)
    requires a <= b
    ensures IfRead(u, a < n) + IfRead(v, b < n) + (IfRead(u, a == n) + IfRead(v, b == n)) == IfRead(u, a < n + 1) + IfRead(v, b < n + 1)
  {
  }

  lemma {:induction false} OneFile(order: seq<string>, r: Record, i: nat, n: nat)
    requires Distinct(order) && i < |order| && n < |order| && IsIn(r, order[i])
    ensures IsIn(r, order[n]) <==> i == n
  {
    assert i < n ==> order[i] != order[n];
    assert n < i ==> order[n] != order[i];
  }

  lemma {:induction false} FileHasPair(records: seq<Record>, order: seq<string>, m: nat, s: Record, r: Record, i: nat, j: nat)
    requires Distinct(order) && AtIndex(records, SortKey(r)) == [s, r] && m < |order|
    requires i < |order| && j < |order| && IsIn(s, order[i]) && IsIn(r, order[j])
    ensures AtIndex(Select(records, order[m]), SortKey(r)) == IfRead(s, i == m) + IfRead(r, j == m)
  {
    GroupOfPairInFile(records, order[m], SortKey(r), s, r);
    OneFile(order, s, i, m);
    OneFile(order, r, j, m);
  }

  function Joined(parts: seq<seq<Record>>, n: nat): seq<Record>
    requires n <= |parts|
  {
    if n == 0 then [] else Joined(parts, n - 1) + parts[n - 1]
  }

  lemma {:induction false} GroupOfListing(files: Files, order: seq<string>, n: nat, k: int, parts: seq<seq<Record>>)
    requires n <= |order| == |parts| && forall m :: 0 <= m < |order| ==> order[m] in files && parts[m] == AtIndex(files[order[m]], k)
    ensures AtIndex(ReadAll(files, order, n), k) == Joined(parts, n)
  {
    if n > 0 {
      GroupOfListing(files, order, n - 1, k, parts);
      AtIndexConcat(ReadAll(files, order, n - 1), files[order[n - 1]], k);
    }
  }

  /** Reading files one after the other: two records come in the order of their files, and in the order in which they
  were saved if they share a file. */
  lemma {:induction false} PairInListing(parts: seq<seq<Record>>, n: nat, u: Record, v: Record, a: nat, b: nat)
    requires n <= |parts| && a <= b && forall m :: 0 <= m < |parts| ==> parts[m] == IfRead(u, a == m) + IfRead(v, b == m)
    ensures Joined(parts, n) == IfRead(u, a < n) + IfRead(v, b < n)
  {
    if n > 0 {
      PairInListing(parts, n - 1, u, v, a, b);
      NextRead(u, v, a, b, n - 1);
    }
  }

  lemma {:induction false} WholePair(parts: seq<seq<Record>>, s: Record, r: Record, i: nat, j: nat)
    requires i < |parts| && j < |parts| && forall m :: 0 <= m < |parts| ==> parts[m] == IfRead(s, i == m) + IfRead(r, j == m)
    ensures Joined(parts, |parts|) == if i <= j then [s, r] else [r, s]
  {
    if i <= j {
      PairInListing(parts, |parts|, s, r, i, j);
    } else {
      forall m | 0 <= m < |parts| ensures parts[m] == IfRead(r, j == m) + IfRead(s, i == m) {
      }
      PairInListing(parts, |parts|, r, s, j, i);
    }
  }

  /** A file is listed before another, or they are one file. */
  ghost predicate IsListedFirst(order: seq<string>, s: Record, r: Record) {
    exists i, j :: 0 <= i <= j < |order| && IsIn(s, order[i]) && IsIn(r, order[j])
  }

  lemma {:induction false} GroupInListing(files: Files, records: seq<Record>, order: seq<string>, s: Record, r: Record)
    requires Holds(files, records) && IsListing(files, order) && s in records && r in records
    requires AtIndex(records, SortKey(r)) == [s, r]
    ensures AtIndex(ReadAll(files, order, |order|), SortKey(r)) == if IsListedFirst(order, s, r) then [s, r] else [r, s]
  {
    var i := PlaceOf(files, records, order, s);
    var j := PlaceOf(files, records, order, r);
    var parts := seq(|order|, m requires 0 <= m < |order| => AtIndex(files[order[m]], SortKey(r)));
    forall m | 0 <= m < |order| ensures parts[m] == IfRead(s, i == m) + IfRead(r, j == m) {
      FileHasPair(records, order, m, s, r, i, j);
    }
    GroupOfListing(files, order, |order|, SortKey(r), parts);
    WholePair(parts, s, r, i, j);
    ListedFirstIff(order, s, r, i, j);
  }

  lemma {:induction false} ListedFirstIff(order: seq<string>, s: Record, r: Record, i: nat, j: nat)
    requires Distinct(order) && i < |order| && j < |order| && IsIn(s, order[i]) && IsIn(r, order[j])
    ensures IsListedFirst(order, s, r) <==> i <= j
  {
    if IsListedFirst(order, s, r) {
      var i', j' :| 0 <= i' <= j' < |order| && IsIn(s, order[i']) && IsIn(r, order[j']);
      OneFile(order, s, i, i');
      OneFile(order, r, j, j');
    }
  }

  lemma {:induction false} PlaceOf(files: Files, records: seq<Record>, order: seq<string>, r: Record) returns (i: nat)
    requires Holds(files, records) && IsListing(files, order) && r in records
    ensures i < |order| && IsIn(r, order[i])
  {
    var m :| 0 <= m < |records| && records[m] == r;
    var name := TenantFilename(records[m].leaf.tenantId).value;
    assert name in order;
    i :| 0 <= i < |order| && order[i] == name;
  }

  // ---------- a second restart ----------

  lemma {:induction false} ReadIsSaved(files: Files, records: seq<Record>, order: seq<string>)
    requires Holds(files, records) && IsListing(files, order)
    ensures multiset(ReadAll(files, order, |order|)) == multiset(records)
  {
    forall r ensures multiset(ReadAll(files, order, |order|))[r] == multiset(records)[r] {
      ReadCountsAsSaved(files, records, order, r);
    }
  }

  /** Two orders of a pair of records give the same leaves exactly when the commitments are the same. */
  lemma {:induction false} LeavesOfPair(saved: seq<Record>, cs: seq<Bytes>, p: nat, s: Record, r: Record, c: Bytes)
    requires p < |saved| == |cs| && (forall i :: 0 <= i < |saved| ==> ReadsAs(saved[i], cs[i]))
    requires saved[p] == s && ReadsAs(r, c)
    ensures var a, b := WithPair(saved, p, s, r), WithPair(saved, p, r, s);
            LeafHashesOf(a, |a|) == LeafHashesOf(b, |b|) <==> cs[p] == c
  {
    var a, b := WithPair(saved, p, s, r), WithPair(saved, p, r, s);
    var ca, cb := cs[..p] + [cs[p], c] + cs[p + 1..], cs[..p] + [c, cs[p]] + cs[p + 1..];
    LeafHashesAre(a, ca, |a|);
    LeafHashesAre(b, cb, |b|);
    assert ca[..|a|] == ca && cb[..|b|] == cb;
    assert ca[p] == cs[p] && cb[p] == c;
  }

  /** The record that shares the index of a new one, if there is one, is in another file, has another commitment, and the
  two listings disagree on the order of the two files. */
  ghost predicate ListingsDisagree(h: Hash, ser: Serializer, saved: seq<Record>, r: Record, c: Bytes, order: seq<string>, order': seq<string>) {
    exists p :: 0 <= p < |saved| && SortKey(saved[p]) == SortKey(r) && Commitment(h, ser, saved[p].leaf) != c
                && IsListedFirst(order, saved[p], r) != IsListedFirst(order', saved[p], r)
  }

  lemma {:induction false} NothingReused(saved: seq<Record>, r: Record, x: seq<Record>, y: seq<Record>)
    requires StrictlySorted(saved) && (forall p :: 0 <= p < |saved| ==> SortKey(saved[p]) != SortKey(r))
    requires multiset(x) == multiset(y) == multiset(saved + [r])
    ensures SortByIndex(x) == SortByIndex(y)
  {
    forall k ensures AtIndex(x, k) == AtIndex(y, k) {
      AtIndexAppend(saved, r, k);
      AtIndexOfStrict(saved, k);
      if k == SortKey(r) {
        AtIndexBelow(saved, k);
      }
      GroupIsFixed(x, saved + [r], k);
      GroupIsFixed(y, saved + [r], k);
    }
    SortsAgreeIff(x, y);
  }

  /** One reused index: the leaves depend on the order of its two records exactly when their commitments differ. */
  lemma {:induction false} OneReused(saved: seq<Record>, cs: seq<Bytes>, r: Record, c: Bytes, p: nat, x: seq<Record>, y: seq<Record>)
    requires StrictlySorted(saved) && p < |saved| == |cs| && SortKey(saved[p]) == SortKey(r)
    requires (forall i :: 0 <= i < |saved| ==> ReadsAs(saved[i], cs[i])) && ReadsAs(r, c)
    requires multiset(x) == multiset(y) == multiset(saved + [r])
    requires AtIndex(x, SortKey(r)) == [saved[p], r] || AtIndex(x, SortKey(r)) == [r, saved[p]]
    requires AtIndex(y, SortKey(r)) == [saved[p], r] || AtIndex(y, SortKey(r)) == [r, saved[p]]
    ensures SortedHashes(x) == SortedHashes(y) <==> AtIndex(x, SortKey(r)) == AtIndex(y, SortKey(r)) || cs[p] == c
  {
    SortOfReused(saved, r, p, x);
    SortOfReused(saved, r, p, y);
    LeavesOfPair(saved, cs, p, saved[p], r, c);
  }

  /** A second restart. The directory of a consistent log got one more record, whose index is the number of records saved
  before, as the first event after a restart does. Two listings rebuild the same leaves exactly when they do not disagree
  on the order of two files with different commitments for that index. */
  lemma {:induction false} SecondRestartIff(h: Hash, ser: Serializer, events: seq<LeafData>, saved: seq<Record>, files: Files,
                                            r: Record, c: Bytes, order: seq<string>, order': seq<string>)
    requires Consistent(h, ser, events, saved, files) && TenantFilename(r.leaf.tenantId).Some?
    requires r.blockIndex == Some(|saved|) && ReadsAs(r, c)
    requires IsListing(SavedTo(files, r), order) && IsListing(SavedTo(files, r), order')
    ensures Recovered(SavedTo(files, r), order) == Recovered(SavedTo(files, r), order') <==>
            !ListingsDisagree(h, ser, saved, r, c, order, order')
  {
    var files', all := SavedTo(files, r), saved + [r];
    var x, y := ReadAll(files', order, |order|), ReadAll(files', order', |order'|);
    HoldsAfterSave(files, saved, r);
    ReadIsSaved(files', all, order);
    ReadIsSaved(files', all, order');
    if p :| 0 <= p < |saved| && SortKey(saved[p]) == SortKey(r) {
      ReusedPair(h, ser, events, saved, r, c, p, files', order, order');
    } else {
      NothingReused(saved, r, x, y);
    }
  }

  lemma {:induction false} ReusedPair(h: Hash, ser: Serializer, events: seq<LeafData>, saved: seq<Record>, r: Record, c: Bytes, p: nat,
                                      files: Files, order: seq<string>, order': seq<string>)
    requires StrictlySorted(saved) && AreRecordsOf(h, ser, events, saved) && ReadsAs(r, c)
    requires p < |saved| && SortKey(saved[p]) == SortKey(r) && Holds(files, saved + [r])
    requires IsListing(files, order) && IsListing(files, order')
    ensures Recovered(files, order) == Recovered(files, order') <==> !ListingsDisagree(h, ser, saved, r, c, order, order')
  {
    var s, k := saved[p], SortKey(r);
    var x, y := ReadAll(files, order, |order|), ReadAll(files, order', |order'|);
    ReadingOfPair(saved, r, p, files, order);
    ReadingOfPair(saved, r, p, files, order');
    var cs := CommitmentsOf(h, ser, events, saved);
    OneReused(saved, cs, r, c, p, x, y);
    OnlyOneReused(h, ser, saved, r, c, p, order, order');
  }

  lemma {:induction false} ReadingOfPair(saved: seq<Record>, r: Record, p: nat, files: Files, order: seq<string>)
    requires StrictlySorted(saved) && p < |saved| && SortKey(saved[p]) == SortKey(r)
    requires Holds(files, saved + [r]) && IsListing(files, order)
    ensures var x := ReadAll(files, order, |order|);
            && multiset(x) == multiset(saved + [r])
            && AtIndex(x, SortKey(r)) == if IsListedFirst(order, saved[p], r) then [saved[p], r] else [r, saved[p]]
  {
    var all := saved + [r];
    ReadIsSaved(files, all, order);
    AtIndexAppend(saved, r, SortKey(r));
    AtIndexOfStrict(saved, SortKey(r));
    assert all[p] == saved[p] && all[|saved|] == r;
    GroupInListing(files, all, order, saved[p], r);
  }

  lemma {:induction false} CommitmentsOf(h: Hash, ser: Serializer, events: seq<LeafData>, saved: seq<Record>) returns (cs: seq<Bytes>)
    requires AreRecordsOf(h, ser, events, saved)
    ensures |cs| == |saved|
    ensures forall i :: 0 <= i < |saved| ==> cs[i] == Commitment(h, ser, saved[i].leaf) && ReadsAs(saved[i], cs[i])
  {
    cs := seq(|saved|, i requires 0 <= i < |saved| => Commitment(h, ser, saved[i].leaf));
    forall i | 0 <= i < |saved| ensures ReadsAs(saved[i], cs[i]) {
      CommitmentReadsBack(h, ser, events, SortKey(saved[i]));
    }
  }

  lemma {:induction false} OnlyOneReused(h: Hash, ser: Serializer, saved: seq<Record>, r: Record, c: Bytes, p: nat, order: seq<string>, order': seq<string>)
    requires StrictlySorted(saved) && p < |saved| && SortKey(saved[p]) == SortKey(r)
    ensures ListingsDisagree(h, ser, saved, r, c, order, order') <==>
            Commitment(h, ser, saved[p].leaf) != c && IsListedFirst(order, saved[p], r) != IsListedFirst(order', saved[p], r)
  {
    if ListingsDisagree(h, ser, saved, r, c, order, order') {
      var q :| 0 <= q < |saved| && SortKey(saved[q]) == SortKey(r) && Commitment(h, ser, saved[q].leaf) != c
               && IsListedFirst(order, saved[q], r) != IsListedFirst(order', saved[q], r);
      assert q == p;
    }
  }
}
