/** Values of noema/audit/logger.py in file-fallback mode: leaf data, stored records, per-tenant files,
and what a restart reads back from them. */
module AuditLog {
  import opened Bytes
  import opened Sequences
  import opened StaticMerkle

  /** `_build_leaf_data`: the fields that are hashed. `details` is the text of the JSON object. */
  datatype LeafData = LeafData(
    timestamp: string, eventType: string, tenantId: string, userId: string, taskId: Option<string>, details: string)

  /** Canonical JSON bytes of leaf data. */
  type Serializer = LeafData -> Bytes

  /** One JSON line of a fallback file; a missing field reads as `None`. */
  datatype Record = Record(
    leaf: LeafData, commitment: Option<string>, chainLink: Option<string>, blockIndex: Option<int>)

  type Files = map<string, seq<Record>>

  // ---------- tenant file names ----------

  predicate IsSafe(c: char) {
    'A' <= c <= 'Z' || 'a' <= c <= 'z' || '0' <= c <= '9' || c in "_.-"
  }

  function SkipUnsafe(s: string): (r: string)
    ensures |r| <= |s|
  {
    if s == "" || IsSafe(s[0]) then s else SkipUnsafe(s[1..])
  }

  /** Every maximal run of unsafe characters becomes one underscore. */
  function Sanitize(s: string): string
    decreases |s|
  {
    if s == "" then ""
    else if IsSafe(s[0]) then [s[0]] + Sanitize(s[1..])
    else "_" + Sanitize(SkipUnsafe(s[1..]))
  }

  /** `_tenant_filename`; `None` stands for the ValueError. */
  function TenantFilename(tenantId: string): Option<string> {
    var name := Sanitize(tenantId);
    if name == "" || name == "." || name == ".." || |name| > 100 then None else Some(name)
  }

  lemma {:induction false} SanitizeIsSafe(s: string)
    ensures forall c :: c in Sanitize(s) ==> IsSafe(c)
    ensures (forall c :: c in s ==> IsSafe(c)) ==> Sanitize(s) == s
    decreases |s|
  {
    if s != "" {
      if IsSafe(s[0]) {
        SanitizeIsSafe(s[1..]);
        assert s == [s[0]] + s[1..];
      } else {
        SanitizeIsSafe(SkipUnsafe(s[1..]));
      }
    }
  }

  /** A tenant id never names anything outside the fallback directory, and ids that already are
  plain file names are kept. */
  lemma {:induction false} TenantFilenameStaysInside(tenantId: string)
    ensures var r := TenantFilename(tenantId);
            && (r.Some? ==> '/' !in r.value && '\\' !in r.value && r.value !in ["", ".", ".."] && |r.value| <= 100)
            && ((forall c :: c in tenantId ==> IsSafe(c)) && r.Some? ==> r.value == tenantId)
  {
    SanitizeIsSafe(tenantId);
  }

  /** ASCII letters and digits, the hyphen, the dot and the underscore. */
  lemma {:induction false} SafeCharacters(c: char)
    ensures var n := c as int;
            IsSafe(c) <==> 65 <= n <= 90 || 97 <= n <= 122 || 48 <= n <= 57 || n == 45 || n == 46 || n == 95
  {
    assert c in "_.-" <==> c == '_' || c == '.' || c == '-';
  }

  /** What the pattern does: a safe start is kept, and the run of unsafe characters after it becomes one underscore. */
  lemma {:induction false} SanitizeRun(safe: string, unsafe: string, rest: string)
    requires (forall i :: 0 <= i < |safe| ==> IsSafe(safe[i])) && (forall i :: 0 <= i < |unsafe| ==> !IsSafe(unsafe[i]))
    requires unsafe != "" && (rest == "" || IsSafe(rest[0]))
    ensures Sanitize(safe + unsafe + rest) == safe + "_" + Sanitize(rest)
    decreases |safe|
  {
    var s := safe + unsafe + rest;
    if safe == "" {
      assert s[1..] == unsafe[1..] + rest;
      SkipUnsafeRun(unsafe[1..], rest);
    } else {
      assert s[1..] == safe[1..] + unsafe + rest;
      SanitizeRun(safe[1..], unsafe, rest);
    }
  }

  lemma {:induction false} SkipUnsafeRun(unsafe: string, rest: string)
    requires (forall i :: 0 <= i < |unsafe| ==> !IsSafe(unsafe[i])) && (rest == "" || IsSafe(rest[0]))
    ensures SkipUnsafe(unsafe + rest) == rest
  {
    if unsafe == "" {
      assert unsafe + rest == rest;
    } else {
      assert (unsafe + rest)[1..] == unsafe[1..] + rest;
      SkipUnsafeRun(unsafe[1..], rest);
    }
  }

  /** A name is given exactly when what is left is not empty, not a dot name, and at most 100 characters long. */
  lemma {:induction false} TenantFilenameIff(tenantId: string)
    ensures var name := Sanitize(tenantId);
            TenantFilename(tenantId) == if 1 <= |name| <= 100 && name != "." && name != ".." then Some(name) else None
  {
  }

  // ---------- commitments and chain links ----------

  function Commitment(h: Hash, ser: Serializer, e: LeafData): Digest {
    SafeHash(h, ser(e))
  }

  function Commitments(h: Hash, ser: Serializer, events: seq<LeafData>): (r: seq<Bytes>)
    ensures |r| == |events|
  {
    seq(|events|, i requires 0 <= i < |events| => Commitment(h, ser, events[i]))
  }

  function Ascii(s: string): Bytes
    requires forall i :: 0 <= i < |s| ==> s[i] as int < 128
  {
    seq(|s|, i requires 0 <= i < |s| => s[i] as int as byte)
  }

  /** The link of the event at position `k`, over the root of everything logged before it. */
  function ChainLink(h: Hash, ser: Serializer, before: seq<Bytes>, e: LeafData): Digest {
    SafeHash(h, Root(h, before) + ser(e) + Ascii(Decimal(|before|)))
  }

  /** The record that the event at position `k` of a log gets. */
  function RecordFor(h: Hash, ser: Serializer, events: seq<LeafData>, k: nat): Record
    requires k < |events|
  {
    Record(events[k], Some(Hex(Commitment(h, ser, events[k]))),
           Some(Hex(ChainLink(h, ser, Commitments(h, ser, events[..k]), events[k]))), Some(k))
  }

  // ---------- what a chain link binds ----------

  ghost predicate EndsInDigit(p: Bytes) {
    p != [] && 48 <= p[|p| - 1] as int <= 57
  }

  /** Behind a payload that does not end in a digit, a numeral can be told from the payload. */
  lemma {:induction false} NumeralSplits(p: Bytes, m: nat, q: Bytes, n: nat)
    requires !EndsInDigit(p) && !EndsInDigit(q)
    requires p + Ascii(Decimal(m)) == q + Ascii(Decimal(n))
    ensures p == q && m == n
  {
    var s, t := p + Ascii(Decimal(m)), q + Ascii(Decimal(n));
    NumeralIsBehind(p, m, q, n);
    NumeralIsBehind(q, n, p, m);
    assert p == s[..|p|] == t[..|p|] == q;
    assert Ascii(Decimal(m)) == s[|p|..] == t[|p|..] == Ascii(Decimal(n));
    AsciiInjective(Decimal(m), Decimal(n));
    DecimalInjective(m, n);
  }

  lemma {:induction false} NumeralIsBehind(p: Bytes, m: nat, q: Bytes, n: nat)
    requires !EndsInDigit(q) && p + Ascii(Decimal(m)) == q + Ascii(Decimal(n))
    ensures |p| >= |q|
  {
    var s, t := p + Ascii(Decimal(m)), q + Ascii(Decimal(n));
    assert forall k :: |p| <= k < |s| ==> 48 <= s[k] as int <= 57;
    assert q != [] ==> t[|q| - 1] == q[|q| - 1];
  }

  lemma {:induction false} AsciiInjective(s: string, t: string)
    requires (forall i :: 0 <= i < |s| ==> s[i] as int < 128) && (forall i :: 0 <= i < |t| ==> t[i] as int < 128)
    requires Ascii(s) == Ascii(t)
    ensures s == t
  {
    assert |s| == |Ascii(s)| == |t|;
    forall i | 0 <= i < |s| ensures s[i] == t[i] {
      assert Ascii(s)[i] == Ascii(t)[i];
    }
  }

  /** Without that condition it cannot: a payload that ends in a digit gives the last digit away. */
  lemma {:induction false} NumeralMayMerge(p: Bytes)
    ensures (p + Ascii("1")) + Ascii(Decimal(2)) == p + Ascii(Decimal(12))
  {
    assert Decimal(12) == "12" && Decimal(2) == "2";
    assert Ascii("12") == Ascii("1") + Ascii("2");
  }

  lemma {:induction false} RootIsDigest(h: Hash, leaves: seq<Bytes>)
    requires AllDigests(leaves)
    ensures |Root(h, leaves)| == 32
  {
    if leaves != [] {
      NodeIsDigest(h, leaves, Depth(|leaves|), 0);
    }
  }

  /** A chain link is the digest of the root before the event, then its payload, then its index, behind the domain
  separator. Equal links force all three to be equal, unless the two strings hashed collide. */
  lemma {:induction false} LinkBinds(h: Hash, ser: Serializer, a: seq<Bytes>, e: LeafData, b: seq<Bytes>, f: LeafData)
    requires AllDigests(a) && AllDigests(b) && !EndsInDigit(ser(e)) && !EndsInDigit(ser(f))
    ensures var x, y := DOMAIN + (Root(h, a) + ser(e) + Ascii(Decimal(|a|))), DOMAIN + (Root(h, b) + ser(f) + Ascii(Decimal(|b|)));
            && ChainLink(h, ser, a, e) == h(x) && ChainLink(h, ser, b, f) == h(y)
            && (ChainLink(h, ser, a, e) == ChainLink(h, ser, b, f) ==>
                  (Root(h, a) == Root(h, b) && ser(e) == ser(f) && |a| == |b|) || Collision(h, x, y))
  {
    var x, y := DOMAIN + (Root(h, a) + ser(e) + Ascii(Decimal(|a|))), DOMAIN + (Root(h, b) + ser(f) + Ascii(Decimal(|b|)));
    RootIsDigest(h, a);
    RootIsDigest(h, b);
    if x == y {
      LinkTextSplits(Root(h, a), ser(e), |a|, Root(h, b), ser(f), |b|);
    }
  }

  lemma {:induction false} HeadSplits(a: Bytes, b: Bytes, a': Bytes, b': Bytes, s: Bytes)
    requires |a| == |a'| && s == a + b == a' + b'
    ensures a == a' && b == b'
  {
    assert a == s[..|a|] == a' && b == s[|a|..] == b';
  }

  lemma {:induction false} LinkTextSplits(r: Bytes, p: Bytes, m: nat, r': Bytes, q: Bytes, n: nat)
    requires |r| == |r'| == 32 && !EndsInDigit(p) && !EndsInDigit(q)
    requires DOMAIN + (r + p + Ascii(Decimal(m))) == DOMAIN + (r' + q + Ascii(Decimal(n)))
    ensures r == r' && p == q && m == n
  {
    var s, t := r + p + Ascii(Decimal(m)), r' + q + Ascii(Decimal(n));
    HeadSplits(DOMAIN, s, DOMAIN, t, DOMAIN + s);
    assert s == r + (p + Ascii(Decimal(m))) && t == r' + (q + Ascii(Decimal(n)));
    HeadSplits(r, p + Ascii(Decimal(m)), r', q + Ascii(Decimal(n)), s);
    NumeralSplits(p, m, q, n);
  }

  /** The string that is hashed for the link of the event at a position of a log. */
  function LinkInput(h: Hash, ser: Serializer, events: seq<LeafData>, k: nat): Bytes
    requires k < |events|
  {
    DOMAIN + (Root(h, Commitments(h, ser, events[..k])) + ser(events[k]) + Ascii(Decimal(k)))
  }

  /** The recorded link binds the log before the event: two records of two logs with one link have the same index and
  payload, and the commitments before them are the same up to their order, unless the strings hashed for the two links
  collide or two strings hashed for the two roots do. */
  lemma {:induction false} LinkBindsLog(h: Hash, ser: Serializer, a: seq<LeafData>, i: nat, b: seq<LeafData>, j: nat)
    returns (x: Bytes, y: Bytes)
    requires i < |a| && j < |b| && !EndsInDigit(ser(a[i])) && !EndsInDigit(ser(b[j]))
    requires RecordFor(h, ser, a, i).chainLink == RecordFor(h, ser, b, j).chainLink
    ensures Collision(h, LinkInput(h, ser, a, i), LinkInput(h, ser, b, j))
         || (i == j && ser(a[i]) == ser(b[j]) && SameUpToOrder(h, Commitments(h, ser, a[..i]), Commitments(h, ser, b[..j]), x, y))
  {
    var c, d := Commitments(h, ser, a[..i]), Commitments(h, ser, b[..j]);
    x, y := [], [];
    HexRoundTrip(ChainLink(h, ser, c, a[i]));
    HexRoundTrip(ChainLink(h, ser, d, b[j]));
    LinkBinds(h, ser, c, a[i], d, b[j]);
    if !Collision(h, LinkInput(h, ser, a, i), LinkInput(h, ser, b, j)) && i > 0 {
      x, y := RootBindsPaddedLeaves(h, c, d);
    }
  }

  ghost predicate SameUpToOrder(h: Hash, c: seq<Bytes>, d: seq<Bytes>, x: Bytes, y: Bytes) {
    if c == [] || d == [] then c == d else multiset(Padded(c)) == multiset(Padded(d)) || TreesCollide(h, c, d, x, y)
  }

  // ---------- loading ----------

  function SortKey(r: Record): int {
    if r.blockIndex.Some? then r.blockIndex.value else 0
  }

  function Insert(sorted: seq<Record>, r: Record): seq<Record> {
    if sorted == [] || SortKey(sorted[|sorted| - 1]) <= SortKey(r) then sorted + [r]
    else Insert(sorted[..|sorted| - 1], r) + [sorted[|sorted| - 1]]
  }

  /** The stable sort by block index. */
  function SortByIndex(records: seq<Record>): seq<Record> {
    if records == [] then [] else Insert(SortByIndex(records[..|records| - 1]), records[|records| - 1])
  }

  /** The commitments that can be read from the first `n` records; unreadable ones are skipped. */
  function LeafHashesOf(records: seq<Record>, n: nat): seq<Bytes>
    requires n <= |records|
  {
    if n == 0 then []
    else
      var c := records[n - 1].commitment;
      LeafHashesOf(records, n - 1) +
      if c.Some? && c.value != "" && FromHex(c.value).Some? then [FromHex(c.value).value] else []
  }

  /** The readable commitments of a list of records, sorted by block index. */
  function SortedHashes(lines: seq<Record>): seq<Bytes> {
    var records := SortByIndex(lines);
    LeafHashesOf(records, |records|)
  }

  /** All lines of the first `n` listed files. */
  function ReadAll(files: Files, order: seq<string>, n: nat): seq<Record>
    requires n <= |order| && forall i :: 0 <= i < |order| ==> order[i] in files
  {
    if n == 0 then [] else ReadAll(files, order, n - 1) + files[order[n - 1]]
  }

  /** The directory listing: every file once, in an order of the file system's choosing. */
  ghost predicate IsListing(files: Files, order: seq<string>) {
    && (forall i :: 0 <= i < |order| ==> order[i] in files)
    && (forall name :: name in files ==> name in order)
    && Distinct(order)
  }

  /** What `_load_leaf_hashes_fallback` rebuilds. */
  function Recovered(files: Files, order: seq<string>): seq<Bytes>
    requires forall i :: 0 <= i < |order| ==> order[i] in files
  {
    SortedHashes(ReadAll(files, order, |order|))
  }

  // ---------- the directory holds exactly the saved records ----------

  /** The records of one tenant file, in the order they were saved. */
  function Select(saved: seq<Record>, name: string): seq<Record> {
    if saved == [] then []
    else
      var r := saved[|saved| - 1];
      Select(saved[..|saved| - 1], name) + if TenantFilename(r.leaf.tenantId) == Some(name) then [r] else []
  }

  ghost predicate Holds(files: Files, saved: seq<Record>) {
    && (forall name :: name in files ==> files[name] == Select(saved, name))
    && (forall i :: 0 <= i < |saved| ==>
          var name := TenantFilename(saved[i].leaf.tenantId); name.Some? && name.value in files)
  }

  ghost predicate StrictlySorted(records: seq<Record>) {
    forall i, j :: 0 <= i < j < |records| ==> SortKey(records[i]) < SortKey(records[j])
  }

  /** Each record is the one that its event got when it was logged. */
  ghost predicate AreRecordsOf(h: Hash, ser: Serializer, events: seq<LeafData>, saved: seq<Record>) {
    forall i :: 0 <= i < |saved| ==>
      0 <= SortKey(saved[i]) < |events| && saved[i] == RecordFor(h, ser, events, SortKey(saved[i]))
  }

  /** The disk agrees with the log: `saved` are the records of those events whose write succeeded. */
  ghost predicate Consistent(h: Hash, ser: Serializer, events: seq<LeafData>, saved: seq<Record>, files: Files) {
    Holds(files, saved) && StrictlySorted(saved) && AreRecordsOf(h, ser, events, saved)
  }

  lemma {:induction false} RecordForKeeps(h: Hash, ser: Serializer, events: seq<LeafData>, e: LeafData, k: nat)
    requires k < |events|
    ensures RecordFor(h, ser, events + [e], k) == RecordFor(h, ser, events, k)
  {
    assert (events + [e])[..k] == events[..k];
  }

  /** Logging an event whose record is not saved. */
  lemma {:induction false} ConsistentWithoutSave(h: Hash, ser: Serializer, events: seq<LeafData>, e: LeafData, saved: seq<Record>, files: Files)
    requires Consistent(h, ser, events, saved, files)
    ensures Consistent(h, ser, events + [e], saved, files)
  {
    forall i | 0 <= i < |saved| ensures saved[i] == RecordFor(h, ser, events + [e], SortKey(saved[i])) {
      RecordForKeeps(h, ser, events, e, SortKey(saved[i]));
    }
  }

  function FileOrEmpty(files: Files, name: string): seq<Record> {
    if name in files then files[name] else []
  }

  /** The directory after appending a record to its tenant's file. */
  function SavedTo(files: Files, r: Record): Files {
    match TenantFilename(r.leaf.tenantId)
    case Some(name) => files[name := FileOrEmpty(files, name) + [r]]
    case None => files
  }

  lemma {:induction false} SelectOfNoTenant(saved: seq<Record>, name: string)
    requires forall i :: 0 <= i < |saved| ==> TenantFilename(saved[i].leaf.tenantId) != Some(name)
    ensures Select(saved, name) == []
  {
    if saved != [] {
      SelectOfNoTenant(saved[..|saved| - 1], name);
    }
  }

  lemma {:induction false} SelectAppend(saved: seq<Record>, r: Record, name: string)
    ensures Select(saved + [r], name) ==
            Select(saved, name) + if TenantFilename(r.leaf.tenantId) == Some(name) then [r] else []
  {
    assert (saved + [r])[..|saved|] == saved;
  }

  lemma {:induction false} HoldsAfterSave(files: Files, saved: seq<Record>, r: Record)
    requires Holds(files, saved) && TenantFilename(r.leaf.tenantId).Some?
    ensures Holds(SavedTo(files, r), saved + [r])
  {
    var name := TenantFilename(r.leaf.tenantId).value;
    var saved', files' := saved + [r], SavedTo(files, r);
    if name !in files {
      SelectOfNoTenant(saved, name);
    }
    forall n | n in files' ensures files'[n] == Select(saved', n) {
      SelectAppend(saved, r, n);
    }
  }

  /** Logging an event whose record is appended to its tenant's file. */
  lemma {:induction false} ConsistentAfterSave(h: Hash, ser: Serializer, events: seq<LeafData>, e: LeafData, saved: seq<Record>, files: Files)
    requires Consistent(h, ser, events, saved, files) && TenantFilename(e.tenantId).Some?
    ensures var r := RecordFor(h, ser, events + [e], |events|);
            Consistent(h, ser, events + [e], saved + [r], SavedTo(files, r))
  {
    var r := RecordFor(h, ser, events + [e], |events|);
    ConsistentWithoutSave(h, ser, events, e, saved, files);
    HoldsAfterSave(files, saved, r);
    RecordsAppend(h, ser, events + [e], saved, r);
  }

  lemma {:induction false} RecordsAppend(h: Hash, ser: Serializer, events: seq<LeafData>, saved: seq<Record>, r: Record)
    requires AreRecordsOf(h, ser, events, saved) && StrictlySorted(saved)
    requires 0 <= SortKey(r) < |events| && r == RecordFor(h, ser, events, SortKey(r))
    requires forall i :: 0 <= i < |saved| ==> SortKey(saved[i]) < SortKey(r)
    ensures AreRecordsOf(h, ser, events, saved + [r]) && StrictlySorted(saved + [r])
  {
  }

  lemma {:induction false} NextRecord(h: Hash, ser: Serializer, events: seq<LeafData>, e: LeafData)
    ensures Commitments(h, ser, events + [e]) == Commitments(h, ser, events) + [Commitment(h, ser, e)]
    ensures RecordFor(h, ser, events + [e], |events|) ==
            Record(e, Some(Hex(Commitment(h, ser, e))),
                   Some(Hex(ChainLink(h, ser, Commitments(h, ser, events), e))), Some(|events|))
  {
    assert (events + [e])[..|events|] == events;
  }

  /** One `log` call keeps the disk consistent, whether or not the record was written. */
  lemma {:induction false} LogKeepsConsistent(h: Hash, ser: Serializer, events: seq<LeafData>, e: LeafData, saved: seq<Record>, files: Files, written: bool)
    requires Consistent(h, ser, events, saved, files) && (written ==> TenantFilename(e.tenantId).Some?)
    ensures var r := RecordFor(h, ser, events + [e], |events|);
            Consistent(h, ser, events + [e], if written then saved + [r] else saved, if written then SavedTo(files, r) else files)
  {
    if written {
      ConsistentAfterSave(h, ser, events, e, saved, files);
    } else {
      ConsistentWithoutSave(h, ser, events, e, saved, files);
    }
  }

  /** The proof for the event at position `k` of a log is accepted for that event's data. */
  lemma {:induction false} LoggedProofAccepts(h: Hash, ser: Serializer, events: seq<LeafData>, k: nat)
    requires k < |events|
    ensures var leaves := Commitments(h, ser, events);
            Accepts(h, InclusionProof(SafeHash(h, ser(events[k])), Path(h, leaves, k), Root(h, leaves), k), ser(events[k]))
  {
    var leaves := Commitments(h, ser, events);
    PathClimbsToRoot(h, leaves, k, 0);
    assert Path(h, leaves, k)[0..] == Path(h, leaves, k);
  }

  // ---------- a restart ----------

  ghost predicate Sorted(records: seq<Record>) {
    forall i, j :: 0 <= i < j < |records| ==> SortKey(records[i]) <= SortKey(records[j])
  }

  lemma {:induction false} InsertPermutes(sorted: seq<Record>, r: Record)
    ensures multiset(Insert(sorted, r)) == multiset(sorted) + multiset{r}
  {
    if sorted != [] && SortKey(sorted[|sorted| - 1]) > SortKey(r) {
      InsertPermutes(sorted[..|sorted| - 1], r);
      assert sorted == sorted[..|sorted| - 1] + [sorted[|sorted| - 1]];
    }
  }

  lemma {:induction false} InsertBound(sorted: seq<Record>, r: Record, bound: int)
    requires SortKey(r) <= bound && forall i :: 0 <= i < |sorted| ==> SortKey(sorted[i]) <= bound
    ensures forall i :: 0 <= i < |Insert(sorted, r)| ==> SortKey(Insert(sorted, r)[i]) <= bound
  {
    if sorted != [] && SortKey(sorted[|sorted| - 1]) > SortKey(r) {
      InsertBound(sorted[..|sorted| - 1], r, bound);
    }
  }

  lemma {:induction false} InsertSorts(sorted: seq<Record>, r: Record)
    requires Sorted(sorted)
    ensures Sorted(Insert(sorted, r))
  {
    if sorted != [] && SortKey(sorted[|sorted| - 1]) > SortKey(r) {
      var init, last := sorted[..|sorted| - 1], sorted[|sorted| - 1];
      InsertSorts(init, r);
      InsertBound(init, r, SortKey(last));
    }
  }

  lemma {:induction false} SortIsSorted(records: seq<Record>)
    ensures Sorted(SortByIndex(records))
  {
    if records != [] {
      SortIsSorted(records[..|records| - 1]);
      InsertSorts(SortByIndex(records[..|records| - 1]), records[|records| - 1]);
    }
  }

  lemma {:induction false} LastAsElement(records: seq<Record>)
    requires records != []
    ensures multiset(records) == multiset(records[..|records| - 1]) + multiset{records[|records| - 1]}
  {
    assert records == records[..|records| - 1] + [records[|records| - 1]];
  }

  lemma {:induction false} SortPermutes(records: seq<Record>)
    ensures multiset(SortByIndex(records)) == multiset(records)
  {
    if records != [] {
      var init, last := records[..|records| - 1], records[|records| - 1];
      SortPermutes(init);
      InsertPermutes(SortByIndex(init), last);
      LastAsElement(records);
    }
  }

  lemma {:induction false} SortSorts(records: seq<Record>)
    ensures Sorted(SortByIndex(records)) && multiset(SortByIndex(records)) == multiset(records)
  {
    SortIsSorted(records);
    SortPermutes(records);
  }

  lemma {:induction false} FirstIsSame(s: seq<Record>, t: seq<Record>)
    requires Sorted(s) && StrictlySorted(t) && multiset(s) == multiset(t) && s != []
    ensures t != [] && s[0] == t[0]
  {
    assert s[0] in multiset(t);
    assert t[0] in multiset(s);
  }

  lemma {:induction false} FirstAsElement(s: seq<Record>)
    requires s != []
    ensures multiset(s[1..]) == multiset(s) - multiset{s[0]}
  {
    assert s == [s[0]] + s[1..];
  }

  lemma {:induction false} SortedIsUnique(s: seq<Record>, t: seq<Record>)
    requires Sorted(s) && StrictlySorted(t) && multiset(s) == multiset(t)
    ensures s == t
  {
    if s == [] {
      assert |multiset(t)| == 0;
    } else {
      FirstIsSame(s, t);
      FirstAsElement(s);
      FirstAsElement(t);
      SortedIsUnique(s[1..], t[1..]);
      assert s == [s[0]] + s[1..] && t == [t[0]] + t[1..];
    }
  }

  lemma {:induction false} SelectCounts(saved: seq<Record>, name: string, r: Record)
    ensures multiset(Select(saved, name))[r] ==
            if TenantFilename(r.leaf.tenantId) == Some(name) then multiset(saved)[r] else 0
  {
    if saved != [] {
      SelectCounts(saved[..|saved| - 1], name, r);
      assert saved == saved[..|saved| - 1] + [saved[|saved| - 1]];
    }
  }

  ghost predicate IsAmong(order: seq<string>, n: nat, name: Option<string>)
    requires n <= |order|
  {
    exists i :: 0 <= i < n && Some(order[i]) == name
  }

  lemma {:induction false} AmongStep(order: seq<string>, n: nat, name: Option<string>)
    requires 0 < n <= |order| && Distinct(order)
    ensures IsAmong(order, n, name) <==> IsAmong(order, n - 1, name) || Some(order[n - 1]) == name
    ensures Some(order[n - 1]) == name ==> !IsAmong(order, n - 1, name)
  {
  }

  lemma {:induction false} ReadAllCounts(files: Files, saved: seq<Record>, order: seq<string>, n: nat, r: Record)
    requires Holds(files, saved) && n <= |order| && forall i :: 0 <= i < |order| ==> order[i] in files
    requires Distinct(order)
    ensures multiset(ReadAll(files, order, n))[r] ==
            if IsAmong(order, n, TenantFilename(r.leaf.tenantId)) then multiset(saved)[r] else 0
  {
    if n > 0 {
      var name := TenantFilename(r.leaf.tenantId);
      ReadAllCounts(files, saved, order, n - 1, r);
      SelectCounts(saved, order[n - 1], r);
      AmongStep(order, n, name);
    }
  }

  lemma {:induction false} ReadCountsAsSaved(files: Files, saved: seq<Record>, order: seq<string>, r: Record)
    requires Holds(files, saved) && IsListing(files, order)
    ensures multiset(ReadAll(files, order, |order|))[r] == multiset(saved)[r]
  {
    ReadAllCounts(files, saved, order, |order|, r);
    if r in multiset(saved) {
      var i :| 0 <= i < |saved| && saved[i] == r;
      var name := TenantFilename(saved[i].leaf.tenantId).value;
      var j :| 0 <= j < |order| && order[j] == name;
      assert IsAmong(order, |order|, Some(name));
    }
  }

  /** Whatever the order in which the files are listed, sorting rebuilds the records as saved. */
  lemma {:induction false} ReadBackIsSaved(h: Hash, ser: Serializer, events: seq<LeafData>, saved: seq<Record>, files: Files, order: seq<string>)
    requires Consistent(h, ser, events, saved, files) && IsListing(files, order)
    ensures SortByIndex(ReadAll(files, order, |order|)) == saved
  {
    var all := ReadAll(files, order, |order|);
    forall r ensures multiset(all)[r] == multiset(saved)[r] {
      ReadCountsAsSaved(files, saved, order, r);
    }
    assert multiset(all) == multiset(saved);
    SortSorts(all);
    SortedIsUnique(SortByIndex(all), saved);
  }

  /** A record whose commitment field spells a given byte string. */
  ghost predicate ReadsAs(r: Record, c: Bytes) {
    r.commitment.Some? && r.commitment.value != "" && FromHex(r.commitment.value) == Some(c)
  }

  lemma {:induction false} CommitmentReadsBack(h: Hash, ser: Serializer, events: seq<LeafData>, k: nat)
    requires k < |events|
    ensures ReadsAs(RecordFor(h, ser, events, k), Commitment(h, ser, events[k]))
  {
    HexRoundTrip(Commitment(h, ser, events[k]));
  }

  lemma {:induction false} LeafHashesAre(records: seq<Record>, cs: seq<Bytes>, n: nat)
    requires n <= |records| == |cs| && forall i :: 0 <= i < |records| ==> ReadsAs(records[i], cs[i])
    ensures LeafHashesOf(records, n) == cs[..n]
  {
    if n > 0 {
      LeafHashesAre(records, cs, n - 1);
      assert ReadsAs(records[n - 1], cs[n - 1]);
      assert cs[..n] == cs[..n - 1] + [cs[n - 1]];
    }
  }

  /** Whatever the records: a commitment that can be read is taken, any other record is skipped. */
  lemma {:induction false} UnreadableIsSkipped(records: seq<Record>, n: nat)
    requires n < |records|
    ensures var before := LeafHashesOf(records, n);
            && (forall c :: ReadsAs(records[n], c) ==> LeafHashesOf(records, n + 1) == before + [c])
            && ((forall c :: !ReadsAs(records[n], c)) ==> LeafHashesOf(records, n + 1) == before)
  {
    var f := records[n].commitment;
    if f.Some? && f.value != "" && FromHex(f.value).Some? {
      assert ReadsAs(records[n], FromHex(f.value).value);
    }
  }

  /** A record without a block index sorts like one with index 0. */
  lemma {:induction false} NoIndexIsZero(r: Record)
    ensures SortKey(r.(blockIndex := None)) == SortKey(r.(blockIndex := Some(0))) && forall k :: SortKey(r.(blockIndex := Some(k))) == k
  {
  }

  lemma {:induction false} LeafHashesOfSaved(h: Hash, ser: Serializer, events: seq<LeafData>, saved: seq<Record>)
    requires AreRecordsOf(h, ser, events, saved)
    ensures |LeafHashesOf(saved, |saved|)| == |saved|
    ensures forall i :: 0 <= i < |saved| ==> LeafHashesOf(saved, |saved|)[i] == Commitment(h, ser, events[SortKey(saved[i])])
  {
    var cs: seq<Bytes> := seq(|saved|, i requires 0 <= i < |saved| => Commitment(h, ser, events[SortKey(saved[i])]));
    forall i | 0 <= i < |saved| ensures ReadsAs(saved[i], cs[i]) {
      CommitmentReadsBack(h, ser, events, SortKey(saved[i]));
    }
    LeafHashesAre(saved, cs, |saved|);
  }

  lemma {:induction false} FullSaveIsIdentity(records: seq<Record>, n: nat)
    requires StrictlySorted(records) && forall i :: 0 <= i < |records| ==> 0 <= SortKey(records[i]) < n
    ensures |records| <= n
    ensures |records| == n ==> forall i :: 0 <= i < n ==> SortKey(records[i]) == i
  {
    if records != [] {
      var init, last := records[..|records| - 1], records[|records| - 1];
      FullSaveIsIdentity(init, SortKey(last));
    }
  }

  /** A restart rebuilds the in-memory leaves exactly when no write was lost. */
  lemma {:induction false} RestartRecoversIff(h: Hash, ser: Serializer, events: seq<LeafData>, saved: seq<Record>, files: Files, order: seq<string>)
    requires Consistent(h, ser, events, saved, files) && IsListing(files, order)
    ensures Recovered(files, order) == Commitments(h, ser, events) <==> |saved| == |events|
  {
    ReadBackIsSaved(h, ser, events, saved, files, order);
    LeafHashesOfSaved(h, ser, events, saved);
    FullSaveIsIdentity(saved, |events|);
  }

  /** The next event of a restarted logger gets the number of saved records as its index. If a record was lost, that
  index is smaller than the length of the log: it was given to an event before. */
  lemma {:induction false} NextIndexAfterRestart(h: Hash, ser: Serializer, events: seq<LeafData>, saved: seq<Record>, files: Files, order: seq<string>)
    requires Consistent(h, ser, events, saved, files) && IsListing(files, order)
    ensures |Recovered(files, order)| == |saved| <= |events|
  {
    ReadBackIsSaved(h, ser, events, saved, files, order);
    LeafHashesOfSaved(h, ser, events, saved);
    FullSaveIsIdentity(saved, |events|);
  }

  // ---------- finding a task ----------

  predicate Matches(r: Record, tenantId: string, taskId: string) {
    r.leaf.taskId == Some(taskId) && r.leaf.tenantId == tenantId
  }

  /** The last matching record of a file. */
  function LastMatch(records: seq<Record>, tenantId: string, taskId: string): Option<Record> {
    if records == [] then None
    else if Matches(records[|records| - 1], tenantId, taskId) then Some(records[|records| - 1])
    else LastMatch(records[..|records| - 1], tenantId, taskId)
  }

  /** Looking in the tenant's own file finds the last matching saved record, although different
  tenants may share one file. */
  lemma {:induction false} LastMatchInFile(saved: seq<Record>, name: string, tenantId: string, taskId: string)
    requires TenantFilename(tenantId) == Some(name)
    ensures LastMatch(Select(saved, name), tenantId, taskId) == LastMatch(saved, tenantId, taskId)
  {
    if saved != [] {
      LastMatchInFile(saved[..|saved| - 1], name, tenantId, taskId);
      var r, rest := saved[|saved| - 1], Select(saved[..|saved| - 1], name);
      if TenantFilename(r.leaf.tenantId) == Some(name) {
        assert (rest + [r])[..|rest|] == rest;
      } else {
        assert Select(saved, name) == rest;
      }
    }
  }

  /** It is the last one: it matches, and nothing after it does. */
  lemma {:induction false} LastMatchIsLast(records: seq<Record>, tenantId: string, taskId: string) returns (k: nat)
    ensures var m := LastMatch(records, tenantId, taskId);
            && (m.Some? ==> k < |records| && m.value == records[k] && Matches(records[k], tenantId, taskId)
                            && forall j :: k < j < |records| ==> !Matches(records[j], tenantId, taskId))
            && (m == None ==> forall j :: 0 <= j < |records| ==> !Matches(records[j], tenantId, taskId))
  {
    k := 0;
    if records != [] {
      if Matches(records[|records| - 1], tenantId, taskId) {
        k := |records| - 1;
      } else {
        k := LastMatchIsLast(records[..|records| - 1], tenantId, taskId);
      }
    }
  }

  // ---------- what a proof is worth when records are missing ----------

  /** The outcome of proving data at an index over a leaf list. */
  function ProofOver(h: Hash, ser: Serializer, leaves: seq<Bytes>, leaf: LeafData, index: int): ProofResult {
    if leaves == [] then EmptyLeaves
    else if index < 0 || index >= |leaves| then IndexOutOfRange
    else Proved(InclusionProof(SafeHash(h, ser(leaf)), Path(h, leaves, index), Root(h, leaves), index))
  }

  /** The leaves a proof is made over: those in memory if the index is among them, otherwise the file's own. */
  function LeavesFor(inMemory: seq<Bytes>, file: seq<Record>, index: int): seq<Bytes> {
    if 0 <= index < |inMemory| then inMemory else SortedHashes(file)
  }

  /** The proof `r` of record `i`, whose block index is `k`, over the commitments of a list of records: there is one
  exactly when `k` is a position of the list, it is accepted if the commitment at position `k` is that of the record
  and only then, unless strings hashed to climb from the two commitments collide, and record `i` itself is at position `k` exactly when no record
  before it is missing. */
  ghost predicate ProvesRecord(h: Hash, ser: Serializer, records: seq<Record>, i: nat, r: ProofResult, x: Bytes, y: Bytes)
    requires i < |records|
  {
    var k, data := SortKey(records[i]), ser(records[i].leaf);
    && i <= k && (k == i <==> forall m :: 0 <= m <= i ==> SortKey(records[m]) == m)
    && (if k < |records| then r.Proved? else r == IndexOutOfRange)
    && (r.Proved? ==>
          var there, mine := Commitment(h, ser, records[k].leaf), SafeHash(h, data);
          && (there == mine ==> Accepts(h, r.proof, data))
          && (Accepts(h, r.proof, data) ==> there == mine || StartsCollide(h, mine, there, r.proof.path, x, y)))
  }

  lemma {:induction false} KeyBounds(records: seq<Record>, i: nat)
    requires StrictlySorted(records) && i < |records| && forall m :: 0 <= m < |records| ==> SortKey(records[m]) >= 0
    ensures i <= SortKey(records[i])
    ensures SortKey(records[i]) == i ==> forall m :: 0 <= m <= i ==> SortKey(records[m]) == m
  {
    FullSaveIsIdentity(records[..i + 1], SortKey(records[i]) + 1);
    assert forall m :: 0 <= m <= i ==> records[..i + 1][m] == records[m];
  }

  lemma {:induction false} RecordsCommit(h: Hash, ser: Serializer, events: seq<LeafData>, records: seq<Record>)
    requires AreRecordsOf(h, ser, events, records)
    ensures var leaves := LeafHashesOf(records, |records|);
            && |leaves| == |records| && AllDigests(leaves)
            && forall i :: 0 <= i < |records| ==> leaves[i] == Commitment(h, ser, records[i].leaf)
  {
    LeafHashesOfSaved(h, ser, events, records);
    forall i | 0 <= i < |records| ensures events[SortKey(records[i])] == records[i].leaf {
    }
  }

  /** The proof of any record over the commitments of any part of a log. */
  lemma {:induction false} ProofOfRecord(h: Hash, ser: Serializer, events: seq<LeafData>, records: seq<Record>, i: nat)
    returns (x: Bytes, y: Bytes)
    requires AreRecordsOf(h, ser, events, records) && StrictlySorted(records) && i < |records|
    ensures var leaves := LeafHashesOf(records, |records|);
            ProvesRecord(h, ser, records, i, ProofOver(h, ser, leaves, records[i].leaf, SortKey(records[i])), x, y)
  {
    var leaves, k := LeafHashesOf(records, |records|), SortKey(records[i]);
    RecordsCommit(h, ser, events, records);
    KeyBounds(records, i);
    x, y := [], [];
    if k < |records| {
      x, y := GeneratedProofAccepts(h, leaves, k, ser(records[i].leaf), ser(records[i].leaf));
    }
  }

  lemma {:induction false} SelectIsPart(saved: seq<Record>, name: string)
    ensures |Select(saved, name)| <= |saved|
    ensures forall r :: r in Select(saved, name) ==> r in saved
  {
    if saved != [] {
      SelectIsPart(saved[..|saved| - 1], name);
    }
  }

  lemma {:induction false} SelectIsSorted(saved: seq<Record>, name: string)
    requires StrictlySorted(saved)
    ensures StrictlySorted(Select(saved, name))
  {
    if saved != [] {
      var init := saved[..|saved| - 1];
      SelectIsSorted(init, name);
      SelectIsPart(init, name);
      forall i | 0 <= i < |Select(init, name)| ensures SortKey(Select(init, name)[i]) < SortKey(saved[|saved| - 1]) {
        assert Select(init, name)[i] in init;
      }
    }
  }

  lemma {:induction false} FileHashesAre(h: Hash, ser: Serializer, events: seq<LeafData>, saved: seq<Record>, files: Files, name: string)
    requires Consistent(h, ser, events, saved, files) && name in files
    ensures AreRecordsOf(h, ser, events, files[name]) && StrictlySorted(files[name]) && |files[name]| <= |saved|
    ensures SortedHashes(files[name]) == LeafHashesOf(files[name], |files[name]|)
  {
    SelectIsPart(saved, name);
    SelectIsSorted(saved, name);
    forall i | 0 <= i < |files[name]| ensures files[name][i] in saved {
    }
    SortSorts(files[name]);
    SortedIsUnique(SortByIndex(files[name]), files[name]);
  }

  /** Before anything is loaded, the tenant's own file stands in for the log: a proof is good exactly when the file
  holds the whole log up to that record, or by coincidence. */
  lemma {:induction false} ProofBeforeLoading(h: Hash, ser: Serializer, events: seq<LeafData>, saved: seq<Record>, files: Files, name: string, i: nat)
    returns (x: Bytes, y: Bytes)
    requires Consistent(h, ser, events, saved, files) && name in files && i < |files[name]|
    ensures var file, r := files[name], files[name][i];
            ProvesRecord(h, ser, file, i, ProofOver(h, ser, LeavesFor([], file, SortKey(r)), r.leaf, SortKey(r)), x, y)
  {
    FileHashesAre(h, ser, events, saved, files, name);
    x, y := ProofOfRecord(h, ser, events, files[name], i);
  }

  /** After a restart that lost records, a proof is good exactly when nothing before its record was lost, or by
  coincidence; when its index is past the rebuilt leaves there is none, neither from memory nor from the file. */
  lemma {:induction false} ProofAfterRestart(h: Hash, ser: Serializer, events: seq<LeafData>, saved: seq<Record>, files: Files, order: seq<string>, i: nat)
    returns (x: Bytes, y: Bytes)
    requires Consistent(h, ser, events, saved, files) && IsListing(files, order) && i < |saved|
    ensures var name := TenantFilename(saved[i].leaf.tenantId); name.Some? && name.value in files
    ensures var r := saved[i];
            var leaves := LeavesFor(Recovered(files, order), files[TenantFilename(r.leaf.tenantId).value], SortKey(r));
            ProvesRecord(h, ser, saved, i, ProofOver(h, ser, leaves, r.leaf, SortKey(r)), x, y)
  {
    var name := TenantFilename(saved[i].leaf.tenantId).value;
    ReadBackIsSaved(h, ser, events, saved, files, order);
    RecordsCommit(h, ser, events, saved);
    KeyBounds(saved, i);
    x, y := ProofOfRecord(h, ser, events, saved, i);
    if SortKey(saved[i]) >= |saved| {
      FileHashesAre(h, ser, events, saved, files, name);
      RecordsCommit(h, ser, events, files[name]);
      SelectHasRecord(saved, name, i);
    }
  }

  lemma {:induction false} SelectHasRecord(saved: seq<Record>, name: string, i: nat)
    requires i < |saved| && TenantFilename(saved[i].leaf.tenantId) == Some(name)
    ensures saved[i] in Select(saved, name)
  {
    if i < |saved| - 1 {
      SelectHasRecord(saved[..|saved| - 1], name, i);
    }
  }
}
