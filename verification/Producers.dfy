/** From the segments of a directory to the verified chains of its producers, and from those to credit. */
module Producers {

  import opened Bytes
  import opened Sorting
  import opened SegmentCache
  import opened Attribution

  type File = Segment<Rec>

  // ---- The reference: what belongs to a producer

  function ProducerOf(f: File): Option<bytes> {
    if f.records == [] then None else Some(f.records[0].record.producer)
  }

  predicate Single(f: File) {
    forall i :: 0 <= i < |f.records| ==> f.records[i].record.producer == f.records[0].record.producer
  }

  /** The whole earlier segments of a producer. */
  function CompletedBy(files: seq<File>, producer: bytes): seq<Prefix> {
    if files == [] then []
    else
      var n := |files| - 1;
      CompletedBy(files[..n], producer) + if ProducerOf(files[n]) == Some(producer) then [files[n].prefix] else []
  }

  function ItemsOf(records: seq<Located<Rec>>, completed: seq<Prefix>): seq<Item> {
    seq(|records|, i requires 0 <= i < |records| => Item(records[i].record, completed + [records[i].prefix]))
  }

  function GroupOf(files: seq<File>, producer: bytes): seq<Item> {
    if files == [] then []
    else
      var n := |files| - 1;
      GroupOf(files[..n], producer) +
      if ProducerOf(files[n]) == Some(producer) then ItemsOf(files[n].records, CompletedBy(files[..n], producer))
        else []
  }

  function Get<V>(m: map<bytes, seq<V>>, k: bytes): seq<V> {
    if k in m then m[k] else []
  }

  /** The dictionaries hold the groups; the producers are listed once each, as first met. */
  ghost predicate Groups(files: seq<File>, producers: seq<bytes>, groups: map<bytes, seq<Item>>,
                         completed: map<bytes, seq<Prefix>>) {
    && (forall i :: 0 <= i < |producers| ==> producers[i] in groups)
    && (forall i, j :: 0 <= i < j < |producers| ==> producers[i] != producers[j])
    && (forall p :: p in groups ==> p in producers && groups[p] != [])
    && (forall p :: Get(groups, p) == GroupOf(files, p))
    && (forall p :: Get(completed, p) == CompletedBy(files, p))
  }

  lemma NoFiles()
    ensures Groups([], [], map[], map[])
  {
  }

  lemma GroupsOfMore(files: seq<File>, file: File, p: bytes)
    ensures GroupOf(files + [file], p) ==
      GroupOf(files, p) + if ProducerOf(file) == Some(p) then ItemsOf(file.records, CompletedBy(files, p)) else []
    ensures CompletedBy(files + [file], p) == CompletedBy(files, p) + if ProducerOf(file) == Some(p)
      then [file.prefix] else []
  {
    assert (files + [file])[..|files|] == files;
  }

  lemma EmptyFile(files: seq<File>, file: File, producers: seq<bytes>, groups: map<bytes, seq<Item>>,
                  completed: map<bytes, seq<Prefix>>)
    requires Groups(files, producers, groups, completed) && file.records == []
    ensures Groups(files + [file], producers, groups, completed)
  {
    hide GroupOf, CompletedBy;
    forall p ensures GroupOf(files + [file], p) == GroupOf(files, p)
      && CompletedBy(files + [file], p) == CompletedBy(files, p) {
      GroupsOfMore(files, file, p);
    }
  }

  lemma NextFile(files: seq<File>, file: File, producers: seq<bytes>, groups: map<bytes, seq<Item>>,
                 completed: map<bytes, seq<Prefix>>, p: bytes, items: seq<Item>)
    requires Groups(files, producers, groups, completed) && ProducerOf(file) == Some(p)
    requires items == ItemsOf(file.records, Get(completed, p))
    ensures Groups(files + [file], if p in groups then producers else producers + [p],
                   groups[p := Get(groups, p) + items], completed[p := Get(completed, p) + [file.prefix]])
  {
    hide GroupOf, CompletedBy;
    var gs, cs := groups[p := Get(groups, p) + items], completed[p := Get(completed, p) + [file.prefix]];
    forall q ensures Get(gs, q) == GroupOf(files + [file], q) && Get(cs, q) == CompletedBy(files + [file], q) {
      GroupsOfMore(files, file, q);
      assert Get(groups, q) == GroupOf(files, q) && Get(completed, q) == CompletedBy(files, q);
    }
  }

  /** The loop over the files and their records, with its check that no file mixes producers. */
  method GroupFiles(files: seq<File>) returns (ok: bool, producers: seq<bytes>, groups: map<bytes, seq<Item>>)
    ensures ok <==> forall i :: 0 <= i < |files| ==> Single(files[i])
    ensures ok ==> exists completed :: Groups(files, producers, groups, completed)
  {
    hide Groups;
    producers, groups := [], map[];
    NoFiles();
    assert files[..0] == [];
    var completed: map<bytes, seq<Prefix>> := map[];
    var n := 0;
    while n < |files|
      invariant 0 <= n <= |files|
      invariant forall i :: 0 <= i < n ==> Single(files[i])
      invariant Groups(files[..n], producers, groups, completed)
    {
      var file := files[n];
      assert files[..n + 1] == files[..n] + [file];
      if file.records == [] {
        EmptyFile(files[..n], file, producers, groups, completed);
      } else {
        var p := file.records[0].record.producer;
        var items := ReadFile(file, Get(completed, p));
        if items.None? {
          return false, [], map[];
        }
        NextFile(files[..n], file, producers, groups, completed, p, items.value);
        if p !in groups {
          producers := producers + [p];
        }
        groups := groups[p := Get(groups, p) + items.value];
        completed := completed[p := Get(completed, p) + [file.prefix]];
      }
      n := n + 1;
    }
    assert files[..n] == files;
    ok := true;
  }

  method ReadFile(file: File, completed: seq<Prefix>) returns (items: Option<seq<Item>>)
    requires file.records != []
    ensures items == if Single(file) then Some(ItemsOf(file.records, completed)) else None
  {
    var read, i := [], 0;
    while i < |file.records|
      invariant 0 <= i <= |file.records|
      invariant forall k :: 0 <= k < i ==> file.records[k].record.producer == file.records[0].record.producer
      invariant read == ItemsOf(file.records[..i], completed)
    {
      if file.records[i].record.producer != file.records[0].record.producer {
        return None;
      }
      read := read + [Item(file.records[i].record, completed + [file.records[i].prefix])];
      i := i + 1;
    }
    assert file.records[..i] == file.records;
    items := Some(read);
  }

  // ---- A witness belongs to one record

  /** What SegmentCache guarantees of its segments: each has its own path, and offsets grow. */
  ghost predicate Placed(files: seq<File>) {
    && (forall i, j :: 0 <= i < j < |files| ==> files[i].prefix.path != files[j].prefix.path)
    && (forall i, k :: 0 <= i < |files| && 0 <= k < |files[i].records| ==>
        files[i].records[k].prefix.path == files[i].prefix.path)
    && (forall i, k, l :: 0 <= i < |files| && 0 <= k < l < |files[i].records| ==>
          files[i].records[k].prefix.length < files[i].records[l].prefix.length)
  }

  lemma {:induction false} ItemOrigin(files: seq<File>, p: bytes, x: Item) returns (n: nat, k: nat)
    requires x in GroupOf(files, p)
    ensures n < |files| && ProducerOf(files[n]) == Some(p) && k < |files[n].records|
    ensures x.record == files[n].records[k].record && x.trail != []
      && x.trail[|x.trail| - 1] == files[n].records[k].prefix
  {
    n := |files| - 1;
    if x in GroupOf(files[..n], p) {
      n, k := ItemOrigin(files[..n], p, x);
    } else {
      var items := ItemsOf(files[n].records, CompletedBy(files[..n], p));
      k :| 0 <= k < |items| && items[k] == x;
    }
  }

  /** Equal witnesses mean the same record of the same producer. */
  lemma TrailDetermines(files: seq<File>, p: bytes, x: Item, q: bytes, y: Item)
    requires Placed(files) && x in GroupOf(files, p) && y in GroupOf(files, q) && x.trail == y.trail
    ensures p == q && x.record == y.record
  {
    hide Placed;
    var n, k := ItemOrigin(files, p, x);
    var m, l := ItemOrigin(files, q, y);
    SamePlace(files, n, k, m, l);
  }

  lemma SamePlace(files: seq<File>, n: nat, k: nat, m: nat, l: nat)
    requires Placed(files) && n < |files| && k < |files[n].records| && m < |files| && l < |files[m].records|
    requires files[n].records[k].prefix == files[m].records[l].prefix
    ensures n == m && k == l
  {
    assert files[n].prefix.path == files[m].prefix.path;
    OffsetsDiffer(files, n, k, l);
  }

  lemma OffsetsDiffer(files: seq<File>, n: nat, k: nat, l: nat)
    requires Placed(files) && n < |files| && k < |files[n].records| && l < |files[n].records|
    ensures k < l ==> files[n].records[k].prefix.length < files[n].records[l].prefix.length
    ensures l < k ==> files[n].records[l].prefix.length < files[n].records[k].prefix.length
  {
  }

  /** Segments that SegmentCache parsed from files of different names are placed so. */
  lemma ParsedArePlaced(parse: Parser<Rec>, hash: Hash, paths: seq<bytes>, raws: seq<bytes>, files: seq<File>)
    requires |paths| == |raws| == |files| && forall i, j :: 0 <= i < j < |paths| ==> paths[i] != paths[j]
    requires forall i :: 0 <= i < |files| ==> FullParse(parse, hash, paths[i], raws[i]) == Some(files[i])
    ensures Placed(files)
  {
    forall i | 0 <= i < |files| ensures files[i].prefix.path == paths[i] && Ordered(files[i]) {
      assert FullParse(parse, hash, paths[i], raws[i]) == Some(files[i]);
      var blob := Complete(raws[i]);
      LinesAreNotEmpty(blob);
      OffsetsGrow(parse, hash, paths[i], [], SplitLines(blob));
    }
    forall i, k | 0 <= i < |files| && 0 <= k < |files[i].records| ensures files[i].records[k].prefix.path ==
      files[i].prefix.path {
      assert Ordered(files[i]);
    }
    forall i, k, l | 0 <= i < |files| && 0 <= k < l < |files[i].records|
      ensures files[i].records[k].prefix.length < files[i].records[l].prefix.length {
      assert Ordered(files[i]);
    }
  }

  ghost predicate Ordered(f: File) {
    && (forall k :: 0 <= k < |f.records| ==> f.records[k].prefix.path == f.prefix.path)
    && (forall k, l :: 0 <= k < l < |f.records| ==> f.records[k].prefix.length < f.records[l].prefix.length)
  }

  lemma {:induction false} LinesAreNotEmpty(s: bytes)
    ensures forall i :: 0 <= i < |SplitLines(s)| ==> SplitLines(s)[i] != []
  {
    if s != [] {
      LinesAreNotEmpty(s[FirstLine(s)..]);
    }
  }

  // ---- Chains

  /** The key of records.sort. */
  predicate BySequence(a: Item, b: Item) {
    a.record.sequence <= b.record.sequence
  }

  /** Sixty-four zero digits. */
  function Genesis(): bytes {
    Ascii("0000000000000000000000000000000000000000000000000000000000000000")
  }

  /** The record at i continues the chain, is not from the future, and a header is the producer's own. */
  predicate LinkAt(items: seq<Item>, i: nat)
    requires i < |items| && items[0].record.body.Header?
  {
    var r := items[i].record;
    && r.sequence == i && r.previous == (if i == 0 then Genesis() else items[i - 1].record.hash) && r.inTime
    && (r.body.Header? ==> r.body.inScope && r.body.manifest == items[0].record.body.manifest)
  }

  predicate Same(a: Body, b: Body) {
    || (a.Request? && b.Request? && a.id == b.id)
    || (a.Response? && b.Response? && a.id == b.id)
    || (a.Decision? && b.Decision? && a.id == b.id)
  }

  /** Two records of a kind for the same request are alike. */
  predicate NoConflictAt(items: seq<Item>, j: nat)
    requires j < |items|
  {
    forall i :: 0 <= i < j && Same(items[i].record.body, items[j].record.body) ==>
      items[i].record.body == items[j].record.body
  }

  predicate WellFormed(items: seq<Item>) {
    && items != [] && items[0].record.body.Header? && |items[0].record.body.manifest| == 64
    && forall i :: 0 <= i < |items| ==> LinkAt(items, i) && NoConflictAt(items, i)
  }

  predicate Lossy(healthy: bytes -> bool, items: seq<Item>)
    requires items != []
  {
    !healthy(items[0].record.producer) || exists i :: 0 <= i < |items| && items[i].record.dropped
  }

  function KindOf(body: Body): Option<Kind> {
    match body
    case Request(_, _) => Some(RequestKind)
    case Response(_, _) => Some(ResponseKind)
    case Decision(_, _) => Some(DecisionKind)
    case _ => None
  }

  type Tables = map<(Kind, bytes), nat>

  /** The tables of first records agree with the records. */
  ghost predicate Tabulates(tables: Tables, items: seq<Item>) {
    forall kind, id ::
      First(items, kind, id) == if (kind, id) in tables then Some(tables[(kind, id)]) else None
  }

  lemma TabulatesMore(tables: Tables, items: seq<Item>, item: Item)
    requires Tabulates(tables, items)
    ensures
      var kind := KindOf(item.record.body);
      Tabulates(if kind.None? || (kind.value, item.record.body.id) in tables then tables
                else tables[(kind.value, item.record.body.id) := |items|], items + [item])
  {
    var more := items + [item];
    assert more[..|items|] == items;
  }

  /** The loop over one producer's records: it fails on a broken chain or a conflict and otherwise fills
      the tables. */
  method Verify(items: seq<Item>) returns (ok: bool, tables: Tables)
    ensures ok <==> WellFormed(items)
    ensures ok ==> Tabulates(tables, items)
  {
    hide Tabulates, LinkAt;
    tables := map[];
    NothingTabulated();
    if items == [] || !items[0].record.body.Header? || |items[0].record.body.manifest| != 64 {
      return false, tables;
    }
    var manifest := items[0].record.body.manifest;
    var previous, i := Ascii("0000000000000000000000000000000000000000000000000000000000000000"), 0;
    assert items[..0] == [];
    while i < |items|
      invariant 0 <= i <= |items| && Tabulates(tables, items[..i])
      invariant previous == if i == 0 then Genesis() else items[i - 1].record.hash
      invariant forall k :: 0 <= k < i ==> LinkAt(items, k) && NoConflictAt(items, k)
    {
      var r, body := items[i].record, items[i].record.body;
      LinkHere(items, i);
      assert items[..i + 1] == items[..i] + [items[i]];
      TabulatesMore(tables, items[..i], items[i]);
      var kind := KindOf(body);
      if r.sequence != i || r.previous != previous || !r.inTime {
        return false, tables;
      }
      if body.Header? && (body.manifest != manifest || !body.inScope) {
        return false, tables;
      }
      previous := r.hash;
      if kind.Some? {
        var key := (kind.value, body.id);
        ConflictIsSeen(items, i, kind.value, tables);
        if key in tables && items[tables[key]].record.body != body {
          return false, tables;
        }
        if key !in tables {
          tables := tables[key := i];
        }
      }
      i := i + 1;
    }
    assert items[..i] == items;
    ok := true;
  }

  lemma LinkHere(items: seq<Item>, i: nat)
    requires i < |items| && items[0].record.body.Header?
    ensures
      var r := items[i].record;
      LinkAt(items, i) <==>
        && r.sequence == i && r.inTime
        && r.previous == (if i == 0 then Genesis() else items[i - 1].record.hash)
        && !(r.body.Header? && (r.body.manifest != items[0].record.body.manifest || !r.body.inScope))
  {
  }

  lemma NothingTabulated()
    ensures Tabulates(map[], [])
  {
  }

  /** Comparing with the first record of the kind and request is comparing with all of them. */
  lemma ConflictIsSeen(items: seq<Item>, i: nat, kind: Kind, tables: Tables)
    requires i < |items| && KindOf(items[i].record.body) == Some(kind) && Tabulates(tables, items[..i])
    requires forall k :: 0 <= k < i ==> NoConflictAt(items, k)
    ensures
      var key := (kind, items[i].record.body.id);
      && (key in tables ==> tables[key] < i)
      && (NoConflictAt(items, i) <==> (key in tables ==> items[tables[key]].record.body == items[i].record.body))
  {
    var body := items[i].record.body;
    var first := First(items[..i], kind, body.id);
    assert first == if (kind, body.id) in tables then Some(tables[(kind, body.id)]) else None;
    forall k | 0 <= k < i && Same(items[k].record.body, body)
      ensures first.Some? && items[k].record.body == items[first.value].record.body {
      assert Is(items[..i][k].record.body, kind, body.id);
      if first.value < k { assert NoConflictAt(items, k); }
    }
    if first.Some? {
      assert items[..i][first.value] == items[first.value];
    }
  }

  // ---- Credit

  datatype Judge = Judge(digests: Digests, scope: Scope, healthy: bytes -> bool)

  function Chain(files: seq<File>, producer: bytes): seq<Item> {
    Sorted(BySequence, GroupOf(files, producer))
  }

  /** The binding record k of this producer is one that counts: registered, and nothing lost. */
  predicate Counts(judge: Judge, files: seq<File>, producer: bytes, k: nat) {
    var chain := Chain(files, producer);
    && k < |chain| && chain[k].record.body.Binding?
    && chain[0].record.body.Header? && chain[0].record.body.manifest == judge.scope.manifest
    && !Lossy(judge.healthy, chain)
  }

  ghost predicate Sound(judge: Judge, files: seq<File>, claim: Claim, origin: (bytes, nat)) {
    Counts(judge, files, origin.0, origin.1)
    && claim == ClaimAt(judge.digests, judge.scope, Chain(files, origin.0), origin.1)
  }

  /** The claims are those of the records that count, each once, in some order. */
  ghost predicate ClaimsOf(judge: Judge, files: seq<File>, claims: seq<Claim>, origins: seq<(bytes, nat)>) {
    && |claims| == |origins|
    && (forall i :: 0 <= i < |claims| ==> Sound(judge, files, claims[i], origins[i]))
    && (forall i, j :: 0 <= i < j < |origins| ==> origins[i] != origins[j])
  }

  /** The command is named by this record that counts. */
  predicate NamedBy(judge: Judge, files: seq<File>, command: Json, producer: bytes, k: nat) {
    Counts(judge, files, producer, k) && Chain(files, producer)[k].record.body.binding.CommandKey() == command
  }

  ghost predicate NamedOnlyBy(judge: Judge, files: seq<File>, command: Json, producer: bytes, k: nat) {
    && NamedBy(judge, files, command, producer, k)
    && forall p, l: nat :: NamedBy(judge, files, command, p, l) ==> p == producer && l == k
  }

  /** One and only one record that counts names the command, its graph is complete and ordered, and this
      is its credit. */
  ghost predicate Earned(judge: Judge, files: seq<File>, command: Json, credit: Credit) {
    exists p, k: nat :: NamedOnlyBy(judge, files, command, p, k) && Grants(judge, Chain(files, p), k, credit)
  }

  predicate Grants(judge: Judge, chain: seq<Item>, k: nat, credit: Credit) {
    && k < |chain| && chain[k].record.body.Binding? && CompleteAt(judge.digests, judge.scope, chain, k)
    && credit == CreditAt(judge.digests, judge.scope, chain, k)
  }

  lemma ChainFromGroup(files: seq<File>, p: bytes, k: nat)
    requires k < |Chain(files, p)|
    ensures Chain(files, p)[k] in GroupOf(files, p)
  {
    SortPermutes(BySequence, GroupOf(files, p));
    assert Chain(files, p)[k] in multiset(Chain(files, p));
  }

  /** Different records that count have different witnesses. */
  lemma ClaimsAreApart(judge: Judge, files: seq<File>, claims: seq<Claim>, origins: seq<(bytes, nat)>)
    requires Placed(files) && ClaimsOf(judge, files, claims, origins)
    requires forall i :: 0 <= i < |origins| ==> WellFormed(Chain(files, origins[i].0))
    ensures Apart(claims)
  {
    hide Counts, Chain, WellFormed, Placed;
    forall i, j | 0 <= i < j < |claims| && claims[i].credit.Some? && claims[j].credit.Some?
      ensures claims[i].credit.value.trail != claims[j].credit.value.trail {
      assert Sound(judge, files, claims[i], origins[i]) && Sound(judge, files, claims[j], origins[j]);
      if claims[i].credit.value.trail == claims[j].credit.value.trail {
        SameTrailSameOrigin(judge, files, origins[i], origins[j]);
      }
    }
  }

  lemma SameTrailSameOrigin(judge: Judge, files: seq<File>, a: (bytes, nat), b: (bytes, nat))
    requires Placed(files) && Counts(judge, files, a.0, a.1) && Counts(judge, files, b.0, b.1)
    requires WellFormed(Chain(files, a.0)) && WellFormed(Chain(files, b.0))
    requires Chain(files, a.0)[a.1].trail == Chain(files, b.0)[b.1].trail
    ensures a == b
  {
    hide Placed, Chain;
    ChainFromGroup(files, a.0, a.1);
    ChainFromGroup(files, b.0, b.1);
    TrailDetermines(files, a.0, Chain(files, a.0)[a.1], b.0, Chain(files, b.0)[b.1]);
    assert LinkAt(Chain(files, a.0), a.1) && LinkAt(Chain(files, b.0), b.1);
  }

  /** A command has credit exactly when one and only one binding record of the registered, loss-free
      producers names it and the graph of that record is complete and causally ordered. */
  lemma CreditMeans(judge: Judge, files: seq<File>, claims: seq<Claim>, origins: seq<(bytes, nat)>,
                    credits: map<Json, Credit>, command: Json, credit: Credit)
    requires Apart(claims) && ClaimsOf(judge, files, claims, origins) && CreditsExactly(claims, credits)
    requires forall p, k: nat :: Counts(judge, files, p, k) ==> (p, k) in origins
    ensures (command in credits && credits[command] == credit) <==> Earned(judge, files, command, credit)
  {
    hide Chain, CompleteAt, Apart;
    OneAndOnlyOne(claims, command, credit);
    if command in credits && credits[command] == credit {
      var i: nat :| NamedOnlyAt(claims, command, i) && claims[i].credit == Some(credit);
      assert Sound(judge, files, claims[i], origins[i]);
      OnlyClaim(judge, files, claims, origins, command, i);
      assert Grants(judge, Chain(files, origins[i].0), origins[i].1, credit);
    }
    if p, k: nat :| NamedOnlyBy(judge, files, command, p, k) && Grants(judge, Chain(files, p), k, credit) {
      var i :| 0 <= i < |origins| && origins[i] == (p, k);
      assert Sound(judge, files, claims[i], origins[i]);
      OnlyRecord(judge, files, claims, origins, command, i);
      EarnedOnce(claims, command, credit, credits[command]);
    }
  }

  lemma OnlyClaim(judge: Judge, files: seq<File>, claims: seq<Claim>, origins: seq<(bytes, nat)>, command: Json, i: nat)
    requires ClaimsOf(judge, files, claims, origins) && NamedOnlyAt(claims, command, i)
    requires forall p, k: nat :: Counts(judge, files, p, k) ==> (p, k) in origins
    ensures NamedOnlyBy(judge, files, command, origins[i].0, origins[i].1)
  {
    hide Chain, CompleteAt;
    assert Sound(judge, files, claims[i], origins[i]);
    forall p, l: nat | NamedBy(judge, files, command, p, l) ensures (p, l) == origins[i] {
      var j :| 0 <= j < |origins| && origins[j] == (p, l);
      assert Sound(judge, files, claims[j], origins[j]);
    }
  }

  lemma OnlyRecord(judge: Judge, files: seq<File>, claims: seq<Claim>, origins: seq<(bytes, nat)>, command: Json,
                   i: nat)
    requires ClaimsOf(judge, files, claims, origins) && i < |origins|
    requires NamedOnlyBy(judge, files, command, origins[i].0, origins[i].1)
    ensures NamedOnlyAt(claims, command, i)
  {
    hide Chain, CompleteAt;
    assert Sound(judge, files, claims[i], origins[i]);
    forall j | 0 <= j < |claims| && Names(claims[j], command) ensures j == i {
      assert Sound(judge, files, claims[j], origins[j]);
      assert NamedBy(judge, files, command, origins[j].0, origins[j].1);
      assert origins[j] == origins[i];
    }
  }

  /** Looking a binding up in the tables is looking for the first records. */
  method JudgeBinding(judge: Judge, items: seq<Item>, tables: Tables, k: nat) returns (claim: Claim)
    requires k < |items| && items[k].record.body.Binding? && Tabulates(tables, items)
    ensures claim == ClaimAt(judge.digests, judge.scope, items, k)
  {
    var b := items[k].record.body.binding;
    claim := Claim(b.CommandKey(), None);
    var i, j, m := (RequestKind, b.request), (ResponseKind, b.request), (DecisionKind, b.request);
    assert First(items, RequestKind, b.request) == if i in tables then Some(tables[i]) else None;
    assert First(items, ResponseKind, b.request) == if j in tables then Some(tables[j]) else None;
    assert First(items, DecisionKind, b.request) == if m in tables then Some(tables[m]) else None;
    if i in tables && j in tables && m in tables && tables[i] < tables[j] < tables[m] < k {
      var request, response, decision :=
        items[tables[i]].record.body.request, items[tables[j]].record.body.response,
            items[tables[m]].record.body.decision;
      var fits := Examine(judge, b, request, response, decision);
      if fits && b.command.Some? {
        claim := Claim(b.CommandKey(), Some(CreditOf(judge.digests, b, request, items[k].trail)));
      }
    }
  }

  /** The checks of one binding against its request, response and decision, in their order. */
  method Examine(judge: Judge, b: BindingData, request: RequestData, response: ResponseData, decision: DecisionData)
    returns (fits: bool)
    ensures fits <==>
      && Linked(judge.digests, b, request, response, decision)
      && Answers(judge.digests, judge.scope, b, request, response, decision)
  {
    var asked, answered := judge.digests.request(request), judge.digests.response(response);
    if asked != b.requestHash || answered != b.responseHash || decision.requestHash != asked
       || decision.responseHash != answered || response.requestHash != asked
       || judge.digests.decision(decision.decision) != b.decisionHash || decision.decisionHash != b.decisionHash {
      return false;
    }
    var instrument := judge.scope.instrument;
    if request.instrument != instrument || request.period != judge.scope.period || b.instrument != instrument
       || b.kind != Ascii("OPEN") || (b.side != Ascii("BUY") && b.side != Ascii("SELL")) {
      return false;
    }
    var action := Ascii("action");
    if action !in decision.decision || decision.decision[action] != Value(b.side) || !b.stateWritten || !b.exactBasis {
      return false;
    }
    if judge.digests.text(request.prompt) != request.promptHash {
      return false;
    }
    if request.startedAt <= 0 || request.startedAt > response.availableAt
       || response.availableAt > decision.availableAt || decision.availableAt > b.createdAt {
      return false;
    }
    if response.returnCode != 0 || response.answer.None? {
      return false;
    }
    fits := Covered(response.answer.value, decision.decision);
  }

  /** What has been processed: all records that count of some producers, and of one more those before k. */
  ghost predicate Processed(judge: Judge, files: seq<File>, done: seq<bytes>, claims: seq<Claim>,
                            origins: seq<(bytes, nat)>) {
    && ClaimsOf(judge, files, claims, origins)
    && (forall p, k: nat :: p in done && Counts(judge, files, p, k) ==> (p, k) in origins)
    && (forall i :: 0 <= i < |origins| ==> origins[i].0 in done)
  }

  /** The loop over the commands of one registered producer. */
  method CreditProducer(judge: Judge, ghost files: seq<File>, ghost done: seq<bytes>, ghost producer: bytes,
                        items: seq<Item>,
                        tables: Tables, ghost claims: seq<Claim>, ghost origins: seq<(bytes, nat)>,
                        credits: map<Json, Credit>, invalid: set<Json>)
    returns (ghost claims': seq<Claim>, ghost origins': seq<(bytes, nat)>, credits': map<Json, Credit>,
             invalid': set<Json>)
    requires items == Chain(files, producer) && items != [] && items[0].record.body.Header? && Tabulates(tables, items)
    requires items[0].record.body.manifest == judge.scope.manifest && !Lossy(judge.healthy, items)
    requires producer !in done && Processed(judge, files, done, claims, origins) && Gathered(claims, credits, invalid)
    ensures Processed(judge, files, done + [producer], claims', origins') && Gathered(claims', credits', invalid')
  {
    hide Gathered, Chain, ClaimAt, Tabulates, Lossy;
    claims', origins', credits', invalid' := claims, origins, credits, invalid;
    var k := 0;
    while k < |items|
      invariant 0 <= k <= |items| && Gathered(claims', credits', invalid')
      invariant Partly(judge, files, done, producer, k, claims', origins')
    {
      if items[k].record.body.Binding? {
        var claim := JudgeBinding(judge, items, tables, k);
        EnterKeeps(claims', claim, credits', invalid');
        PartlyMore(judge, files, done, producer, k, claims', origins', claim);
        var entered := Enter(claim, credits', invalid');
        credits', invalid' := entered.0, entered.1;
        claims', origins' := claims' + [claim], origins' + [(producer, k)];
      }
      k := k + 1;
    }
    PartlyIsAll(judge, files, done, producer, k, claims', origins');
  }

  ghost predicate Partly(judge: Judge, files: seq<File>, done: seq<bytes>, producer: bytes, n: nat,
                         claims: seq<Claim>, origins: seq<(bytes, nat)>) {
    && ClaimsOf(judge, files, claims, origins)
    && (forall p, k: nat :: p in done && Counts(judge, files, p, k) ==> (p, k) in origins)
    && (forall k: nat :: k < n && Counts(judge, files, producer, k) ==> (producer, k) in origins)
    && (forall i :: 0 <= i < |origins| ==> origins[i].0 in done || (origins[i].0 == producer && origins[i].1 < n))
  }

  lemma PartlyMore(judge: Judge, files: seq<File>, done: seq<bytes>, producer: bytes, n: nat,
                   claims: seq<Claim>, origins: seq<(bytes, nat)>, claim: Claim)
    requires producer !in done && Partly(judge, files, done, producer, n, claims, origins)
    requires Sound(judge, files, claim, (producer, n))
    ensures Partly(judge, files, done, producer, n + 1, claims + [claim], origins + [(producer, n)])
  {
    hide Sound, Counts;
    var cs, os := claims + [claim], origins + [(producer, n)];
    forall i | 0 <= i < |cs| ensures Sound(judge, files, cs[i], os[i]) {
      if i < |claims| { assert Sound(judge, files, claims[i], origins[i]); }
    }
  }

  lemma PartlyIsAll(judge: Judge, files: seq<File>, done: seq<bytes>, producer: bytes, n: nat,
                    claims: seq<Claim>, origins: seq<(bytes, nat)>)
    requires Partly(judge, files, done, producer, n, claims, origins) && n >= |Chain(files, producer)|
    ensures Processed(judge, files, done + [producer], claims, origins)
  {
    hide Sound, Chain;
  }

  // ---- verified_bindings

  /** Every file is of one producer, and every producer's chain is well formed. */
  ghost predicate Verifiable(files: seq<File>) {
    && (forall i :: 0 <= i < |files| ==> Single(files[i]))
    && (forall p :: GroupOf(files, p) != [] ==> WellFormed(Chain(files, p)))
  }

  /** All chains are verified before any credit is given. */
  method VerifyAll(files: seq<File>, producers: seq<bytes>, groups: map<bytes, seq<Item>>)
      returns (ok: bool, graphs: seq<(seq<Item>, Tables)>)
    requires exists completed :: Groups(files, producers, groups, completed)
    ensures ok <==> forall p :: GroupOf(files, p) != [] ==> WellFormed(Chain(files, p))
    ensures ok ==> |graphs| == |producers| && forall i :: 0 <= i < |graphs| ==> Verified(files, producers[i], graphs[i])
  {
    hide WellFormed, Sorted, GroupOf;
    ghost var completed :| Groups(files, producers, groups, completed);
    graphs := [];
    while |graphs| < |producers|
      invariant |graphs| <= |producers| && forall i :: 0 <= i < |graphs| ==> Verified(files, producers[i], graphs[i])
      decreases |producers| - |graphs|
    {
      var p := producers[|graphs|];
      assert Get(groups, p) == GroupOf(files, p);
      var items := Sorted(BySequence, groups[p]);
      var fine, tables := Verify(items);
      if !fine {
        GroupIsNotEmpty(files, producers, groups, completed, p);
        return false, [];
      }
      graphs := graphs + [(items, tables)];
    }
    forall p | GroupOf(files, p) != [] ensures WellFormed(Chain(files, p)) {
      assert Get(groups, p) == GroupOf(files, p);
      var i :| 0 <= i < |producers| && producers[i] == p;
      assert Verified(files, producers[i], graphs[i]);
    }
    ok := true;
  }

  ghost predicate Verified(files: seq<File>, producer: bytes, graph: (seq<Item>, Tables)) {
    graph.0 == Chain(files, producer) && WellFormed(graph.0) && Tabulates(graph.1, graph.0)
  }

  /** verified_bindings on a directory whose segments are placed. It fails exactly when some chain cannot
      be verified; otherwise a command gets credit exactly when one and only one binding record of the
      registered, loss-free producers names it and its graph is complete and causally ordered. */
  method VerifiedBindings(judge: Judge, files: seq<File>) returns (r: Option<map<Json, Credit>>)
    requires Placed(files)
    ensures r.Some? <==> Verifiable(files)
    ensures r.Some? ==>
      forall command, credit :: (command in r.value && r.value[command] == credit) <==>
        Earned(judge, files, command, credit)
  {
    hide Placed, Single, Groups, WellFormed, Counts, Chain, Earned, GroupOf, Gathered;
    var ok, producers, groups := GroupFiles(files);
    if !ok {
      return None;
    }
    var fine, graphs := VerifyAll(files, producers, groups);
    if !fine {
      return None;
    }
    ghost var claims: seq<Claim>;
    ghost var origins: seq<(bytes, nat)>;
    var credits: map<Json, Credit>;
    credits, claims, origins := CreditAll(judge, files, producers, groups, graphs);
    forall command, credit
      ensures (command in credits && credits[command] == credit) <==> Earned(judge, files, command, credit) {
      CreditMeans(judge, files, claims, origins, credits, command, credit);
    }
    r := Some(credits);
  }

  /** The loop over the producers, and the final removal of spoilt commands. */
  method CreditAll(judge: Judge, files: seq<File>, producers: seq<bytes>, groups: map<bytes, seq<Item>>,
                   graphs: seq<(seq<Item>, Tables)>)
    returns (r: map<Json, Credit>, ghost claims: seq<Claim>, ghost origins: seq<(bytes, nat)>)
    requires Placed(files) && exists completed :: Groups(files, producers, groups, completed)
    requires |graphs| == |producers| && forall i :: 0 <= i < |graphs| ==> Verified(files, producers[i], graphs[i])
    ensures CreditsExactly(claims, r) && ClaimsOf(judge, files, claims, origins) && Apart(claims)
    ensures forall p, k: nat :: Counts(judge, files, p, k) ==> (p, k) in origins
  {
    hide Placed, WellFormed, Tabulates, Gathered, Apart, CreditsExactly, ClaimsOf, Counts, Processed, Chain, Groups;
    ghost var completed :| Groups(files, producers, groups, completed);
    var credits, invalid: set<Json> := map[], {};
    claims, origins := [], [];
    Nothing(judge, files);
    var n := 0;
    while n < |graphs|
      invariant 0 <= n <= |graphs| && Gathered(claims, credits, invalid)
      invariant Processed(judge, files, producers[..n], claims, origins)
    {
      assert Verified(files, producers[n], graphs[n]);
      NextProducer(files, producers, groups, completed, n);
      var items := graphs[n].0;
      HeaderFirst(items);
      if items[0].record.body.manifest == judge.scope.manifest && !Lossy(judge.healthy, items) {
        claims, origins, credits, invalid :=
          CreditProducer(judge, files, producers[..n], producers[n], items, graphs[n].1, claims, origins, credits,
                         invalid);
      } else {
        SkippedCounts(judge, files, producers[..n], producers[n], claims, origins);
      }
      n := n + 1;
    }
    assert producers[..n] == producers;
    AllProcessed(judge, files, producers, groups, completed, claims, origins);
    OriginsAreVerified(files, producers, graphs, origins);
    ClaimsAreApart(judge, files, claims, origins);
    GatheredIsExact(claims, credits, invalid);
    r := credits - invalid;
  }

  lemma NextProducer(files: seq<File>, producers: seq<bytes>, groups: map<bytes, seq<Item>>,
                     completed: map<bytes, seq<Prefix>>, n: nat)
    requires Groups(files, producers, groups, completed) && n < |producers|
    ensures producers[n] !in producers[..n] && producers[..n + 1] == producers[..n] + [producers[n]]
  {
  }

  lemma OriginsAreVerified(files: seq<File>, producers: seq<bytes>, graphs: seq<(seq<Item>, Tables)>,
                           origins: seq<(bytes, nat)>)
    requires |graphs| == |producers| && forall i :: 0 <= i < |graphs| ==> Verified(files, producers[i], graphs[i])
    requires forall i :: 0 <= i < |origins| ==> origins[i].0 in producers
    ensures forall i :: 0 <= i < |origins| ==> WellFormed(Chain(files, origins[i].0))
  {
    hide WellFormed, Chain, Tabulates;
    forall i | 0 <= i < |origins| ensures WellFormed(Chain(files, origins[i].0)) {
      var g :| 0 <= g < |producers| && producers[g] == origins[i].0;
      assert Verified(files, producers[g], graphs[g]);
    }
  }

  lemma Nothing(judge: Judge, files: seq<File>)
    ensures Gathered([], map[], {}) && Processed(judge, files, [], [], [])
  {
  }

  lemma HeaderFirst(items: seq<Item>)
    requires WellFormed(items)
    ensures items != [] && items[0].record.body.Header?
  {
  }

  lemma GroupIsNotEmpty(files: seq<File>, producers: seq<bytes>, groups: map<bytes, seq<Item>>,
                        completed: map<bytes, seq<Prefix>>, p: bytes)
    requires Groups(files, producers, groups, completed) && p in producers
    ensures GroupOf(files, p) != []
  {
  }

  lemma SkippedCounts(judge: Judge, files: seq<File>, done: seq<bytes>, producer: bytes, claims: seq<Claim>,
                      origins: seq<(bytes, nat)>)
    requires Processed(judge, files, done, claims, origins)
    requires var items := Chain(files, producer);
      items != [] && items[0].record.body.Header? && (items[0].record.body.manifest != judge.scope.manifest
                                                      || Lossy(judge.healthy, items))
    ensures Processed(judge, files, done + [producer], claims, origins)
  {
    hide ClaimsOf;
  }

  lemma AllProcessed(judge: Judge, files: seq<File>, producers: seq<bytes>, groups: map<bytes, seq<Item>>,
                     completed: map<bytes, seq<Prefix>>, claims: seq<Claim>, origins: seq<(bytes, nat)>)
    requires Groups(files, producers, groups, completed) && Processed(judge, files, producers, claims, origins)
    ensures ClaimsOf(judge, files, claims, origins)
    ensures forall p, k: nat :: Counts(judge, files, p, k) ==> (p, k) in origins
    ensures forall i :: 0 <= i < |origins| ==> origins[i].0 in producers
  {
    hide ClaimsOf, GroupOf;
    forall p, k: nat | Counts(judge, files, p, k) ensures (p, k) in origins {
      assert Get(groups, p) == GroupOf(files, p);
      assert p in producers;
    }
  }
}
