/** The inventory of one window, and the single pass over three windows, proved to agree. */
module CustodyScan {

  import opened Bytes
  import opened Custody

  // ---- One window, as a specification

  predicate GoodWindow(begin: int, end: int) {
    0 < begin < end && end - begin <= 7200000
  }

  predicate DistinctStarts(folders: seq<Folder>) {
    forall i, j :: 0 <= i < j < |folders| ==> folders[i].start != folders[j].start
  }

  function Segments(host: Host, folders: seq<Folder>): (r: Option<seq<Replayed>>)
    ensures r.Some? ==> |r.value| == |folders|
  {
    if folders == [] then Some([])
    else
      var n := |folders| - 1;
      var before, last := Segments(host, folders[..n]), SegmentOf(host, folders[n].raw, folders[n].name);
      if before.None? || last.None? then None else Some(before.value + [last.value])
  }

  function Rows(segments: seq<Replayed>): seq<Quote> {
    if segments == [] then [] else Rows(segments[..|segments| - 1]) + segments[|segments| - 1].rows
  }

  function Octets(segments: seq<Replayed>): nat {
    if segments == [] then 0 else Octets(segments[..|segments| - 1]) + segments[|segments| - 1].proof.length
  }

  function Pinned(segments: seq<Replayed>): map<bytes, Proof> {
    if segments == [] then map[]
    else
      var last := segments[|segments| - 1].proof;
      Pinned(segments[..|segments| - 1])[last.path := last]
  }

  datatype SegmentProof = SegmentProof(start: nat, sha: bytes, quotes: nat)

  function Proofs(folders: seq<Folder>, segments: seq<Replayed>): seq<SegmentProof>
    requires |folders| == |segments|
  {
    seq(|segments|, i requires 0 <= i < |segments| =>
      SegmentProof(folders[i].start, segments[i].proof.sha, |segments[i].rows|))
  }

  predicate DistinctIds(rows: seq<Quote>) {
    forall i, j :: 0 <= i < j < |rows| ==> rows[i].id != rows[j].id
  }

  function Inside(rows: seq<Quote>, begin: int, end: int): seq<Quote> {
    if rows == [] then []
    else
      var q := rows[|rows| - 1];
      Inside(rows[..|rows| - 1], begin, end) + if begin <= q.at <= end then [q] else []
  }

  /** The rows fit the budgets, and those of the window do not conflict. */
  predicate Scannable(rows: seq<Quote>, begin: int, end: int) {
    && |rows| <= MAX_RECEIPTS && DistinctIds(rows)
    && KeepAll(Inside(rows, begin, end)).Some? && |Inside(rows, begin, end)| <= MAX_SELECTED
  }

  /** The archived pins are the first segments, unchanged. */
  predicate Matches(folders: seq<Folder>, pinned: map<bytes, Proof>, pins: seq<Option<Proof>>) {
    && |pins| <= |folders|
    && forall i :: 0 <= i < |pins| ==>
         pins[i].Some? && pins[i].value.path == folders[i].name && folders[i].name in pinned
             && pinned[folders[i].name] == pins[i].value
  }

  datatype Inventory = Inventory(proofs: seq<SegmentProof>, rows: seq<Quote>, selected: nat, total: nat, octets: nat,
                                 archived: nat, pages: nat, head: bytes)

  function InventoryOf(host: Host, source: Source, begin: int, end: int): Option<Inventory> {
    var segments, archive := Segments(host, source.folders), WholeArchive(host.genesis, source);
    if !GoodWindow(begin, end) || source.folders == [] || !DistinctStarts(source.folders) || segments.None?
      || archive.None? then None
    else
      var rows := Rows(segments.value);
      if !Scannable(rows, begin, end) || !Matches(source.folders, Pinned(segments.value), archive.value.pins) then None
      else
        Some(Inventory(Proofs(source.folders, segments.value), Listing(KeepAll(Inside(rows, begin, end)).value),
                       |Inside(rows, begin, end)|, |rows|, Octets(segments.value), |archive.value.pins|, |source.pages|,
                       archive.value.head))
  }

  /** The rows of an inventory are the earliest in the window of each event, once each, in event order. */
  lemma InventoryListsEarliest(host: Host, source: Source, begin: int, end: int)
    requires InventoryOf(host, source, begin, end).Some?
    ensures ListsEarliest(Inside(Rows(Segments(host, source.folders).value), begin, end),
                          InventoryOf(host, source, begin, end).value.rows)
  {
    hide ListsEarliest, Segments, WholeArchive, KeepAll, Listing, Inside, Matches, Proofs;
    KeptAreListed(Inside(Rows(Segments(host, source.folders).value), begin, end));
  }

  // ---- What fails on the first rows fails on all of them

  lemma {:induction false} InsidePrefix(a: seq<Quote>, b: seq<Quote>, begin: int, end: int)
    requires a <= b
    ensures Inside(a, begin, end) <= Inside(b, begin, end)
    decreases |b|
  {
    if a != b {
      assert a <= b[..|b| - 1];
      InsidePrefix(a, b[..|b| - 1], begin, end);
    }
  }

  lemma ScannablePrefix(a: seq<Quote>, b: seq<Quote>, begin: int, end: int)
    requires a <= b && Scannable(b, begin, end)
    ensures Scannable(a, begin, end)
  {
    InsidePrefix(a, b, begin, end);
    KeepAllPrefix(Inside(a, begin, end), Inside(b, begin, end));
    assert forall i :: 0 <= i < |a| ==> a[i] == b[i];
  }

  lemma RowsMore(segments: seq<Replayed>, next: Replayed)
    ensures Rows(segments + [next]) == Rows(segments) + next.rows
    ensures Octets(segments + [next]) == Octets(segments) + next.proof.length
    ensures Pinned(segments + [next]) == Pinned(segments)[next.proof.path := next.proof]
  {
    assert (segments + [next])[..|segments|] == segments;
  }

  lemma {:induction false} SegmentsPrefix(host: Host, folders: seq<Folder>, n: nat)
    requires n <= |folders| && Segments(host, folders).Some?
    ensures Segments(host, folders[..n]).Some?
    ensures Rows(Segments(host, folders[..n]).value) <= Rows(Segments(host, folders).value)
    decreases |folders|
  {
    if n == |folders| {
      assert folders[..n] == folders;
    } else {
      var m := |folders| - 1;
      SegmentsPrefix(host, folders[..m], n);
      assert folders[..m][..n] == folders[..n];
      RowsMore(Segments(host, folders[..m]).value, SegmentOf(host, folders[m].raw, folders[m].name).value);
    }
  }

  /** An unreadable segment, or first rows that cannot be scanned, leave no inventory. */
  lemma NoInventory(host: Host, source: Source, begin: int, end: int, n: nat, rows: seq<Quote>)
    requires n <= |source.folders|
    requires Segments(host, source.folders[..n]).None?
      || (rows <= Rows(Segments(host, source.folders[..n]).value) && !Scannable(rows, begin, end))
    ensures InventoryOf(host, source, begin, end).None?
  {
    hide Scannable;
    if Segments(host, source.folders).Some? {
      var all := Rows(Segments(host, source.folders).value);
      SegmentsPrefix(host, source.folders, n);
      if Scannable(all, begin, end) {
        ScannablePrefix(rows, all, begin, end);
      }
    }
  }

  // ---- Progress over the segments

  ghost function Ids(rows: seq<Quote>): set<bytes> {
    set i | 0 <= i < |rows| :: rows[i].id
  }

  datatype Tally = Tally(proofs: seq<SegmentProof>, pinned: map<bytes, Proof>, total: nat, octets: nat)

  ghost predicate Tallied(host: Host, folders: seq<Folder>, n: nat, segments: seq<Replayed>, tally: Tally) {
    && n <= |folders| && Segments(host, folders[..n]) == Some(segments)
    && tally == Tally(Proofs(folders[..n], segments), Pinned(segments), |Rows(segments)|, Octets(segments))
  }

  function Counted(tally: Tally, folder: Folder, next: Replayed): Tally {
    Tally(tally.proofs + [SegmentProof(folder.start, next.proof.sha, |next.rows|)],
          tally.pinned[next.proof.path := next.proof],
          tally.total + |next.rows|, tally.octets + next.proof.length)
  }

  lemma TallyMore(host: Host, folders: seq<Folder>, n: nat, segments: seq<Replayed>, tally: Tally)
    requires Tallied(host, folders, n, segments, tally) && n < |folders|
    ensures
      var next := SegmentOf(host, folders[n].raw, folders[n].name);
      if next.None? then Segments(host, folders[..n + 1]).None?
      else Tallied(host, folders, n + 1, segments + [next.value], Counted(tally, folders[n], next.value))
  {
    hide SegmentOf, Proofs, Rows, Octets, Pinned;
    var next := SegmentOf(host, folders[n].raw, folders[n].name);
    assert folders[..n + 1] == folders[..n] + [folders[n]];
    SegmentsMore(host, folders[..n], folders[n]);
    if next.Some? {
      RowsMore(segments, next.value);
      ProofsMore(folders[..n], segments, folders[n], next.value);
    }
  }

  lemma SegmentsMore(host: Host, folders: seq<Folder>, folder: Folder)
    ensures
      var before, next := Segments(host, folders), SegmentOf(host, folder.raw, folder.name);
      Segments(host, folders + [folder]) == if before.None? || next.None?
          then None else Some(before.value + [next.value])
  {
    hide SegmentOf;
    assert (folders + [folder])[..|folders|] == folders;
  }

  lemma ProofsMore(folders: seq<Folder>, segments: seq<Replayed>, folder: Folder, next: Replayed)
    requires |folders| == |segments|
    ensures Proofs(folders + [folder], segments + [next]) ==
      Proofs(folders, segments) + [SegmentProof(folder.start, next.proof.sha, |next.rows|)]
  {
  }

  /** The rows seen so far have different ids, which are remembered. */
  ghost predicate Seen(rows: seq<Quote>, ids: set<bytes>) {
    DistinctIds(rows) && ids == Ids(rows)
  }

  lemma SeenMore(rows: seq<Quote>, ids: set<bytes>, q: Quote)
    requires Seen(rows, ids)
    ensures q.id in ids ==> !DistinctIds(rows + [q])
    ensures q.id !in ids ==> Seen(rows + [q], ids + {q.id})
  {
    var more := rows + [q];
    if q.id in ids {
      var i :| 0 <= i < |rows| && rows[i].id == q.id;
      assert more[i].id == more[|rows|].id;
    } else {
      assert forall i :: 0 <= i < |rows| ==> rows[i].id in ids;
      assert forall b :: b in Ids(more) ==> b in ids + {q.id};
      assert more[|rows|] == q;
      forall b | b in ids + {q.id} ensures b in Ids(more) {
        if b in ids {
          var i :| 0 <= i < |rows| && rows[i].id == b;
          assert more[i].id == b;
        }
      }
    }
  }

  // ---- One window

  ghost predicate Windowed(rows: seq<Quote>, begin: int, end: int, events: Events, selected: nat) {
    KeepAll(Inside(rows, begin, end)) == Some(events) && selected == |Inside(rows, begin, end)|
  }

  lemma WindowMore(rows: seq<Quote>, begin: int, end: int, events: Events, selected: nat, q: Quote)
    requires Windowed(rows, begin, end, events, selected)
    ensures
      if !(begin <= q.at <= end) then Windowed(rows + [q], begin, end, events, selected)
      else if Keep(events, q).None? then KeepAll(Inside(rows + [q], begin, end)).None?
      else Windowed(rows + [q], begin, end, Keep(events, q).value, selected + 1)
  {
    hide KeepAll, Keep;
    assert (rows + [q])[..|rows|] == rows;
    assert Inside(rows, begin, end) + [] == Inside(rows, begin, end);
    if begin <= q.at <= end {
      KeepAllMore(Inside(rows, begin, end), q);
    }
  }

  /** The rows of one segment, for one window. */
  method TakeRows(rows: seq<Quote>, begin: int, end: int, ghost before: seq<Quote>, ids: set<bytes>, events: Events,
                  selected: nat)
    returns (ok: bool, ids': set<bytes>, events': Events, selected': nat)
    requires Seen(before, ids) && Windowed(before, begin, end, events, selected)
    ensures ok ==> Seen(before + rows, ids') && Windowed(before + rows, begin, end, events', selected')
    ensures !ok ==> !(DistinctIds(before + rows) && KeepAll(Inside(before + rows, begin, end)).Some?)
  {
    hide Seen, Windowed, Keep, KeepAll, Inside, DistinctIds;
    ids', events', selected' := ids, events, selected;
    var k := 0;
    assert before + rows[..0] == before;
    while k < |rows|
      invariant 0 <= k <= |rows|
      invariant Seen(before + rows[..k], ids') && Windowed(before + rows[..k], begin, end, events', selected')
    {
      var q := rows[k];
      ghost var done := before + rows[..k];
      assert done + [q] == before + rows[..k + 1];
      SeenMore(done, ids', q);
      WindowMore(done, begin, end, events', selected', q);
      if q.id in ids' {
        TakenPrefix(done + [q], before + rows, begin, end);
        return false, ids', events', selected';
      }
      ids' := ids' + {q.id};
      if begin <= q.at <= end {
        var kept := Keep(events', q);
        if kept.None? {
          TakenPrefix(done + [q], before + rows, begin, end);
          return false, ids', events', selected';
        }
        events', selected' := kept.value, selected' + 1;
      }
      k := k + 1;
    }
    assert rows[..k] == rows;
    ok := true;
  }

  lemma TakenPrefix(a: seq<Quote>, b: seq<Quote>, begin: int, end: int)
    requires a <= b
    ensures DistinctIds(b) ==> DistinctIds(a)
    ensures KeepAll(Inside(b, begin, end)).Some? ==> KeepAll(Inside(a, begin, end)).Some?
  {
    InsidePrefix(a, b, begin, end);
    if KeepAll(Inside(b, begin, end)).Some? {
      KeepAllPrefix(Inside(a, begin, end), Inside(b, begin, end));
    }
    assert forall i :: 0 <= i < |a| ==> a[i] == b[i];
  }

  /** The single check of one archived pin in the inventory. */
  predicate InventoryPin(pinned: map<bytes, Proof>, expected: bytes, pin: Option<Proof>) {
    && pin.Some? && pin.value.path in pinned && pinned[pin.value.path] == pin.value && pin.value.path == expected
  }

  /** No start is used by two folders: as many different ones as folders. */
  method CheckStarts(folders: seq<Folder>) returns (ok: bool)
    ensures ok <==> DistinctStarts(folders)
  {
    var seen: set<nat>, n := {}, 0;
    while n < |folders|
      invariant 0 <= n <= |folders| && DistinctStarts(folders[..n])
      invariant forall s :: s in seen <==> exists k :: 0 <= k < n && folders[k].start == s
    {
      if folders[n].start in seen {
        return false;
      }
      assert folders[..n + 1] == folders[..n] + [folders[n]];
      seen := seen + {folders[n].start};
      n := n + 1;
    }
    assert folders[..n] == folders;
    ok := true;
  }

  /** copied_original_inventory. */
  method CopiedOriginalInventory(host: Host, source: Source, begin: int, end: int) returns (r: Option<Inventory>)
    ensures r == InventoryOf(host, source, begin, end)
  {
    hide Seen, Windowed, Tallied, Scannable, Segments, SegmentOf, WholeArchive, KeepAll, Inside, Rows, Proofs, Pinned,
         Octets, Listing;
    if !(0 < begin < end) || end - begin > 7200000 || source.folders == [] {
      return None;
    }
    var distinct := CheckStarts(source.folders);
    if !distinct {
      return None;
    }
    var tally := Tally([], map[], 0, 0);
    var ids, events: Events, selected: nat, n: nat := {}, map[], 0, 0;
    ghost var segments: seq<Replayed> := [];
    NothingYet(host, source.folders, begin, end);
    while n < |source.folders|
      invariant 0 <= n <= |source.folders| && Tallied(host, source.folders, n, segments, tally)
        && tally.total <= MAX_RECEIPTS
      invariant Seen(Rows(segments), ids) && Windowed(Rows(segments), begin, end, events, selected)
    {
      var next := OriginalSegment(host, source.folders[n].raw, source.folders[n].name);
      TallyMore(host, source.folders, n, segments, tally);
      if next.None? {
        NoInventory(host, source, begin, end, n + 1, []);
        return None;
      }
      ghost var before := Rows(segments);
      RowsMore(segments, next.value);
      segments, tally, n := segments + [next.value], Counted(tally, source.folders[n], next.value), n + 1;
      Unscannable(host, source.folders, n, segments, tally, begin, end);
      if tally.total > MAX_RECEIPTS {
        NoInventory(host, source, begin, end, n, Rows(segments));
        return None;
      }
      var ok: bool;
      ok, ids, events, selected := TakeRows(next.value.rows, begin, end, before, ids, events, selected);
      if !ok {
        NoInventory(host, source, begin, end, n, Rows(segments));
        return None;
      }
    }
    assert source.folders[..n] == source.folders;
    AllTallied(host, source.folders, segments, tally, begin, end, ids, events, selected);
    var archive := CheckArchive(host.genesis, source);
    if selected > MAX_SELECTED || archive.None? {
      return None;
    }
    var pins := archive.value.pins;
    if |pins| > |tally.proofs|
       || exists i :: 0 <= i < |pins| && !InventoryPin(tally.pinned, source.folders[i].name, pins[i]) {
      return None;
    }
    r := Some(Inventory(tally.proofs, Listing(events), selected, tally.total, tally.octets, |pins|, |source.pages|,
                        archive.value.head));
  }

  lemma NothingYet(host: Host, folders: seq<Folder>, begin: int, end: int)
    ensures Tallied(host, folders, 0, [], Tally([], map[], 0, 0))
    ensures Rows([]) == [] && Seen([], {}) && Windowed([], begin, end, map[], 0)
  {
    assert folders[..0] == [];
  }

  lemma Unscannable(host: Host, folders: seq<Folder>, n: nat, segments: seq<Replayed>, tally: Tally, begin: int,
                    end: int)
    requires Tallied(host, folders, n, segments, tally)
    ensures Segments(host, folders[..n]) == Some(segments)
    ensures tally.total > MAX_RECEIPTS ==> !Scannable(Rows(segments), begin, end)
    ensures !(DistinctIds(Rows(segments)) && KeepAll(Inside(Rows(segments), begin, end)).Some?) ==>
      !Scannable(Rows(segments), begin, end)
  {
  }

  /** What is known when all segments are through. */
  lemma AllTallied(host: Host, folders: seq<Folder>, segments: seq<Replayed>, tally: Tally, begin: int, end: int,
                   ids: set<bytes>, events: Events, selected: nat)
    requires Tallied(host, folders, |folders|, segments, tally) && tally.total <= MAX_RECEIPTS
    requires Seen(Rows(segments), ids) && Windowed(Rows(segments), begin, end, events, selected)
    ensures Segments(host, folders) == Some(segments)
    ensures tally == Tally(Proofs(folders, segments), Pinned(segments), |Rows(segments)|, Octets(segments))
    ensures Scannable(Rows(segments), begin, end) <==> selected <= MAX_SELECTED
    ensures KeepAll(Inside(Rows(segments), begin, end)) == Some(events)
      && |Inside(Rows(segments), begin, end)| == selected
    ensures |tally.proofs| == |folders|
  {
    assert folders[..|folders|] == folders;
  }

  // ---- Three windows in one pass

  datatype Window = Window(begin: int, end: int)

  /** The windows are bounded, disjoint and in order. */
  predicate GoodWindows(windows: seq<Window>) {
    && (forall i :: 0 <= i < |windows| ==> GoodWindow(windows[i].begin, windows[i].end))
    && (forall i :: 0 < i < |windows| ==> windows[i].begin > windows[i - 1].end)
  }

  datatype Selection = Selection(events: Events, selected: nat)

  /** The rows of a window, in event order. */
  datatype Chosen = Chosen(rows: seq<Quote>, selected: nat)

  datatype Multi = Multi(proofs: seq<SegmentProof>, windows: seq<Chosen>, total: nat, octets: nat, archived: nat,
                         pages: nat,
                         head: bytes) {
    /** What the scan says of window i, as an inventory of that window alone would say it. */
    function At(i: nat): Inventory
      requires i < |windows|
    {
      Inventory(proofs, windows[i].rows, windows[i].selected, total, octets, archived, pages, head)
    }
  }

  ghost predicate AllWindowed(rows: seq<Quote>, windows: seq<Window>, selections: seq<Selection>) {
    && |selections| == |windows|
    && forall i :: 0 <= i < |windows| ==>
         && Windowed(rows, windows[i].begin, windows[i].end, selections[i].events, selections[i].selected)
         && selections[i].selected <= MAX_SELECTED
  }

  /** One row for every window; false when some window cannot take it. */
  method TakeRow(q: Quote, windows: seq<Window>, ghost before: seq<Quote>, selections: seq<Selection>)
    returns (ok: bool, selections': seq<Selection>)
    requires AllWindowed(before, windows, selections)
    ensures ok ==> AllWindowed(before + [q], windows, selections')
    ensures !ok ==> exists i :: 0 <= i < |windows| && Overflows(before + [q], windows[i])
  {
    hide Windowed, Keep;
    selections' := selections;
    var i := 0;
    while i < |windows|
      invariant 0 <= i <= |windows| == |selections'|
      invariant forall k :: 0 <= k < i ==>
        Windowed(before + [q], windows[k].begin, windows[k].end, selections'[k].events, selections'[k].selected)
        && selections'[k].selected <= MAX_SELECTED
      invariant forall k :: i <= k < |windows| ==> selections'[k] == selections[k]
    {
      var w, s := windows[i], selections[i];
      WindowMore(before, w.begin, w.end, s.events, s.selected, q);
      if w.begin <= q.at <= w.end {
        var kept := Keep(s.events, q);
        if kept.None? || s.selected + 1 > MAX_SELECTED {
          if kept.Some? { Overflown(before + [q], w, kept.value, s.selected + 1); }
          assert Overflows(before + [q], windows[i]);
          return false, selections';
        }
        selections' := selections'[i := Selection(kept.value, s.selected + 1)];
      }
      i := i + 1;
    }
    ok := true;
  }

  /** The rows of this window conflict or are too many. */
  ghost predicate Overflows(rows: seq<Quote>, w: Window) {
    KeepAll(Inside(rows, w.begin, w.end)).None? || |Inside(rows, w.begin, w.end)| > MAX_SELECTED
  }

  lemma Overflown(rows: seq<Quote>, w: Window, events: Events, selected: nat)
    requires Windowed(rows, w.begin, w.end, events, selected) && selected > MAX_SELECTED
    ensures Overflows(rows, w)
  {
  }

  lemma OverflowsMore(a: seq<Quote>, b: seq<Quote>, w: Window)
    requires a <= b && Overflows(a, w)
    ensures Overflows(b, w)
  {
    InsidePrefix(a, b, w.begin, w.end);
    TakenPrefix(a, b, w.begin, w.end);
  }

  /** Some id is used twice, or some window overflows. */
  ghost predicate Spoils(rows: seq<Quote>, windows: seq<Window>) {
    !DistinctIds(rows) || exists i :: 0 <= i < |windows| && Overflows(rows, windows[i])
  }

  lemma SpoilsMore(a: seq<Quote>, b: seq<Quote>, windows: seq<Window>)
    requires a <= b && Spoils(a, windows)
    ensures Spoils(b, windows)
  {
    hide Overflows;
    if DistinctIds(b) {
      assert forall i :: 0 <= i < |a| ==> a[i] == b[i];
      var i :| 0 <= i < |windows| && Overflows(a, windows[i]);
      OverflowsMore(a, b, windows[i]);
    }
  }

  /** The rows of one segment, for all windows. */
  method TakeAllRows(rows: seq<Quote>, windows: seq<Window>, ghost before: seq<Quote>, ids: set<bytes>,
                     selections: seq<Selection>)
    returns (ok: bool, ids': set<bytes>, selections': seq<Selection>)
    requires Seen(before, ids) && AllWindowed(before, windows, selections)
    ensures ok ==> Seen(before + rows, ids') && AllWindowed(before + rows, windows, selections')
    ensures !ok ==> Spoils(before + rows, windows)
  {
    hide Seen, AllWindowed, Overflows, DistinctIds;
    ids', selections' := ids, selections;
    var k := 0;
    assert before + rows[..0] == before;
    while k < |rows|
      invariant 0 <= k <= |rows|
      invariant Seen(before + rows[..k], ids') && AllWindowed(before + rows[..k], windows, selections')
    {
      var q := rows[k];
      ghost var done := before + rows[..k];
      assert done + [q] == before + rows[..k + 1];
      assert done + [q] <= before + rows;
      SeenMore(done, ids', q);
      if q.id in ids' {
        SpoilsMore(done + [q], before + rows, windows);
        return false, ids', selections';
      }
      ids' := ids' + {q.id};
      ok, selections' := TakeRow(q, windows, done, selections');
      if !ok {
        SpoilsMore(done + [q], before + rows, windows);
        return;
      }
      k := k + 1;
    }
    assert rows[..k] == rows;
    ok := true;
  }

  /** The single check of one archived pin in the scan. */
  predicate ScanPin(pinned: map<bytes, Proof>, expected: bytes, pin: Option<Proof>) {
    pin.Some? && pin.value.path == expected && expected in pinned && pinned[expected] == pin.value
  }

  ghost predicate AllInventories(host: Host, source: Source, windows: seq<Window>) {
    forall i :: 0 <= i < |windows| ==> InventoryOf(host, source, windows[i].begin, windows[i].end).Some?
  }

  lemma SpoiltScan(host: Host, source: Source, windows: seq<Window>, n: nat, segments: seq<Replayed>, tally: Tally)
    requires windows != [] && Tallied(host, source.folders, n, segments, tally)
    requires tally.total > MAX_RECEIPTS || Spoils(Rows(segments), windows)
    ensures !AllInventories(host, source, windows)
  {
    var rows := Rows(segments);
    var i: nat := 0;
    if tally.total <= MAX_RECEIPTS && DistinctIds(rows) {
      i :| 0 <= i < |windows| && Overflows(rows, windows[i]);
    }
    NoInventory(host, source, windows[i].begin, windows[i].end, n, rows);
  }

  /** copied_original_multiwindow: one pass succeeds exactly when the windows are three, bounded, disjoint
      and in order and the inventory of each window alone succeeds, and it yields what they yield. */
  method CopiedOriginalMultiwindow(host: Host, source: Source, windows: seq<Window>) returns (r: Option<Multi>)
    ensures r.Some? <==> |windows| == 3 && GoodWindows(windows) && AllInventories(host, source, windows)
    ensures r.Some? ==> |r.value.windows| == 3 && forall i :: 0 <= i < 3 ==>
      InventoryOf(host, source, windows[i].begin, windows[i].end) == Some(r.value.At(i))
  {
    hide Seen, AllWindowed, Tallied, InventoryOf, Segments, SegmentOf, Rows, Spoils, GoodWindow, DistinctStarts;
    var apart := CheckWindows(windows);
    if |windows| != 3 || !apart {
      return None;
    }
    var distinct := CheckStarts(source.folders);
    if source.folders == [] || !distinct {
      NoFolders(host, source, windows);
      return None;
    }
    var tally := Tally([], map[], 0, 0);
    var ids, selections, n: nat := {}, [Selection(map[], 0), Selection(map[], 0), Selection(map[], 0)], 0;
    ghost var segments: seq<Replayed> := [];
    NothingScanned(host, source.folders, windows, selections);
    while n < |source.folders|
      invariant 0 <= n <= |source.folders| && Tallied(host, source.folders, n, segments, tally)
        && tally.total <= MAX_RECEIPTS
      invariant Seen(Rows(segments), ids) && AllWindowed(Rows(segments), windows, selections)
    {
      var next := OriginalSegment(host, source.folders[n].raw, source.folders[n].name);
      TallyMore(host, source.folders, n, segments, tally);
      if next.None? {
        NoInventory(host, source, windows[0].begin, windows[0].end, n + 1, []);
        return None;
      }
      ghost var before := Rows(segments);
      RowsMore(segments, next.value);
      segments, tally, n := segments + [next.value], Counted(tally, source.folders[n], next.value), n + 1;
      if tally.total > MAX_RECEIPTS {
        SpoiltScan(host, source, windows, n, segments, tally);
        return None;
      }
      var ok: bool;
      ok, ids, selections := TakeAllRows(next.value.rows, windows, before, ids, selections);
      if !ok {
        SpoiltScan(host, source, windows, n, segments, tally);
        return None;
      }
    }
    r := FinishScan(host, source, windows, segments, tally, ids, selections);
  }

  /** The loop over the windows, with the end of the one before. */
  method CheckWindows(windows: seq<Window>) returns (ok: bool)
    ensures ok <==> GoodWindows(windows)
  {
    var previousEnd, n := 0, 0;
    while n < |windows|
      invariant 0 <= n <= |windows| && (n > 0 ==> previousEnd == windows[n - 1].end)
      invariant forall i :: 0 <= i < n ==> GoodWindow(windows[i].begin, windows[i].end)
      invariant forall i :: 0 < i < n ==> windows[i].begin > windows[i - 1].end
    {
      var begin, end := windows[n].begin, windows[n].end;
      if begin <= 0 || begin >= end || end - begin > 7200000 {
        assert !GoodWindow(begin, end);
        return false;
      }
      if n > 0 && begin <= previousEnd {
        return false;
      }
      previousEnd, n := end, n + 1;
    }
    ok := true;
  }

  lemma NoFolders(host: Host, source: Source, windows: seq<Window>)
    requires windows != [] && (source.folders == [] || !DistinctStarts(source.folders))
    ensures !AllInventories(host, source, windows)
  {
    assert InventoryOf(host, source, windows[0].begin, windows[0].end).None?;
  }

  lemma NothingScanned(host: Host, folders: seq<Folder>, windows: seq<Window>, selections: seq<Selection>)
    requires |selections| == |windows| && forall i :: 0 <= i < |windows| ==> selections[i] == Selection(map[], 0)
    ensures Tallied(host, folders, 0, [], Tally([], map[], 0, 0)) && Rows([]) == []
    ensures Seen([], {}) && AllWindowed([], windows, selections)
  {
    NothingYet(host, folders, 0, 0);
  }

  /** The archive check and the result, when all segments are through. */
  method FinishScan(host: Host, source: Source, windows: seq<Window>, ghost segments: seq<Replayed>, tally: Tally,
                    ghost ids: set<bytes>, selections: seq<Selection>)
    returns (r: Option<Multi>)
    requires |windows| == 3 && GoodWindows(windows) && source.folders != [] && DistinctStarts(source.folders)
    requires Tallied(host, source.folders, |source.folders|, segments, tally) && tally.total <= MAX_RECEIPTS
    requires Seen(Rows(segments), ids) && AllWindowed(Rows(segments), windows, selections)
    ensures r.Some? <==> AllInventories(host, source, windows)
    ensures r.Some? ==> |r.value.windows| == 3 && forall i :: 0 <= i < 3 ==>
      InventoryOf(host, source, windows[i].begin, windows[i].end) == Some(r.value.At(i))
  {
    hide Seen, Windowed, Tallied, Scannable, Segments, WholeArchive, Rows, Proofs, Pinned, Octets, KeepAll, Inside,
         DistinctStarts, GoodWindow, Listing;
    var archive := CheckArchive(host.genesis, source);
    forall i | 0 <= i < 3
      ensures Segments(host, source.folders) == Some(segments)
        && Scannable(Rows(segments), windows[i].begin, windows[i].end)
      ensures tally == Tally(Proofs(source.folders, segments), Pinned(segments), |Rows(segments)|, Octets(segments))
      ensures KeepAll(Inside(Rows(segments), windows[i].begin, windows[i].end)) == Some(selections[i].events)
      ensures |Inside(Rows(segments), windows[i].begin, windows[i].end)| == selections[i].selected {
      AllTallied(host, source.folders, segments, tally, windows[i].begin, windows[i].end, ids, selections[i].events,
                 selections[i].selected);
    }
    if archive.None? {
      assert InventoryOf(host, source, windows[0].begin, windows[0].end).None?;
      return None;
    }
    var pins := archive.value.pins;
    if |pins| > |source.folders|
       || exists i :: 0 <= i < |pins| && !ScanPin(tally.pinned, source.folders[i].name, pins[i]) {
      assert !Matches(source.folders, tally.pinned, pins);
      assert InventoryOf(host, source, windows[0].begin, windows[0].end).None?;
      return None;
    }
    assert Matches(source.folders, tally.pinned, pins);
    var chosen := seq(3, i requires 0 <= i < 3 => Chosen(Listing(selections[i].events), selections[i].selected));
    r := Some(Multi(tally.proofs, chosen, tally.total, tally.octets, |pins|, |source.pages|, archive.value.head));
    forall i | 0 <= i < 3 ensures InventoryOf(host, source, windows[i].begin, windows[i].end) == Some(r.value.At(i)) {
    }
  }
}
