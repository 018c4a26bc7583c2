/** Custody of copied quote segments: the replay of one segment, the inventory of one time window, and
    the scan that takes three windows in a single pass. */
module Custody {

  import opened Bytes

  const MAX_RECEIPTS: nat := 2_000_000
  const MAX_SELECTED: nat := 18000
  const MAX_PAGES: nat := 128
  const PAGE_SIZE: nat := 32

  datatype Quote = Quote(at: int, event: int, expiry: int, id: bytes, price: real)

  type Events = map<int, Quote>

  // ---- The first locally known quote of every event

  function Keep(events: Events, q: Quote): Option<Events> {
    if q.event !in events then Some(events[q.event := q])
    else if events[q.event].price != q.price then None
    else if q.at < events[q.event].at then Some(events[q.event := q])
    else Some(events)
  }

  function KeepAll(rows: seq<Quote>): Option<Events> {
    if rows == [] then Some(map[])
    else
      var before := KeepAll(rows[..|rows| - 1]);
      if before.None? then None else Keep(before.value, rows[|rows| - 1])
  }

  predicate Agreeing(rows: seq<Quote>) {
    forall i, j :: 0 <= i < j < |rows| && rows[i].event == rows[j].event ==> rows[i].price == rows[j].price
  }

  /** No row of the same event was known earlier, and of those known as early this is the first. */
  predicate EarliestAt(rows: seq<Quote>, i: nat)
    requires i < |rows|
  {
    forall j :: 0 <= j < |rows| && rows[j].event == rows[i].event ==>
      rows[i].at <= rows[j].at && (j < i ==> rows[i].at < rows[j].at)
  }

  predicate Earliest(rows: seq<Quote>, q: Quote) {
    exists i :: 0 <= i < |rows| && rows[i] == q && EarliestAt(rows, i)
  }

  /** Every event of the rows is there, with its price and its earliest row. */
  ghost predicate KeptFrom(rows: seq<Quote>, events: Events) {
    && (forall e :: e in events ==> events[e].event == e && Earliest(rows, events[e]))
    && (forall i :: 0 <= i < |rows| ==> rows[i].event in events && events[rows[i].event].price == rows[i].price)
  }

  /** The kept quotes exist exactly when no event has two prices, and are the earliest of each event. */
  lemma {:induction false} KeepAllMeans(rows: seq<Quote>)
    ensures KeepAll(rows).Some? <==> Agreeing(rows)
    ensures KeepAll(rows).Some? ==> KeptFrom(rows, KeepAll(rows).value)
  {
    hide KeptFrom, Keep;
    if rows == [] {
      NothingKept();
    } else {
      var n := |rows| - 1;
      KeepAllMeans(rows[..n]);
      assert rows == rows[..n] + [rows[n]];
      if KeepAll(rows[..n]).Some? {
        KeepOneMore(rows[..n], rows[n], KeepAll(rows[..n]).value);
      } else {
        DisagreeMore(rows[..n], rows[n]);
      }
    }
  }

  lemma NothingKept()
    ensures KeptFrom([], map[])
  {
  }

  lemma DisagreeMore(rows: seq<Quote>, q: Quote)
    requires !Agreeing(rows)
    ensures !Agreeing(rows + [q])
  {
    var i, j :| 0 <= i < j < |rows| && rows[i].event == rows[j].event && rows[i].price != rows[j].price;
    var more := rows + [q];
    assert more[i] == rows[i] && more[j] == rows[j];
  }

  lemma KeepOneMore(before: seq<Quote>, q: Quote, events: Events)
    requires Agreeing(before) && KeptFrom(before, events)
    ensures Keep(events, q).Some? <==> Agreeing(before + [q])
    ensures Keep(events, q).Some? ==> KeptFrom(before + [q], Keep(events, q).value)
  {
    var rows, n := before + [q], |before|;
    assert rows[n] == q;
    if q.event in events && events[q.event].price != q.price {
      var i :| 0 <= i < n && before[i] == events[q.event] && EarliestAt(before, i);
      assert rows[i] == before[i];
    } else {
      var kept := Keep(events, q).value;
      forall e | e in kept ensures kept[e].event == e && Earliest(rows, kept[e]) {
        if e in events {
          StillEarliest(before, q, events[e], kept[e]);
        } else {
          assert forall i :: 0 <= i < n ==> rows[i].event != e;
          assert EarliestAt(rows, n);
        }
      }
    }
  }

  lemma StillEarliest(before: seq<Quote>, q: Quote, known: Quote, kept: Quote)
    requires Earliest(before, known)
    requires kept == if q.event == known.event && q.at < known.at then q else known
    ensures Earliest(before + [q], kept)
  {
    var rows := before + [q];
    assert rows[|before|] == q;
    var i :| 0 <= i < |before| && before[i] == known && EarliestAt(before, i);
    assert rows[i] == known;
    var at := if kept == known then i else |before|;
    forall j | 0 <= j < |rows| && rows[j].event == rows[at].event
      ensures rows[at].at <= rows[j].at && (j < at ==> rows[at].at < rows[j].at) {
      assert j < |before| ==> rows[j] == before[j];
    }
    assert EarliestAt(rows, at);
  }

  // ---- Kept quotes in order of their events

  lemma {:induction false} LeastExists(keys: set<int>, x: int)
    requires x in keys
    ensures exists t :: t in keys && forall e :: e in keys ==> t <= e
    decreases |keys|
  {
    if y :| y in keys && y < x {
      LeastExists(keys - {x}, y);
      var t :| t in keys - {x} && forall e :: e in keys - {x} ==> t <= e;
      forall e | e in keys ensures t <= e {
        assert e != x ==> e in keys - {x};
      }
    }
  }

  lemma EmptyOrNot(keys: set<int>)
    ensures keys == {} || exists x :: x in keys
  {
    if forall x :: x !in keys {
      assert keys == {};
    }
  }

  function Least(keys: set<int>): (t: int)
    requires |keys| > 0
    ensures t in keys && forall e :: e in keys ==> t <= e
  {
    assert exists t :: t in keys && forall e :: e in keys ==> t <= e by {
      EmptyOrNot(keys);
      var x :| x in keys;
      LeastExists(keys, x);
    }
    var t :| t in keys && forall e :: e in keys ==> t <= e;
    t
  }

  /** The values of the map by increasing key. */
  function Listing(events: Events): seq<Quote> {
    if |events| == 0 then []
    else
      var t := Least(events.Keys);
      [events[t]] + Listing(events - {t})
  }

  /** Every event once, in increasing order, each with its earliest row. */
  ghost predicate ListsEarliest(rows: seq<Quote>, listed: seq<Quote>) {
    && Increases(listed)
    && (forall k :: 0 <= k < |listed| ==> Earliest(rows, listed[k]))
    && (forall i :: 0 <= i < |rows| ==> HasEvent(listed, rows[i].event))
  }

  ghost predicate HasEvent(listed: seq<Quote>, event: int) {
    exists k :: 0 <= k < |listed| && listed[k].event == event
  }

  ghost predicate Increases(listed: seq<Quote>) {
    forall k, l :: 0 <= k < l < |listed| ==> listed[k].event < listed[l].event
  }

  predicate KeyedByEvent(events: Events) {
    forall e :: e in events ==> events[e].event == e
  }

  /** These are the values of the map. */
  ghost predicate AreValues(events: Events, listed: seq<Quote>) {
    && (forall k :: 0 <= k < |listed| ==> listed[k].event in events && events[listed[k].event] == listed[k])
    && (forall e :: e in events ==> HasEvent(listed, e))
  }

  lemma {:induction false} ListingMeans(events: Events)
    requires KeyedByEvent(events)
    ensures Increases(Listing(events)) && AreValues(events, Listing(events))
    decreases |events|
  {
    if |events| > 0 {
      var t := Least(events.Keys);
      var rest := events - {t};
      ListingMeans(rest);
      hide Listing;
      ListedFirst(events, t, Listing(rest));
      LeastFirst(events, t, Listing(rest));
    }
  }

  lemma LeastFirst(events: Events, t: int, tail: seq<Quote>)
    requires KeyedByEvent(events) && t in events && forall e :: e in events ==> t <= e
    requires Increases(tail) && AreValues(events - {t}, tail)
    ensures Increases([events[t]] + tail)
  {
    forall k | 0 <= k < |tail| ensures t < tail[k].event {
      assert tail[k].event in events - {t};
    }
  }

  lemma ListedFirst(events: Events, t: int, tail: seq<Quote>)
    requires KeyedByEvent(events) && t in events
    requires AreValues(events - {t}, tail)
    ensures AreValues(events, [events[t]] + tail)
  {
    var listed := [events[t]] + tail;
    assert forall k :: 0 < k < |listed| ==> listed[k] == tail[k - 1];
    forall e | e in events ensures HasEvent(listed, e) {
      if e == t {
        assert listed[0].event == e;
      } else {
        assert HasEvent(tail, e);
        var k :| 0 <= k < |tail| && tail[k].event == e;
        assert listed[k + 1].event == e;
      }
    }
  }

  /** The listed quotes of agreeing rows are the earliest of each event, once each, in event order. */
  lemma KeptAreListed(rows: seq<Quote>)
    requires KeepAll(rows).Some?
    ensures ListsEarliest(rows, Listing(KeepAll(rows).value))
  {
    hide Listing, KeepAll, Earliest, HasEvent;
    var events := KeepAll(rows).value;
    KeepAllMeans(rows);
    assert KeyedByEvent(events);
    ListingMeans(events);
    var listed := Listing(events);
  }

  /** There is only one such list. */
  lemma ListIsUnique(rows: seq<Quote>, a: seq<Quote>, b: seq<Quote>)
    requires ListsEarliest(rows, a) && ListsEarliest(rows, b)
    ensures a == b
  {
    hide ListsEarliest;
    if |a| > |b| {
      SameAt(rows, a, b, |b|);
    } else if |b| > |a| {
      SameAt(rows, b, a, |a|);
    }
    forall k | 0 <= k < |a| ensures a[k] == b[k] {
      SameAt(rows, a, b, k);
    }
  }

  lemma {:induction false} SameAt(rows: seq<Quote>, a: seq<Quote>, b: seq<Quote>, k: nat)
    requires ListsEarliest(rows, a) && ListsEarliest(rows, b) && k < |a|
    ensures k < |b| && a[k] == b[k]
  {
    hide Earliest, ListsEarliest;
    if k > 0 {
      SameAt(rows, a, b, k - 1);
    }
    var m := PlaceOf(rows, a, b, k);
    ListedIncrease(rows, a);
    ListedIncrease(rows, b);
    if k < m {
      var l := PlaceOf(rows, b, a, k);
      if l < k {
        SameAt(rows, a, b, l);
      }
    } else if m < k {
      SameAt(rows, a, b, m);
    }
    SameEarliest(rows, a[k], b[m]);
  }

  lemma ListedIncrease(rows: seq<Quote>, listed: seq<Quote>)
    requires ListsEarliest(rows, listed)
    ensures Increases(listed) && forall k :: 0 <= k < |listed| ==> Earliest(rows, listed[k])
  {
  }

  lemma PlaceOf(rows: seq<Quote>, a: seq<Quote>, b: seq<Quote>, k: nat) returns (m: nat)
    requires ListsEarliest(rows, a) && ListsEarliest(rows, b) && k < |a|
    ensures m < |b| && b[m].event == a[k].event
  {
    hide HasEvent, EarliestAt, Increases;
    assert Earliest(rows, a[k]);
    var i :| 0 <= i < |rows| && rows[i] == a[k] && EarliestAt(rows, i);
    m := EventAt(b, rows[i].event);
  }

  lemma EventAt(listed: seq<Quote>, event: int) returns (m: nat)
    requires HasEvent(listed, event)
    ensures m < |listed| && listed[m].event == event
  {
    m :| 0 <= m < |listed| && listed[m].event == event;
  }

  lemma SameEarliest(rows: seq<Quote>, p: Quote, q: Quote)
    requires Earliest(rows, p) && Earliest(rows, q) && p.event == q.event
    ensures p == q
  {
    var i :| 0 <= i < |rows| && rows[i] == p && EarliestAt(rows, i);
    var j :| 0 <= j < |rows| && rows[j] == q && EarliestAt(rows, j);
  }

  // ---- One segment

  datatype LineBody =
    | HeaderLine(inScope: bool)
    | QuoteLine(authoritative: bool, event: int, expiry: int, bid: real, ask: real)
    | EndLine(clean: bool)
    | FailureLine
    | UnknownLine

  datatype Line = Line(sequence: nat, previous: bytes, hash: bytes, at: int, body: LineBody)

  /** The line splitting, the reading of one canonical and correctly hashed line, and the hash. */
  datatype Host = Host(lines: bytes -> seq<bytes>, read: bytes -> Option<Line>, sha: bytes -> bytes, genesis: bytes)

  datatype Proof = Proof(path: bytes, length: nat, sha: bytes, head: bytes)

  datatype Replayed = Replayed(proof: Proof, rows: seq<Quote>)

  predicate PriceInRange(x: real) {
    0.0 < x < 100000000.0
  }

  predicate GoodQuote(l: Line)
    requires l.body.QuoteLine?
  {
    && l.body.authoritative && 0 < l.body.event <= l.at && l.at <= l.body.event + 5000 && l.at <= l.body.expiry
    && PriceInRange(l.body.bid) && PriceInRange(l.body.ask) && l.body.bid <= l.body.ask
  }

  function QuoteOf(l: Line): Quote
    requires l.body.QuoteLine?
  {
    Quote(l.at, l.body.event, l.body.expiry, l.hash, (l.body.bid + l.body.ask) / 2.0)
  }

  /** The line continues the chain and the clock, nothing follows an end, only the first is a header. */
  predicate GoodLine(host: Host, lines: seq<Line>, n: nat)
    requires n < |lines|
  {
    var l := lines[n];
    && l.sequence == n && l.previous == (if n == 0 then host.genesis else lines[n - 1].hash)
    && l.at >= (if n == 0 then 0 else lines[n - 1].at)
    && (n > 0 ==> !lines[n - 1].body.EndLine?)
    && GoodBody(l, n == 0)
  }

  predicate AllGood(host: Host, lines: seq<Line>) {
    forall n :: 0 <= n < |lines| ==> GoodLine(host, lines, n)
  }

  function Quotes(lines: seq<Line>): seq<Quote> {
    if lines == [] then []
    else
      var n := |lines| - 1;
      Quotes(lines[..n]) + if lines[n].body.QuoteLine? then [QuoteOf(lines[n])] else []
  }

  function ReadLines(host: Host, raws: seq<bytes>): Option<seq<Line>> {
    if raws == [] then Some([])
    else
      var n := |raws| - 1;
      var before, line := ReadLines(host, raws[..n]), host.read(raws[n]);
      if before.None? || line.None? then None else Some(before.value + [line.value])
  }

  /** A naturally ended segment: every line is good and the last one is the end. */
  function SegmentOf(host: Host, raw: bytes, name: bytes): Option<Replayed> {
    var lines := ReadLines(host, host.lines(raw));
    if raw == [] || raw[|raw| - 1] != LF || lines.None? then None
    else if lines.value == [] || !AllGood(host, lines.value) || !lines.value[|lines.value| - 1].body.EndLine? then None
    else
      var events := KeepAll(Quotes(lines.value));
      if events.None? then None
      else
        var head := lines.value[|lines.value| - 1].hash;
        Some(Replayed(Proof(name, |raw|, host.sha(raw), head), Listing(events.value)))
  }

  lemma {:induction false} KeepAllPrefix(a: seq<Quote>, b: seq<Quote>)
    requires a <= b && KeepAll(b).Some?
    ensures KeepAll(a).Some?
    decreases |b|
  {
    if a != b {
      assert a <= b[..|b| - 1];
      KeepAllPrefix(a, b[..|b| - 1]);
    }
  }

  lemma {:induction false} ReadPrefix(host: Host, raws: seq<bytes>, n: nat)
    requires n <= |raws| && ReadLines(host, raws).Some?
    ensures ReadLines(host, raws[..n]).Some? && |ReadLines(host, raws).value| == |raws|
    ensures ReadLines(host, raws).value[..n] == ReadLines(host, raws[..n]).value
    decreases |raws|
  {
    if n == |raws| {
      assert raws[..n] == raws;
      if raws != [] {
        ReadPrefix(host, raws[..n - 1], n - 1);
      }
    } else {
      ReadPrefix(host, raws[..|raws| - 1], n);
      assert raws[..|raws| - 1][..n] == raws[..n];
    }
  }

  lemma {:induction false} QuotesPrefix(lines: seq<Line>, n: nat)
    requires n <= |lines|
    ensures Quotes(lines[..n]) <= Quotes(lines)
    decreases |lines|
  {
    if n == |lines| {
      assert lines[..n] == lines;
    } else {
      QuotesPrefix(lines[..|lines| - 1], n);
      assert lines[..|lines| - 1][..n] == lines[..n];
    }
  }

  /** What the loop of original_segment knows after some lines. */
  ghost predicate Replaying(host: Host, lines: seq<Line>, previous: bytes, at: int, ended: bool, events: Events) {
    && AllGood(host, lines) && KeepAll(Quotes(lines)) == Some(events)
    && (lines == [] ==> previous == host.genesis && at == 0 && !ended)
    && (lines != [] ==>
          var last := lines[|lines| - 1];
          previous == last.hash && at == last.at && ended == last.body.EndLine?)
  }

  lemma GoodLineOfPrefix(host: Host, lines: seq<Line>, more: seq<Line>, n: nat)
    requires lines <= more && n < |lines|
    ensures GoodLine(host, more, n) <==> GoodLine(host, lines, n)
  {
    assert more[n] == lines[n] && (n > 0 ==> more[n - 1] == lines[n - 1]);
  }

  /** The body of a line is allowed at its place. */
  predicate GoodBody(l: Line, first: bool) {
    match l.body
    case HeaderLine(inScope) => first && inScope
    case QuoteLine(_, _, _, _, _) => !first && GoodQuote(l)
    case EndLine(clean) => !first && clean
    case FailureLine => !first
    case UnknownLine => false
  }

  /** One more line is good exactly when it fits what the loop remembers. */
  lemma NextIsGood(host: Host, lines: seq<Line>, l: Line, previous: bytes, at: int, ended: bool, events: Events)
    requires Replaying(host, lines, previous, at, ended, events)
    ensures AllGood(host, lines + [l]) <==>
      l.sequence == |lines| && l.previous == previous && l.at >= at && !ended && GoodBody(l, lines == [])
  {
    hide KeepAll, Quotes, GoodBody;
    var more := lines + [l];
    forall n | 0 <= n < |lines| ensures GoodLine(host, more, n) {
      GoodLineOfPrefix(host, lines, more, n);
    }
    assert more[|lines|] == l && (lines != [] ==> more[|lines| - 1] == lines[|lines| - 1]);
    assert AllGood(host, more) <==> GoodLine(host, more, |lines|);
  }

  lemma QuotesMore(lines: seq<Line>, l: Line)
    ensures Quotes(lines + [l]) == Quotes(lines) + if l.body.QuoteLine? then [QuoteOf(l)] else []
  {
    assert (lines + [l])[..|lines|] == lines;
  }

  lemma KeepAllMore(rows: seq<Quote>, q: Quote)
    ensures KeepAll(rows + [q]) == if KeepAll(rows).None? then None else Keep(KeepAll(rows).value, q)
  {
    assert (rows + [q])[..|rows|] == rows;
  }

  lemma NextIsKept(host: Host, lines: seq<Line>, l: Line, previous: bytes, at: int, ended: bool, events: Events)
    requires Replaying(host, lines, previous, at, ended, events)
    ensures KeepAll(Quotes(lines + [l])) == if l.body.QuoteLine? then Keep(events, QuoteOf(l)) else Some(events)
  {
    hide AllGood, KeepAll, Keep, Quotes;
    QuotesMore(lines, l);
    if l.body.QuoteLine? {
      KeepAllMore(Quotes(lines), QuoteOf(l));
    } else {
      assert Quotes(lines) + [] == Quotes(lines);
    }
  }

  /** What is wrong with the first lines is wrong with the segment. */
  lemma BrokenSegment(host: Host, raw: bytes, name: bytes, n: nat)
    requires n <= |host.lines(raw)|
    requires var read := ReadLines(host, host.lines(raw)[..n]);
      read.None? || !AllGood(host, read.value) || KeepAll(Quotes(read.value)).None?
    ensures SegmentOf(host, raw, name).None?
  {
    if SegmentOf(host, raw, name).Some? {
      var raws := host.lines(raw);
      var lines := ReadLines(host, raws).value;
      ReadPrefix(host, raws, n);
      assert lines[..n] <= lines;
      forall k | 0 <= k < n ensures GoodLine(host, lines[..n], k) {
        GoodLineOfPrefix(host, lines[..n], lines, k);
      }
      QuotesPrefix(lines, n);
      KeepAllPrefix(Quotes(lines[..n]), Quotes(lines));
    }
  }

  /** original_segment: every line is replayed, and the first locally known quote of every event is kept. */
  method OriginalSegment(host: Host, raw: bytes, name: bytes) returns (r: Option<Replayed>)
    ensures r == SegmentOf(host, raw, name)
  {
    hide GoodBody, Keep, KeepAll, Quotes, AllGood, ReadLines, Listing;
    if raw == [] || raw[|raw| - 1] != LF {
      return None;
    }
    var raws := host.lines(raw);
    var previous, at, ended, events, n := host.genesis, 0, false, map[], 0;
    ghost var lines: seq<Line> := [];
    NothingRead(host, raws);
    while n < |raws|
      invariant 0 <= n <= |raws| && |lines| == n && ReadLines(host, raws[..n]) == Some(lines)
      invariant Replaying(host, lines, previous, at, ended, events)
    {
      var line := host.read(raws[n]);
      ReadMore(host, raws, n, lines);
      if line.None? {
        BrokenSegment(host, raw, name, n + 1);
        return None;
      }
      var l := line.value;
      NextIsGood(host, lines, l, previous, at, ended, events);
      NextIsKept(host, lines, l, previous, at, ended, events);
      lines := lines + [l];
      var allowed := CheckBody(l, n == 0);
      if l.sequence != n || l.previous != previous || l.at < at || ended || !allowed {
        BrokenSegment(host, raw, name, n + 1);
        return None;
      }
      if l.body.QuoteLine? {
        var kept := Keep(events, QuoteOf(l));
        if kept.None? {
          BrokenSegment(host, raw, name, n + 1);
          return None;
        }
        events := kept.value;
      }
      previous, at, ended, n := l.hash, l.at, l.body.EndLine?, n + 1;
    }
    assert raws[..n] == raws;
    r := if ended then Some(Replayed(Proof(name, |raw|, host.sha(raw), previous), Listing(events))) else None;
  }

  /** The requires of one line, by its kind. */
  method CheckBody(l: Line, first: bool) returns (ok: bool)
    ensures ok <==> GoodBody(l, first)
  {
    if first {
      return l.body.HeaderLine? && l.body.inScope;
    }
    match l.body {
      case QuoteLine(authoritative, event, expiry, bid, ask) =>
        if !authoritative {
          return false;
        }
        if event <= 0 || event > l.at || l.at > event + 5000 || l.at > expiry {
          return false;
        }
        if bid <= 0.0 || bid >= 100000000.0 || ask <= 0.0 || ask >= 100000000.0 {
          return false;
        }
        return bid <= ask;
      case EndLine(clean) =>
        return clean;
      case FailureLine =>
        return true;
      case _ =>
        return false;
    }
  }

  lemma NothingRead(host: Host, raws: seq<bytes>)
    ensures ReadLines(host, raws[..0]) == Some([]) && Replaying(host, [], host.genesis, 0, false, map[])
  {
  }

  lemma ReadMore(host: Host, raws: seq<bytes>, n: nat, lines: seq<Line>)
    requires n < |raws| && ReadLines(host, raws[..n]) == Some(lines)
    ensures var line := host.read(raws[n]);
      ReadLines(host, raws[..n + 1]) == if line.None? then None else Some(lines + [line.value])
  {
    assert raws[..n + 1][..n] == raws[..n];
  }

  /** The rows of a segment: no event has two prices, and they are the earliest quotes of its events, once each,
      in event order; no other list of rows is. */
  lemma SegmentKeepsEarliest(host: Host, raw: bytes, name: bytes)
    requires SegmentOf(host, raw, name).Some?
    ensures
      var quotes, rows := Quotes(ReadLines(host, host.lines(raw)).value), SegmentOf(host, raw, name).value.rows;
      && Agreeing(quotes) && ListsEarliest(quotes, rows)
      && forall others: seq<Quote> :: ListsEarliest(quotes, others) ==> others == rows
  {
    hide ListsEarliest, KeepAll, Listing, AllGood;
    var quotes := Quotes(ReadLines(host, host.lines(raw)).value);
    KeepAllMeans(quotes);
    KeptAreListed(quotes);
    forall others: seq<Quote> | ListsEarliest(quotes, others) ensures others == Listing(KeepAll(quotes).value) {
      ListIsUnique(quotes, others, Listing(KeepAll(quotes).value));
    }
  }

  /** The quote of a line: what was known when, its event and expiry, and the middle between bid and ask. */
  ghost predicate TakenFrom(q: Quote, l: Line) {
    && l.body.QuoteLine? && l.body.authoritative
    && q.at == l.at && q.event == l.body.event && q.expiry == l.body.expiry && q.id == l.hash
    && q.price - l.body.bid == l.body.ask - q.price && 0.0 < l.body.bid <= q.price <= l.body.ask < 100000000.0
    && 0 < q.event <= q.at <= q.expiry && q.at - q.event <= 5000
  }

  ghost predicate TakenFromOne(q: Quote, lines: seq<Line>) {
    exists k :: 0 <= k < |lines| && TakenFrom(q, lines[k])
  }

  lemma {:induction false} QuotesAreTaken(host: Host, lines: seq<Line>, n: nat)
    requires AllGood(host, lines) && n <= |lines|
    ensures forall q :: q in Quotes(lines[..n]) ==> TakenFromOne(q, lines[..n])
    decreases n
  {
    hide AllGood;
    if n > 0 {
      QuotesAreTaken(host, lines, n - 1);
      assert lines[..n][..n - 1] == lines[..n - 1] && lines[..n][n - 1] == lines[n - 1];
      LineIsTaken(host, lines, n - 1);
      forall q | q in Quotes(lines[..n]) ensures TakenFromOne(q, lines[..n]) {
        if q in Quotes(lines[..n - 1]) {
          var k :| 0 <= k < n - 1 && TakenFrom(q, lines[..n - 1][k]);
          assert lines[..n][k] == lines[..n - 1][k];
        } else {
          assert TakenFrom(q, lines[..n][n - 1]);
        }
      }
    }
  }

  lemma LineIsTaken(host: Host, lines: seq<Line>, n: nat)
    requires AllGood(host, lines) && n < |lines|
    ensures lines[n].body.QuoteLine? ==> TakenFrom(QuoteOf(lines[n]), lines[n])
  {
    assert GoodLine(host, lines, n);
  }

  /** Every row of a segment is the quote of one of its lines, at the middle of its bid and ask. */
  lemma RowsAreTaken(host: Host, raw: bytes, name: bytes)
    requires SegmentOf(host, raw, name).Some?
    ensures
      var lines, rows := ReadLines(host, host.lines(raw)).value, SegmentOf(host, raw, name).value.rows;
      forall i :: 0 <= i < |rows| ==> TakenFromOne(rows[i], lines)
  {
    hide AllGood, ReadLines, Quotes, Listing, KeepAll, TakenFromOne, ListsEarliest;
    var lines := ReadLines(host, host.lines(raw)).value;
    KeptAreListed(Quotes(lines));
    ListedAreTaken(host, lines, SegmentOf(host, raw, name).value.rows);
  }

  lemma ListedAreTaken(host: Host, lines: seq<Line>, rows: seq<Quote>)
    requires AllGood(host, lines) && ListsEarliest(Quotes(lines), rows)
    ensures forall i :: 0 <= i < |rows| ==> TakenFromOne(rows[i], lines)
  {
    hide AllGood, Quotes, TakenFromOne, Increases, HasEvent, EarliestAt;
    assert lines[..|lines|] == lines;
    QuotesAreTaken(host, lines, |lines|);
    forall i | 0 <= i < |rows| ensures TakenFromOne(rows[i], lines) {
      assert Earliest(Quotes(lines), rows[i]);
      var m :| 0 <= m < |Quotes(lines)| && Quotes(lines)[m] == rows[i] && EarliestAt(Quotes(lines), m);
      assert rows[i] in Quotes(lines);
    }
  }

  // ---- The archive of pages and ledger receipts

  datatype Page = Page(sha: bytes, canonical: bool, index: nat, previous: bytes, period: bytes,
                       prefixes: seq<Option<Proof>>)

  datatype Receipt = Receipt(canonical: bool, index: nat, page: bytes, previous: bytes, hash: bytes, selfHashed: bool)

  datatype Archive = Archive(head: bytes, pins: seq<Option<Proof>>)

  datatype Folder = Folder(start: nat, name: bytes, raw: bytes)

  /** The copied files, with the folders in numeric order. */
  datatype Source = Source(folders: seq<Folder>, pages: seq<Page>, receipts: seq<Receipt>, period: bytes)

  /** Page n is whole and follows the page before it, the first one the genesis. */
  predicate PageLinked(genesis: bytes, source: Source, n: nat)
    requires n < |source.pages|
  {
    var page := source.pages[n];
    && page.canonical && page.index == n && page.period == source.period && |page.prefixes| == PAGE_SIZE
    && page.previous == if n == 0 then genesis else source.pages[n - 1].sha
  }

  /** Receipt n names page n and follows the receipt before it, the first one the genesis. */
  predicate ReceiptLinked(genesis: bytes, source: Source, n: nat)
    requires n < |source.receipts| && n < |source.pages|
  {
    var receipt := source.receipts[n];
    && receipt.canonical && receipt.index == n && receipt.page == source.pages[n].sha && receipt.selfHashed
    && receipt.previous == if n == 0 then genesis else source.receipts[n - 1].hash
  }

  /** Two unbroken chains of the same length. */
  predicate Linked(genesis: bytes, source: Source) {
    && |source.receipts| == |source.pages| <= MAX_PAGES
    && forall n :: 0 <= n < |source.pages| ==> PageLinked(genesis, source, n) && ReceiptLinked(genesis, source, n)
  }

  function Prefixes(pages: seq<Page>): seq<Option<Proof>> {
    if pages == [] then [] else Prefixes(pages[..|pages| - 1]) + pages[|pages| - 1].prefixes
  }

  /** The archive exists exactly when both chains are unbroken. */
  function WholeArchive(genesis: bytes, source: Source): Option<Archive> {
    if !Linked(genesis, source) then None
    else
      var n := |source.pages|;
      Some(Archive(if n == 0 then genesis else source.receipts[n - 1].hash, Prefixes(source.pages)))
  }

  /** The pins are those of the pages, PAGE_SIZE to a page, in page order. */
  lemma {:induction false} PinsByPage(pages: seq<Page>, n: nat, k: nat)
    requires forall i :: 0 <= i < |pages| ==> |pages[i].prefixes| == PAGE_SIZE
    requires n < |pages| && k < PAGE_SIZE
    ensures |Prefixes(pages)| == PAGE_SIZE * |pages|
    ensures Prefixes(pages)[PAGE_SIZE * n + k] == pages[n].prefixes[k]
    decreases |pages|
  {
    var m := |pages| - 1;
    if m > 0 {
      PinsByPage(pages[..m], if n < m then n else 0, k);
    }
    assert |Prefixes(pages[..m])| == PAGE_SIZE * m;
  }

  /** The loop over pages and ledger, each against what it remembers of the one before. */
  method CheckArchive(genesis: bytes, source: Source) returns (r: Option<Archive>)
    ensures r.Some? <==> Linked(genesis, source)
    ensures r == WholeArchive(genesis, source)
  {
    hide PageLinked, ReceiptLinked;
    if |source.pages| > MAX_PAGES || |source.receipts| != |source.pages| {
      return None;
    }
    var pageHead, head, pins, n := genesis, genesis, [], 0;
    assert source.pages[..0] == [];
    while n < |source.pages|
      invariant 0 <= n <= |source.pages|
      invariant forall i :: 0 <= i < n ==> PageLinked(genesis, source, i) && ReceiptLinked(genesis, source, i)
      invariant pageHead == (if n == 0 then genesis else source.pages[n - 1].sha)
      invariant head == (if n == 0 then genesis else source.receipts[n - 1].hash)
      invariant pins == Prefixes(source.pages[..n])
    {
      var page, receipt := source.pages[n], source.receipts[n];
      FitsHere(genesis, source, n, pageHead, head);
      if !PageFits(page, n, source.period, pageHead) || !ReceiptFits(receipt, n, page.sha, head) {
        return None;
      }
      assert source.pages[..n + 1][..n] == source.pages[..n];
      pageHead, head, pins, n := page.sha, receipt.hash, pins + page.prefixes, n + 1;
    }
    assert source.pages[..n] == source.pages;
    r := Some(Archive(head, pins));
  }

  /** The require of a page, and of a ledger line, against the head before it. */
  predicate PageFits(page: Page, n: nat, period: bytes, head: bytes) {
    page.canonical && page.index == n && page.period == period && page.previous == head && |page.prefixes| == PAGE_SIZE
  }

  predicate ReceiptFits(receipt: Receipt, n: nat, page: bytes, head: bytes) {
    receipt.canonical && receipt.index == n && receipt.page == page && receipt.previous == head && receipt.selfHashed
  }

  lemma FitsHere(genesis: bytes, source: Source, n: nat, pageHead: bytes, head: bytes)
    requires n < |source.pages| && n < |source.receipts|
    requires pageHead == (if n == 0 then genesis else source.pages[n - 1].sha)
    requires head == (if n == 0 then genesis else source.receipts[n - 1].hash)
    ensures PageFits(source.pages[n], n, source.period, pageHead) <==> PageLinked(genesis, source, n)
    ensures ReceiptFits(source.receipts[n], n, source.pages[n].sha, head) <==> ReceiptLinked(genesis, source, n)
  {
  }
}
