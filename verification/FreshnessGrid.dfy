/** Replay of a quote stream: versions of the quote state are recorded per relevant event, and a grid of
    one-second cells is counted by bisection in them. */
module FreshnessGrid {

  import opened Bytes
  import opened Sorting

  datatype Feed = Top | Tbt

  /** What an event carries; a price is None when it is no number. */
  datatype Event =
    | Subscribed(ids: seq<int>, renewal: bool)
    | MarketType(isLive: bool)
    | ConnectionClosed
    | Control(code: int, fatal: bool, cashFarm: bool)
    | TopBid(request: int, price: Option<real>)
    | TopAsk(request: int, price: Option<real>)
    | TbtBidAsk(request: int, second: int, bid: real, ask: real)
    | Unrelated

  datatype Entry = Entry(known: int, sequence: nat, event: Event)

  /** The tick-by-tick quote object, as far as it matters here. */
  datatype Ticks<!Q> = Ticks(initial: Q, receive: (Q, int, real, real, int) -> Q, forget: Q -> Q,
                             expiry: (Q, int) -> Option<int>)

  datatype State<Q> = State(bid: Option<real>, ask: Option<real>, bidAt: int, askAt: int, topId: Option<int>,
                            tbtId: Option<int>,
                            live: bool, connected: bool, mustResubscribe: bool, quote: Q)

  function Initial<Q>(ticks: Ticks<Q>): State<Q> {
    State(None, None, 0, 0, None, None, false, true, false, ticks.initial)
  }

  // ---- One event

  function Valid(price: Option<real>): Option<real> {
    if price.Some? && price.value > 0.0 then price else None
  }

  function Forget<Q>(ticks: Ticks<Q>, s: State<Q>): State<Q> {
    s.(bid := None, ask := None, quote := ticks.forget(s.quote))
  }

  predicate Accepted(event: Event) {
    event.Subscribed? ==> |event.ids| == 2 && event.ids[0] > 0 && event.ids[1] > 0
  }

  predicate Disconnects(event: Event)
    requires event.Control?
  {
    event.code == 1100 || event.code == 504 || event.code == 509 || event.code == 1300 || event.fatal
  }

  /** Whether the event can change what is known of this feed. */
  predicate Relevant<Q>(feed: Feed, s: State<Q>, event: Event) {
    match event
    case Subscribed(_, _) => true
    case MarketType(_) => true
    case ConnectionClosed => true
    case Control(code, _, cashFarm) => Disconnects(event) || code == 1101 || code == 1102 || (code == 2103 && cashFarm)
    case TopBid(request, _) => feed == Top && s.topId == Some(request)
    case TopAsk(request, _) => feed == Top && s.topId == Some(request)
    case TbtBidAsk(request, _, _, _) => feed == Tbt && s.tbtId == Some(request)
    case Unrelated => false
  }

  function Apply<Q>(ticks: Ticks<Q>, feed: Feed, s: State<Q>, known: int, event: Event): State<Q>
    requires Accepted(event)
  {
    if !Relevant(feed, s, event) then s
    else
      match event
      case Subscribed(ids, _) => Forget(ticks, s).(topId := Some(ids[0]), tbtId := Some(ids[1]),
                                                   mustResubscribe := false)
      case MarketType(isLive) => s.(live := isLive)
      case ConnectionClosed => s.(connected := false)
      case Control(code, _, _) =>
        if Disconnects(event) then Forget(ticks, s).(connected := false)
        else if code == 1101 then Forget(ticks, s).(connected := true, mustResubscribe := true)
        else if code == 1102 then s.(connected := true)
        else Forget(ticks, s).(mustResubscribe := true)
      case TopBid(_, price) => s.(bid := Valid(price), bidAt := known)
      case TopAsk(_, price) => s.(ask := Valid(price), askAt := known)
      case TbtBidAsk(_, second, bid, ask) => s.(quote := ticks.receive(s.quote, second, bid, ask, known))
      case Unrelated => s
  }

  /** Until when the state counts as fresh, as it is computed when an event is known; -1 for not at all. */
  function Expiry<Q>(ticks: Ticks<Q>, feed: Feed, s: State<Q>, known: int): int {
    if !s.live || !s.connected || s.mustResubscribe then -1
    else if feed == Tbt then (var e := ticks.expiry(s.quote, known); if e.Some? then e.value else -1)
    else if s.bid.Some? && s.ask.Some? && s.bid.value <= s.ask.value then Min(s.bidAt, s.askAt) + 5000
    else -1
  }

  function Min(a: int, b: int): int {
    if a <= b then a else b
  }

  // ---- The reference: direct simulation

  predicate AllAccepted(entries: seq<Entry>) {
    forall i :: 0 <= i < |entries| ==> Accepted(entries[i].event)
  }

  predicate Ordered(entries: seq<Entry>) {
    forall i, j :: 0 <= i < j < |entries| ==> entries[i].known <= entries[j].known
  }

  function After<Q>(ticks: Ticks<Q>, feed: Feed, entries: seq<Entry>): State<Q>
    requires AllAccepted(entries)
  {
    if entries == [] then Initial(ticks)
    else
      var n := |entries| - 1;
      Apply(ticks, feed, After(ticks, feed, entries[..n]), entries[n].known, entries[n].event)
  }

  /** The entries known at a time, of entries in order. */
  function UpTo(entries: seq<Entry>, at: int): (known: seq<Entry>)
    ensures known <= entries && (known != [] ==> known[|known| - 1].known <= at)
    ensures forall i :: |known| <= i < |entries| ==> entries[i].known > at
  {
    if entries == [] then []
    else if entries[|entries| - 1].known <= at then entries
    else UpTo(entries[..|entries| - 1], at)
  }

  /** Live, connected, subscribed, both sides there and uncrossed. */
  predicate Usable<Q>(s: State<Q>) {
    && s.live && s.connected && !s.mustResubscribe
    && s.bid.Some? && s.ask.Some? && s.bid.value <= s.ask.value
  }

  /** Usable, and neither side older than five seconds. */
  predicate TopFresh<Q>(s: State<Q>, at: int) {
    Usable(s) && at - s.bidAt <= 5000 && at - s.askAt <= 5000
  }

  // ---- The same, told by the events alone

  /** The connection is lost, and back. */
  predicate Breaks(event: Event) {
    event.ConnectionClosed? || (event.Control? && (event.fatal || event.code in {1100, 504, 509, 1300}))
  }

  predicate Restores(event: Event) {
    event.Control? && !Breaks(event) && event.code in {1101, 1102}
  }

  /** A new subscription is needed. */
  predicate Revokes(event: Event) {
    event.Control? && !Breaks(event) && (event.code == 1101 || (event.code == 2103 && event.cashFarm))
  }

  /** What was quoted before does not count any more. */
  predicate Clears(event: Event) {
    event.Subscribed? || (event.Control? && (Breaks(event) || Revokes(event)))
  }

  /** A quote of this side, under this request. */
  predicate Quotes(event: Event, bid: bool, request: int) {
    if bid then event.TopBid? && event.request == request else event.TopAsk? && event.request == request
  }

  ghost predicate IsLive(entries: seq<Entry>) {
    exists k :: 0 <= k < |entries| && entries[k].event == MarketType(true)
                && forall j :: k < j < |entries| ==> !entries[j].event.MarketType?
  }

  /** Every loss of the connection is followed by its return. */
  ghost predicate IsConnected(entries: seq<Entry>) {
    forall k :: 0 <= k < |entries| && Breaks(entries[k].event) ==>
      exists j :: k < j < |entries| && Restores(entries[j].event)
  }

  /** Every need of a new subscription is followed by one. */
  ghost predicate IsSubscribed(entries: seq<Entry>) {
    forall k :: 0 <= k < |entries| && Revokes(entries[k].event) ==>
      exists j :: k < j < |entries| && entries[j].event.Subscribed?
  }

  /** The request id of the last subscription. */
  ghost predicate Requested(entries: seq<Entry>, request: int) {
    exists k :: 0 <= k < |entries| && entries[k].event.Subscribed? && |entries[k].event.ids| == 2
                && entries[k].event.ids[0] == request
                && forall j :: k < j < |entries| ==> !entries[j].event.Subscribed?
  }

  /** Entry k is the last quote of this side for the current subscription, it has this price, and nothing has
      cleared it since. */
  ghost predicate StandsAt(entries: seq<Entry>, bid: bool, k: int, price: real) {
    && 0 <= k < |entries| && (entries[k].event.TopBid? || entries[k].event.TopAsk?)
    && Quotes(entries[k].event, bid, entries[k].event.request)
    && Requested(entries[..k], entries[k].event.request)
    && entries[k].event.price == Some(price) && price > 0.0
    && forall j :: k < j < |entries| ==>
         !Clears(entries[j].event) && !Quotes(entries[j].event, bid, entries[k].event.request)
  }

  /** This side stands at this price, known since this time. */
  ghost predicate Stands(entries: seq<Entry>, bid: bool, price: real, since: int) {
    exists k :: 0 <= k < |entries| && StandsAt(entries, bid, k, price) && entries[k].known == since
  }

  ghost predicate InService(entries: seq<Entry>) {
    IsLive(entries) && IsConnected(entries) && IsSubscribed(entries)
  }

  /** Both sides stand, not crossed, and both at this time or later. */
  ghost predicate QuotedSince(entries: seq<Entry>, time: int) {
    exists p, t, q, u ::
      Stands(entries, true, p, t) && Stands(entries, false, q, u) && p <= q && time <= t && time <= u
  }

  /** Both sides stand, not crossed. */
  ghost predicate Quoted(entries: seq<Entry>) {
    exists p, t, q, u :: Stands(entries, true, p, t) && Stands(entries, false, q, u) && p <= q
  }

  /** The market is fresh: in service, and both sides quoted in the last five seconds. */
  ghost predicate FreshAt(entries: seq<Entry>, at: int) {
    InService(entries) && QuotedSince(entries, at - 5000)
  }

  // ---- The two agree

  ghost predicate SideMeans(entries: seq<Entry>, bid: bool, price: Option<real>, at: int) {
    forall p, t :: Stands(entries, bid, p, t) <==> price == Some(p) && at == t
  }

  ghost predicate StateMeans<Q>(entries: seq<Entry>, s: State<Q>) {
    && (s.live <==> IsLive(entries)) && (s.connected <==> IsConnected(entries))
    && (s.mustResubscribe <==> !IsSubscribed(entries))
    && (forall request :: s.topId == Some(request) <==> Requested(entries, request))
    && SideMeans(entries, true, s.bid, s.bidAt) && SideMeans(entries, false, s.ask, s.askAt)
  }

  lemma LiveNext(entries: seq<Entry>, next: Entry)
    ensures IsLive(entries + [next]) <==> if next.event.MarketType? then next.event.isLive else IsLive(entries)
  {
    var more := entries + [next];
    assert more[|entries|] == next;
    if next.event.MarketType? {
      if next.event.isLive {
        assert more[|entries|].event == MarketType(true);
      }
    } else {
      if k :| 0 <= k < |entries| && entries[k].event == MarketType(true)
              && forall j :: k < j < |entries| ==> !entries[j].event.MarketType? {
        assert more[k].event == MarketType(true);
      }
      if k :| 0 <= k < |more| && more[k].event == MarketType(true)
              && forall j :: k < j < |more| ==> !more[j].event.MarketType? {
        assert entries[k] == more[k];
        assert forall j :: k < j < |entries| ==> entries[j] == more[j];
      }
    }
  }

  lemma ConnectedNext(entries: seq<Entry>, next: Entry)
    ensures IsConnected(entries + [next]) <==>
      !Breaks(next.event) && (Restores(next.event) || IsConnected(entries))
  {
    var more := entries + [next];
    assert more[|entries|] == next && forall j :: 0 <= j < |entries| ==> more[j] == entries[j];
    if Restores(next.event) {
      forall k | 0 <= k < |more| && Breaks(more[k].event)
        ensures exists j :: k < j < |more| && Restores(more[j].event) {
        assert Restores(more[|entries|].event);
      }
    } else if !Breaks(next.event) {
      if IsConnected(entries) {
        forall k | 0 <= k < |more| && Breaks(more[k].event)
          ensures exists j :: k < j < |more| && Restores(more[j].event) {
          var j :| k < j < |entries| && Restores(entries[j].event);
          assert Restores(more[j].event);
        }
      } else {
        var k :| 0 <= k < |entries| && Breaks(entries[k].event)
                 && !exists j :: k < j < |entries| && Restores(entries[j].event);
        assert Breaks(more[k].event);
        assert forall j :: k < j < |more| ==> !Restores(more[j].event);
      }
    } else {
      assert Breaks(more[|entries|].event);
    }
  }

  lemma SubscribedNext(entries: seq<Entry>, next: Entry)
    ensures IsSubscribed(entries + [next]) <==>
      !Revokes(next.event) && (next.event.Subscribed? || IsSubscribed(entries))
  {
    var more := entries + [next];
    assert more[|entries|] == next && forall j :: 0 <= j < |entries| ==> more[j] == entries[j];
    if next.event.Subscribed? {
      forall k | 0 <= k < |more| && Revokes(more[k].event)
        ensures exists j :: k < j < |more| && more[j].event.Subscribed? {
        assert more[|entries|].event.Subscribed?;
      }
    } else if !Revokes(next.event) {
      if IsSubscribed(entries) {
        forall k | 0 <= k < |more| && Revokes(more[k].event)
          ensures exists j :: k < j < |more| && more[j].event.Subscribed? {
          var j :| k < j < |entries| && entries[j].event.Subscribed?;
          assert more[j].event.Subscribed?;
        }
      } else {
        var k :| 0 <= k < |entries| && Revokes(entries[k].event)
                 && !exists j :: k < j < |entries| && entries[j].event.Subscribed?;
        assert Revokes(more[k].event);
        assert forall j :: k < j < |more| ==> !more[j].event.Subscribed?;
      }
    } else {
      assert Revokes(more[|entries|].event);
    }
  }

  lemma RequestedNext(entries: seq<Entry>, next: Entry, request: int)
    requires Accepted(next.event)
    ensures Requested(entries + [next], request) <==>
      if next.event.Subscribed? then next.event.ids[0] == request else Requested(entries, request)
  {
    var more := entries + [next];
    assert more[|entries|] == next && forall j :: 0 <= j < |entries| ==> more[j] == entries[j];
    if next.event.Subscribed? {
      if next.event.ids[0] == request {
        assert more[|entries|].event.ids[0] == request;
      }
    } else if k :| 0 <= k < |entries| && entries[k].event.Subscribed? && |entries[k].event.ids| == 2
                   && entries[k].event.ids[0] == request
                   && forall j :: k < j < |entries| ==> !entries[j].event.Subscribed? {
      assert more[k].event.Subscribed?;
    }
  }

  lemma OneRequest(entries: seq<Entry>, a: int, b: int)
    requires Requested(entries, a) && Requested(entries, b)
    ensures a == b
  {
  }

  lemma StandsAtNext(entries: seq<Entry>, next: Entry, bid: bool, k: int, price: real)
    ensures k < |entries| ==>
      (StandsAt(entries + [next], bid, k, price) <==>
         && StandsAt(entries, bid, k, price) && !Clears(next.event)
         && !Quotes(next.event, bid, entries[k].event.request))
    ensures StandsAt(entries + [next], bid, |entries|, price) <==>
      && (next.event.TopBid? || next.event.TopAsk?) && Quotes(next.event, bid, next.event.request)
      && Requested(entries, next.event.request) && next.event.price == Some(price) && price > 0.0
  {
    hide Requested;
    var more := entries + [next];
    assert more[|entries|] == next && forall j :: 0 <= j < |entries| ==> more[j] == entries[j];
    assert 0 <= k <= |entries| ==> more[..k] == entries[..k];
    assert more[..|entries|] == entries;
  }

  /** What stands belongs to the current subscription. */
  lemma StandsForCurrent(entries: seq<Entry>, bid: bool, k: int, price: real)
    requires StandsAt(entries, bid, k, price)
    ensures Requested(entries, entries[k].event.request)
  {
    var request, before := entries[k].event.request, entries[..k];
    var m :| 0 <= m < |before| && before[m].event.Subscribed? && |before[m].event.ids| == 2
             && before[m].event.ids[0] == request && forall j :: m < j < |before| ==> !before[j].event.Subscribed?;
    assert entries[m] == before[m];
    forall j | m < j < |entries| ensures !entries[j].event.Subscribed? {
      if j < k {
        assert entries[j] == before[j];
      } else if j > k {
        assert !Clears(entries[j].event);
      }
    }
  }

  /** A quote of this side under the id of the current subscription. */
  ghost predicate Counts(entries: seq<Entry>, event: Event, bid: bool) {
    (event.TopBid? || event.TopAsk?) && Quotes(event, bid, event.request) && Requested(entries, event.request)
  }

  /** What stands of one side after one entry more. */
  lemma StandsNext(entries: seq<Entry>, next: Entry, bid: bool, price: real, since: int)
    ensures Stands(entries + [next], bid, price, since) <==>
      if Clears(next.event) then false
      else if Counts(entries, next.event, bid) then
        next.event.price == Some(price) && price > 0.0 && next.known == since
      else Stands(entries, bid, price, since)
  {
    hide StandsAt, Requested;
    var more, n := entries + [next], |entries|;
    assert more[n] == next;
    StandsAtNext(entries, next, bid, n, price);
    if k :| 0 <= k < |more| && StandsAt(more, bid, k, price) && more[k].known == since {
      StandsInside(more, bid, k, price);
      StandsAtNext(entries, next, bid, k, price);
      if k < n {
        StandsForCurrent(entries, bid, k, price);
        assert entries[k] == more[k];
      }
    }
    if k :| 0 <= k < n && StandsAt(entries, bid, k, price) && entries[k].known == since {
      StandsInside(entries, bid, k, price);
      StandsForCurrent(entries, bid, k, price);
      StandsAtNext(entries, next, bid, k, price);
      assert entries[k] == more[k];
      SameRequest(entries, next.event, bid, entries[k].event.request);
    }
  }

  lemma StandsInside(entries: seq<Entry>, bid: bool, k: int, price: real)
    requires StandsAt(entries, bid, k, price)
    ensures 0 <= k < |entries| && (entries[k].event.TopBid? || entries[k].event.TopAsk?)
  {
  }

  lemma SameRequest(entries: seq<Entry>, event: Event, bid: bool, request: int)
    requires Requested(entries, request)
    ensures Counts(entries, event, bid) <==> Quotes(event, bid, request)
  {
    if Counts(entries, event, bid) {
      OneRequest(entries, event.request, request);
    }
  }

  /** How one event moves one side. */
  lemma SideMoves<Q>(ticks: Ticks<Q>, entries: seq<Entry>, s: State<Q>, next: Entry, bid: bool)
    requires Accepted(next.event) && forall request :: s.topId == Some(request) <==> Requested(entries, request)
    ensures
      var t := Apply(ticks, Top, s, next.known, next.event);
      var before, at := if bid then s.bid else s.ask, if bid then s.bidAt else s.askAt;
      var after, since := if bid then t.bid else t.ask, if bid then t.bidAt else t.askAt;
      if Clears(next.event) then after == None
      else if Counts(entries, next.event, bid) then
        since == next.known
        && after == if next.event.price.Some? && next.event.price.value > 0.0 then next.event.price else None
      else after == before && since == at
  {
    hide Requested;
  }

  lemma SideNext<Q>(ticks: Ticks<Q>, entries: seq<Entry>, s: State<Q>, next: Entry, bid: bool)
    requires Accepted(next.event) && forall request :: s.topId == Some(request) <==> Requested(entries, request)
    requires SideMeans(entries, bid, if bid then s.bid else s.ask, if bid then s.bidAt else s.askAt)
    ensures
      var t := Apply(ticks, Top, s, next.known, next.event);
      SideMeans(entries + [next], bid, if bid then t.bid else t.ask, if bid then t.bidAt else t.askAt)
  {
    hide Stands, Requested, Counts, Clears, Apply;
    SideMoves(ticks, entries, s, next, bid);
    var t := Apply(ticks, Top, s, next.known, next.event);
    var after, since := if bid then t.bid else t.ask, if bid then t.bidAt else t.askAt;
    forall p, u ensures Stands(entries + [next], bid, p, u) <==> after == Some(p) && since == u {
      StandsNext(entries, next, bid, p, u);
    }
  }

  lemma StateNext<Q>(ticks: Ticks<Q>, entries: seq<Entry>, s: State<Q>, next: Entry)
    requires Accepted(next.event) && StateMeans(entries, s)
    ensures StateMeans(entries + [next], Apply(ticks, Top, s, next.known, next.event))
  {
    hide SideMeans, IsLive, IsConnected, IsSubscribed, Requested;
    LiveNext(entries, next);
    ConnectedNext(entries, next);
    SubscribedNext(entries, next);
    SideNext(ticks, entries, s, next, true);
    SideNext(ticks, entries, s, next, false);
    FlagsNext(ticks, s, next.known, next.event);
    var t := Apply(ticks, Top, s, next.known, next.event);
    forall request ensures t.topId == Some(request) <==> Requested(entries + [next], request) {
      RequestedNext(entries, next, request);
    }
  }

  lemma FlagsNext<Q>(ticks: Ticks<Q>, s: State<Q>, known: int, event: Event)
    requires Accepted(event)
    ensures
      var t := Apply(ticks, Top, s, known, event);
      && t.live == (if event.MarketType? then event.isLive else s.live)
      && t.connected == (!Breaks(event) && (Restores(event) || s.connected))
      && t.mustResubscribe == !(!Revokes(event) && (event.Subscribed? || !s.mustResubscribe))
      && t.topId == if event.Subscribed? then Some(event.ids[0]) else s.topId
  {
  }

  /** The simulated state of the TOP feed is what the events say it is. */
  lemma {:induction false} AfterMeans<Q>(ticks: Ticks<Q>, entries: seq<Entry>)
    requires AllAccepted(entries)
    ensures StateMeans(entries, After(ticks, Top, entries))
  {
    hide StateMeans, Apply, Initial;
    if entries == [] {
      NothingMeans(ticks);
    } else {
      var n := |entries| - 1;
      AfterMeans(ticks, entries[..n]);
      StateNext(ticks, entries[..n], After(ticks, Top, entries[..n]), entries[n]);
      assert entries[..n] + [entries[n]] == entries;
    }
  }

  lemma NothingMeans<Q>(ticks: Ticks<Q>)
    ensures StateMeans([], Initial(ticks))
  {
  }

  lemma FreshMeans<Q>(ticks: Ticks<Q>, entries: seq<Entry>, at: int)
    requires AllAccepted(entries)
    ensures TopFresh(After(ticks, Top, entries), at) <==> FreshAt(entries, at)
    ensures Usable(After(ticks, Top, entries)) <==> InService(entries) && Quoted(entries)
  {
    hide Stands, IsLive, IsConnected, IsSubscribed, Requested, After;
    AfterMeans(ticks, entries);
    var s := After(ticks, Top, entries);
    if s.bid.Some? && s.ask.Some? {
      assert Stands(entries, true, s.bid.value, s.bidAt) && Stands(entries, false, s.ask.value, s.askAt);
    }
  }

  // ---- Versions

  datatype Version = Version(known: int, expiry: int)

  function Versions<Q>(ticks: Ticks<Q>, feed: Feed, entries: seq<Entry>): seq<Version>
    requires AllAccepted(entries)
  {
    if entries == [] then []
    else
      var n := |entries| - 1;
      var before, entry := entries[..n], entries[n];
      var s := After(ticks, feed, before);
      if !Relevant(feed, s, entry.event) then Versions(ticks, feed, before)
      else Versions(ticks, feed, before) + [Version(entry.known,
                                                    Expiry(ticks, feed, After(ticks, feed, entries), entry.known))]
  }

  predicate VersionsOrdered(versions: seq<Version>) {
    forall i, j :: 0 <= i < j < |versions| ==> versions[i].known <= versions[j].known
  }

  lemma {:induction false} VersionsAreOrdered<Q>(ticks: Ticks<Q>, feed: Feed, entries: seq<Entry>)
    requires AllAccepted(entries) && Ordered(entries)
    ensures VersionsOrdered(Versions(ticks, feed, entries))
    ensures forall i :: 0 <= i < |Versions(ticks, feed, entries)| ==>
      entries != [] && Versions(ticks, feed, entries)[i].known <= entries[|entries| - 1].known
  {
    if entries != [] {
      var n := |entries| - 1;
      VersionsAreOrdered(ticks, feed, entries[..n]);
      assert n > 0 ==> entries[..n][n - 1].known <= entries[n].known;
    }
  }

  /** Nothing happened, or the last version tells the expiry of the present state of the TOP feed. */
  lemma {:induction false} LastVersionIsPresent<Q>(ticks: Ticks<Q>, entries: seq<Entry>)
    requires AllAccepted(entries)
    ensures
      var versions, s := Versions(ticks, Top, entries), After(ticks, Top, entries);
      if versions == [] then s == Initial(ticks) else versions[|versions| - 1].expiry == Expiry(ticks, Top, s, 0)
  {
    if entries != [] {
      LastVersionIsPresent(ticks, entries[..|entries| - 1]);
    }
  }

  /** How many versions are known at a time. */
  ghost predicate Splits(versions: seq<Version>, at: int, n: nat) {
    && n <= |versions|
    && (forall i :: 0 <= i < n ==> versions[i].known <= at)
    && (forall i :: n <= i < |versions| ==> versions[i].known > at)
  }

  lemma SplitsUnique(versions: seq<Version>, at: int, m: nat, n: nat)
    requires Splits(versions, at, m) && Splits(versions, at, n)
    ensures m == n
  {
    var i := if m < n then m else n;
    if i < |versions| {
      SplitsAlike(versions, at, m, n, i);
    }
  }

  lemma SplitsAlike(versions: seq<Version>, at: int, m: nat, n: nat, i: nat)
    requires Splits(versions, at, m) && Splits(versions, at, n) && i < |versions|
    ensures i < m <==> i < n
  {
    assert versions[i].known <= at <==> i < m;
  }

  lemma VersionsOfFront<Q>(ticks: Ticks<Q>, feed: Feed, entries: seq<Entry>)
    requires AllAccepted(entries) && entries != []
    ensures
      var n := |entries| - 1;
      var before, versions := Versions(ticks, feed, entries[..n]), Versions(ticks, feed, entries);
      before <= versions && forall i :: |before| <= i < |versions| ==> versions[i].known == entries[n].known
  {
    hide Apply, Expiry, Relevant;
  }

  /** The versions known at a time are the versions of the entries known at that time. */
  lemma {:induction false} VersionsUpTo<Q>(ticks: Ticks<Q>, feed: Feed, entries: seq<Entry>, at: int, n: nat)
    requires AllAccepted(entries) && Ordered(entries) && Splits(Versions(ticks, feed, entries), at, n)
    ensures AllAccepted(UpTo(entries, at))
    ensures Versions(ticks, feed, UpTo(entries, at)) == Versions(ticks, feed, entries)[..n]
  {
    hide Versions;
    var versions := Versions(ticks, feed, entries);
    if entries == [] || entries[|entries| - 1].known <= at {
      VersionsAreOrdered(ticks, feed, entries);
      assert forall i :: 0 <= i < |versions| ==> versions[i].known <= at;
      SplitsUnique(versions, at, n, |versions|);
      assert versions[..n] == versions;
    } else {
      var m := |entries| - 1;
      var before := Versions(ticks, feed, entries[..m]);
      VersionsOfFront(ticks, feed, entries);
      SplitsFront(versions, before, at, n);
      VersionsUpTo(ticks, feed, entries[..m], at, n);
    }
  }

  lemma SplitsFront(versions: seq<Version>, before: seq<Version>, at: int, n: nat)
    requires Splits(versions, at, n) && before <= versions
    requires forall i :: |before| <= i < |versions| ==> versions[i].known > at
    ensures Splits(before, at, n) && versions[..n] == before[..n]
  {
    assert 0 < n ==> versions[n - 1].known <= at;
  }

  /** bisect_right on the times of the versions. */
  method BisectRight(versions: seq<Version>, at: int) returns (n: nat)
    requires VersionsOrdered(versions)
    ensures Splits(versions, at, n)
  {
    var low, high := 0, |versions|;
    while low < high
      invariant 0 <= low <= high <= |versions|
      invariant forall i :: 0 <= i < low ==> versions[i].known <= at
      invariant forall i :: high <= i < |versions| ==> versions[i].known > at
    {
      var mid := (low + high) / 2;
      if at < versions[mid].known {
        high := mid;
      } else {
        low := mid + 1;
      }
    }
    n := low;
  }

  /** What the counting loop calls good: the last version known by then has not expired. */
  ghost predicate Good(versions: seq<Version>, at: int) {
    exists n: nat :: 0 < n <= |versions| && Splits(versions, at, n) && versions[n - 1].expiry >= at
  }

  lemma GoodAt(versions: seq<Version>, at: int, n: nat)
    requires Splits(versions, at, n)
    ensures Good(versions, at) <==> n > 0 && versions[n - 1].expiry >= at
  {
    forall m: nat | m <= |versions| && Splits(versions, at, m) ensures m == n {
      SplitsUnique(versions, at, m, n);
    }
  }

  /** An event that is recorded whatever the state is. */
  predicate Notable(event: Event) {
    || event.Subscribed? || event.MarketType? || event.ConnectionClosed?
    || Breaks(event) || Restores(event) || Revokes(event)
  }

  ghost predicate SomethingKnown(entries: seq<Entry>) {
    exists k :: 0 <= k < |entries| && Notable(entries[k].event)
  }

  /** A version is recorded as soon as something notable is known. */
  lemma {:induction false} FirstVersion<Q>(ticks: Ticks<Q>, entries: seq<Entry>)
    requires AllAccepted(entries)
    ensures Versions(ticks, Top, entries) != [] <==> SomethingKnown(entries)
    ensures !SomethingKnown(entries) ==> After(ticks, Top, entries) == Initial(ticks)
  {
    if entries != [] {
      var n := |entries| - 1;
      var before := entries[..n];
      FirstVersion(ticks, before);
      if k :| 0 <= k < |before| && Notable(before[k].event) {
        assert entries[k] == before[k];
      }
      if k :| 0 <= k < |entries| && Notable(entries[k].event) {
        assert k < n ==> entries[k] == before[k];
      }
    }
  }

  /** Before the epoch, with something known and the market not usable. */
  ghost predicate Misjudged(entries: seq<Entry>, at: int) {
    at < 0 && SomethingKnown(entries) && !(InService(entries) && Quoted(entries))
  }

  /** A cell of the TOP feed is good exactly when the events known by then make it fresh or misjudged, so the two
      agree exactly when it is not misjudged: a state that is not usable carries the expiry -1, which a cell before
      the epoch does not exceed. */
  lemma GoodIsFresh<Q>(ticks: Ticks<Q>, entries: seq<Entry>, at: int, n: nat)
    requires AllAccepted(entries) && Ordered(entries) && Splits(Versions(ticks, Top, entries), at, n)
    ensures
      var good, known := Good(Versions(ticks, Top, entries), at), UpTo(entries, at);
      && (good <==> FreshAt(known, at) || Misjudged(known, at))
      && ((good <==> FreshAt(known, at)) <==> !Misjudged(known, at))
  {
    hide InService, Quoted, QuotedSince, SomethingKnown, Good, Versions, After, UpTo;
    var known := UpTo(entries, at);
    VersionsUpTo(ticks, Top, entries, at, n);
    GoodAt(Versions(ticks, Top, entries), at, n);
    LastVersionIsPresent(ticks, known);
    FreshMeans(ticks, known, at);
    FirstVersion(ticks, known);
  }

  // ---- The window, in order

  function InWindow(rows: seq<Entry>, start: int, end: int): seq<Entry> {
    if rows == [] then []
    else
      var n := |rows| - 1;
      InWindow(rows[..n], start, end) + if start <= rows[n].known <= end then [rows[n]] else []
  }

  predicate Before(a: Entry, b: Entry) {
    a.known < b.known || (a.known == b.known && a.sequence <= b.sequence)
  }

  /** The rows of the window by time and sequence number. */
  function InOrder(rows: seq<Entry>, start: int, end: int): (r: seq<Entry>)
    ensures Increasing(Before, r)
  {
    Sorted(Before, InWindow(rows, start, end))
  }

  lemma {:induction false} IncreasingIsOrdered(entries: seq<Entry>)
    requires Increasing(Before, entries)
    ensures Ordered(entries)
  {
    if |entries| > 1 {
      IncreasingIsOrdered(entries[1..]);
      forall i, j | 0 <= i < j < |entries| ensures entries[i].known <= entries[j].known {
        assert entries[j] == entries[1..][j - 1];
        assert i > 0 ==> entries[i] == entries[1..][i - 1];
        assert entries[1..][0].known <= entries[1..][j - 1].known;
      }
    }
  }

  // ---- The first usable pair

  function FirstUsable(versions: seq<Version>): Option<int> {
    if versions == [] then None
    else
      var n := |versions| - 1;
      var before := FirstUsable(versions[..n]);
      if before.Some? then before
      else if versions[n].expiry >= versions[n].known then Some(versions[n].known)
      else None
  }

  /** A good cell never precedes the first usable pair. */
  lemma {:induction false} GoodAfterFirst(versions: seq<Version>, i: nat)
    requires VersionsOrdered(versions) && i < |versions| && versions[i].expiry >= versions[i].known
    ensures FirstUsable(versions).Some? && FirstUsable(versions).value <= versions[i].known
    decreases |versions|
  {
    var n := |versions| - 1;
    if i < n {
      GoodAfterFirst(versions[..n], i);
    } else if FirstUsable(versions[..n]).Some? {
      FirstIsThere(versions[..n]);
    }
  }

  lemma {:induction false} FirstIsThere(versions: seq<Version>)
    requires FirstUsable(versions).Some?
    ensures exists i :: 0 <= i < |versions| && versions[i].known == FirstUsable(versions).value
  {
    var n := |versions| - 1;
    if FirstUsable(versions[..n]).Some? {
      FirstIsThere(versions[..n]);
      var i :| 0 <= i < n && versions[..n][i].known == FirstUsable(versions[..n]).value;
      assert versions[i] == versions[..n][i];
    } else {
      assert versions[n].known == FirstUsable(versions).value;
    }
  }

  /** The branches of the loop: what one event does to the variables, and whether it matters. */
  method TakeEvent<Q>(ticks: Ticks<Q>, feed: Feed, before: State<Q>, known: int, event: Event)
    returns (ok: bool, relevant: bool, s: State<Q>)
    ensures ok <==> Accepted(event)
    ensures ok ==> relevant == Relevant(feed, before, event) && s == Apply(ticks, feed, before, known, event)
  {
    ok, relevant, s := true, false, before;
    match event
    case Subscribed(ids, _) =>
      if |ids| != 2 || ids[0] <= 0 || ids[1] <= 0 {
        return false, false, s;
      }
      s := s.(topId := Some(ids[0]), tbtId := Some(ids[1]), bid := None, ask := None, quote := ticks.forget(s.quote));
      s := s.(mustResubscribe := false);
      relevant := true;
    case MarketType(isLive) =>
      s := s.(live := isLive);
      relevant := true;
    case ConnectionClosed =>
      s := s.(connected := false);
      relevant := true;
    case Control(code, fatal, cashFarm) =>
      if code == 1100 || code == 504 || code == 509 || code == 1300 || fatal {
        s := s.(connected := false, bid := None, ask := None, quote := ticks.forget(s.quote));
        relevant := true;
      } else if code == 1101 {
        s := s.(connected := true, mustResubscribe := true, bid := None, ask := None, quote := ticks.forget(s.quote));
        relevant := true;
      } else if code == 1102 {
        s := s.(connected := true);
        relevant := true;
      } else if code == 2103 && cashFarm {
        s := s.(mustResubscribe := true, bid := None, ask := None, quote := ticks.forget(s.quote));
        relevant := true;
      }
    case TopBid(request, price) =>
      if feed == Top && s.topId == Some(request) {
        s := s.(bid := if price.Some? && price.value > 0.0 then price else None, bidAt := known);
        relevant := true;
      }
    case TopAsk(request, price) =>
      if feed == Top && s.topId == Some(request) {
        s := s.(ask := if price.Some? && price.value > 0.0 then price else None, askAt := known);
        relevant := true;
      }
    case TbtBidAsk(request, second, bid, ask) =>
      if feed == Tbt && s.tbtId == Some(request) {
        s := s.(quote := ticks.receive(s.quote, second, bid, ask, known));
        relevant := true;
      }
    case Unrelated =>
  }

  /** The expiry of the version that an event leaves. */
  method UntilWhen<Q>(ticks: Ticks<Q>, feed: Feed, s: State<Q>, known: int) returns (expiry: int)
    ensures expiry == Expiry(ticks, feed, s, known)
  {
    expiry := -1;
    if s.live && s.connected && !s.mustResubscribe {
      if feed == Tbt {
        var current := ticks.expiry(s.quote, known);
        if current.Some? {
          expiry := current.value;
        }
      } else if s.bid.Some? && s.ask.Some? && s.bid.value <= s.ask.value {
        expiry := (if s.bidAt <= s.askAt then s.bidAt else s.askAt) + 5000;
      }
    }
  }

  /** The loop over the events. */
  method Replay<Q>(ticks: Ticks<Q>, feed: Feed, entries: seq<Entry>)
      returns (ok: bool, versions: seq<Version>, first: Option<int>)
    ensures ok <==> AllAccepted(entries)
    ensures ok ==> versions == Versions(ticks, feed, entries) && first == FirstUsable(versions)
  {
    hide Apply, Expiry, Relevant;
    versions, first := [], None;
    var s, n := Initial(ticks), 0;
    assert entries[..0] == [];
    while n < |entries|
      invariant 0 <= n <= |entries| && AllAccepted(entries[..n])
      invariant s == After(ticks, feed, entries[..n]) && versions == Versions(ticks, feed, entries[..n])
      invariant first == FirstUsable(versions)
    {
      var entry := entries[n];
      var fine, relevant, next := TakeEvent(ticks, feed, s, entry.known, entry.event);
      if !fine {
        return false, [], None;
      }
      assert entries[..n + 1][..n] == entries[..n];
      s := next;
      if relevant {
        var expiry := UntilWhen(ticks, feed, s, entry.known);
        if expiry >= entry.known && first.None? {
          first := Some(entry.known);
        }
        assert (versions + [Version(entry.known, expiry)])[..|versions|] == versions;
        versions := versions + [Version(entry.known, expiry)];
      }
      n := n + 1;
    }
    assert entries[..n] == entries;
    ok := true;
  }

  // ---- Counting

  datatype Report = Report(first: Option<int>, cells: nat, usable: nat, steadyCells: nat, steadyUsable: nat,
                           longest: nat)

  /** The first full second at or after the start. */
  function GridStart(start: int): (grid: int)
    ensures grid % 1000 == 0 && start <= grid < start + 1000
  {
    (start + 999) / 1000 * 1000
  }

  /** How many full seconds there are from there up to the end. */
  function Cells(start: int, end: int): (cells: nat)
    ensures forall k: nat :: k < cells <==> GridStart(start) + 1000 * k <= end
  {
    var first, last := GridStart(start), end / 1000 * 1000;
    if last < first then 0 else (last - first) / 1000 + 1
  }

  ghost function CountGood(versions: seq<Version>, grid: int, cells: nat): nat {
    if cells == 0 then 0
    else CountGood(versions, grid, cells - 1) + if Good(versions, grid + 1000 * (cells - 1)) then 1 else 0
  }

  ghost function CountFresh(entries: seq<Entry>, grid: int, cells: nat): nat {
    if cells == 0 then 0
    else
      var at := grid + 1000 * (cells - 1);
      CountFresh(entries, grid, cells - 1) + if FreshAt(UpTo(entries, at), at) then 1 else 0
  }

  ghost function CountMisjudged(entries: seq<Entry>, grid: int, cells: nat): (r: nat)
    ensures r == 0 <==> forall k :: 0 <= k < cells ==> !Misjudged(UpTo(entries, grid + 1000 * k), grid + 1000 * k)
  {
    if cells == 0 then 0
    else
      var at := grid + 1000 * (cells - 1);
      CountMisjudged(entries, grid, cells - 1) + if Misjudged(UpTo(entries, at), at) then 1 else 0
  }

  /** No cell from a up to b is good. */
  ghost predicate Stale(versions: seq<Version>, grid: int, a: int, b: int) {
    forall k :: a <= k < b ==> !Good(versions, grid + 1000 * k)
  }

  /** The longest run of cells that are not good, among those at or behind the first usable pair. */
  ghost predicate LongestRun(versions: seq<Version>, grid: int, begin: nat, cells: nat, longest: nat) {
    && (forall a, b :: begin <= a <= b <= cells && Stale(versions, grid, a, b) ==> b - a <= longest)
    && (longest > 0 ==> exists a, b :: begin <= a <= b <= cells && b - a == longest && Stale(versions, grid, a, b))
  }

  /** What the counting loop knows after some cells. */
  ghost predicate Counted(versions: seq<Version>, first: Option<int>, grid: int, cells: nat, r: Report, begin: nat,
                          streak: nat) {
    && r.first == first && r.cells == cells
    && r.usable == CountGood(versions, grid, cells) == r.steadyUsable
    && (first.None? ==> begin == cells && r.steadyCells == 0 && r.longest == 0 && streak == 0)
    && (first.Some? ==>
          && begin <= cells && r.steadyCells == cells - begin
          && (begin > 0 ==> grid + 1000 * (begin - 1) < first.value)
          && (begin < cells ==> first.value <= grid + 1000 * begin))
    && streak <= cells - begin && streak <= r.longest
    && Stale(versions, grid, cells - streak, cells)
    && (cells - streak > begin ==> Good(versions, grid + 1000 * (cells - streak - 1)))
    && LongestRun(versions, grid, begin, cells, r.longest)
  }

  function NextReport(r: Report, good: bool, steady: bool, streak: nat): (Report, nat) {
    var g, run := if good then 1 else 0, if good then 0 else streak + 1;
    if !steady then (r.(cells := r.cells + 1, usable := r.usable + g), streak)
    else
      (r.(cells := r.cells + 1, usable := r.usable + g, steadyCells := r.steadyCells + 1,
          steadyUsable := r.steadyUsable + g,
          longest := if run > r.longest then run else r.longest), run)
  }

  lemma RunGrows(versions: seq<Version>, grid: int, begin: nat, cells: nat, longest: nat, streak: nat)
    requires LongestRun(versions, grid, begin, cells, longest) && begin <= cells && streak <= cells - begin
      && streak <= longest
    requires Stale(versions, grid, cells - streak, cells)
    requires cells - streak > begin ==> Good(versions, grid + 1000 * (cells - streak - 1))
    ensures
      var good := Good(versions, grid + 1000 * cells);
      var run := if good then 0 else streak + 1;
      LongestRun(versions, grid, begin, cells + 1, if run > longest then run else longest)
  {
    var good := Good(versions, grid + 1000 * cells);
    var run := if good then 0 else streak + 1;
    var best := if run > longest then run else longest;
    forall a, b | begin <= a <= b <= cells + 1 && Stale(versions, grid, a, b) ensures b - a <= best {
      if b == cells + 1 {
        StaleStops(versions, grid, a, b, cells);
        StaleStops(versions, grid, a, b, cells - streak - 1);
      }
    }
    if best > longest {
      assert Stale(versions, grid, cells - streak, cells + 1);
    }
  }

  lemma StaleStops(versions: seq<Version>, grid: int, a: int, b: int, k: int)
    requires Stale(versions, grid, a, b)
    ensures Good(versions, grid + 1000 * k) ==> !(a <= k < b)
  {
  }

  lemma CountedMore(versions: seq<Version>, first: Option<int>, grid: int, cells: nat, r: Report, begin: nat,
                    streak: nat)
    requires Counted(versions, first, grid, cells, r, begin, streak)
    requires Good(versions, grid + 1000 * cells) ==> first.Some? && first.value <= grid + 1000 * cells
    ensures
      var at := grid + 1000 * cells;
      var steady := first.Some? && at >= first.value;
      var next := NextReport(r, Good(versions, at), steady, streak);
      Counted(versions, first, grid, cells + 1, next.0, if steady then begin else cells + 1, next.1)
  {
    hide Good;
    var at := grid + 1000 * cells;
    if first.Some? && at >= first.value {
      RunGrows(versions, grid, begin, cells, r.longest, streak);
    } else {
      assert begin == cells;
    }
  }

  /** The counting loop. */
  method Count(versions: seq<Version>, first: Option<int>, grid: int, cells: nat) returns (r: Report)
    requires VersionsOrdered(versions) && first == FirstUsable(versions)
    ensures exists begin: nat, streak: nat :: Counted(versions, first, grid, cells, r, begin, streak)
  {
    hide Counted, Good;
    r := Report(first, 0, 0, 0, 0, 0);
    ghost var begin: nat := 0;
    var streak: nat, k: nat := 0, 0;
    NothingCounted(versions, first, grid);
    while k < cells
      invariant k <= cells && Counted(versions, first, grid, k, r, begin, streak)
    {
      var at := grid + 1000 * k;
      var n := BisectRight(versions, at);
      var good := n > 0 && versions[n - 1].expiry >= at;
      GoodAt(versions, at, n);
      if good {
        GoodAfterFirst(versions, n - 1);
      }
      CountedMore(versions, first, grid, k, r, begin, streak);
      var steady := first.Some? && at >= first.value;
      var next := NextReport(r, good, steady, streak);
      r, streak, begin, k := next.0, next.1, if steady then begin else k + 1, k + 1;
    }
  }

  lemma NothingCounted(versions: seq<Version>, first: Option<int>, grid: int)
    ensures Counted(versions, first, grid, 0, Report(first, 0, 0, 0, 0, 0), 0, 0)
  {
  }

  /** The cells counted by bisection are those that the events make fresh, and the misjudged ones. */
  lemma {:induction false} CountsFresh<Q>(ticks: Ticks<Q>, entries: seq<Entry>, grid: int, cells: nat)
    requires AllAccepted(entries) && Ordered(entries)
    ensures CountGood(Versions(ticks, Top, entries), grid, cells)
         == CountFresh(entries, grid, cells) + CountMisjudged(entries, grid, cells)
  {
    hide Good, Misjudged, FreshAt, Versions;
    if cells > 0 {
      CountsFresh(ticks, entries, grid, cells - 1);
      var at := grid + 1000 * (cells - 1);
      VersionsAreOrdered(ticks, Top, entries);
      var n := SplitAt(Versions(ticks, Top, entries), at);
      GoodIsFresh(ticks, entries, at, n);
    }
  }

  lemma {:induction false} SplitAt(versions: seq<Version>, at: int) returns (n: nat)
    requires VersionsOrdered(versions)
    ensures Splits(versions, at, n)
  {
    n := |versions|;
    if n > 0 && versions[n - 1].known > at {
      n := SplitAt(versions[..n - 1], at);
    }
  }

  lemma {:induction false} UpToAccepted(entries: seq<Entry>, at: int)
    requires AllAccepted(entries)
    ensures AllAccepted(UpTo(entries, at))
  {
    if entries != [] && entries[|entries| - 1].known > at {
      UpToAccepted(entries[..|entries| - 1], at);
    }
  }

  // ---- The first usable pair, told by the events

  /** The market is fresh at the time of entry k, by the entries up to it. */
  ghost predicate FreshWhen(entries: seq<Entry>, k: int) {
    0 <= k < |entries| && FreshAt(entries[..k + 1], entries[k].known)
  }

  ghost predicate FirstFresh(entries: seq<Entry>, first: Option<int>) {
    && (first.None? ==> forall k :: 0 <= k < |entries| ==> !FreshWhen(entries, k))
    && (first.Some? ==> exists k :: 0 <= k < |entries| && FreshWhen(entries, k) && entries[k].known == first.value
                                    && forall j :: 0 <= j < k ==> !FreshWhen(entries, j))
  }

  lemma FirstFreshNext(entries: seq<Entry>, next: Entry, first: Option<int>)
    requires FirstFresh(entries, first)
    ensures
      var more := entries + [next];
      FirstFresh(more, if first.Some? then first else if FreshAt(more, next.known) then Some(next.known) else None)
  {
    hide FreshAt;
    var more, n := entries + [next], |entries|;
    forall k | 0 <= k < n ensures FreshWhen(more, k) <==> FreshWhen(entries, k) {
      assert more[..k + 1] == entries[..k + 1];
    }
    assert more[..n + 1] == more && more[n] == next;
    if first.Some? {
      var k :| 0 <= k < |entries| && FreshWhen(entries, k) && entries[k].known == first.value
               && forall j :: 0 <= j < k ==> !FreshWhen(entries, j);
      assert FreshWhen(more, k) && more[k].known == first.value;
    } else if FreshAt(more, next.known) {
      assert FreshWhen(more, n);
    }
  }

  lemma FirstUsableNext(versions: seq<Version>, next: Version)
    ensures FirstUsable(versions + [next]) ==
      if FirstUsable(versions).Some? then FirstUsable(versions)
      else if next.expiry >= next.known then Some(next.known) else None
  {
    assert (versions + [next])[..|versions|] == versions;
  }

  lemma {:induction false} NoneUsable(versions: seq<Version>, i: nat)
    requires FirstUsable(versions).None? && i < |versions|
    ensures versions[i].expiry < versions[i].known
    decreases |versions|
  {
    if i < |versions| - 1 {
      NoneUsable(versions[..|versions| - 1], i);
    }
  }

  /** From the epoch on, the first usable pair is the first entry whose events make the market fresh. */
  lemma {:induction false} FirstMeans<Q>(ticks: Ticks<Q>, entries: seq<Entry>)
    requires AllAccepted(entries) && Ordered(entries) && forall i :: 0 <= i < |entries| ==> entries[i].known >= 0
    ensures FirstFresh(entries, FirstUsable(Versions(ticks, Top, entries)))
  {
    hide FirstFresh, FreshAt, Relevant, Apply, FirstUsable;
    if entries == [] {
      NoneFirst(ticks);
    } else {
      var n := |entries| - 1;
      var before, next := entries[..n], entries[n];
      FirstMeans(ticks, before);
      FirstFreshNext(before, next, FirstUsable(Versions(ticks, Top, before)));
      assert before + [next] == entries;
      FreshMeans(ticks, entries, next.known);
      var s := After(ticks, Top, before);
      if Relevant(Top, s, next.event) {
        var version := Version(next.known, Expiry(ticks, Top, After(ticks, Top, entries), next.known));
        FirstUsableNext(Versions(ticks, Top, before), version);
      } else {
        UnchangedState(ticks, before, next);
        if FirstUsable(Versions(ticks, Top, before)).None? {
          NotFreshLater(ticks, before, next.known);
        }
      }
    }
  }

  lemma NoneFirst<Q>(ticks: Ticks<Q>)
    ensures FirstFresh([], FirstUsable(Versions(ticks, Top, [])))
  {
  }

  lemma UnchangedState<Q>(ticks: Ticks<Q>, before: seq<Entry>, next: Entry)
    requires AllAccepted(before) && AllAccepted(before + [next])
    requires !Relevant(Top, After(ticks, Top, before), next.event)
    ensures After(ticks, Top, before + [next]) == After(ticks, Top, before)
    ensures Versions(ticks, Top, before + [next]) == Versions(ticks, Top, before)
  {
    assert (before + [next])[..|before|] == before;
  }

  lemma NotFreshLater<Q>(ticks: Ticks<Q>, entries: seq<Entry>, at: int)
    requires AllAccepted(entries) && Ordered(entries) && forall i :: 0 <= i < |entries| ==> 0 <= entries[i].known <= at
    requires FirstUsable(Versions(ticks, Top, entries)).None?
    ensures !TopFresh(After(ticks, Top, entries), at)
  {
    LastVersionIsPresent(ticks, entries);
    VersionsAreOrdered(ticks, Top, entries);
    var versions := Versions(ticks, Top, entries);
    if versions != [] {
      NoneUsable(versions, |versions| - 1);
    }
  }

  // ---- The whole replay

  /** The rows in order are those of the window, each as often as it was there. */
  lemma {:induction false} WindowMeans(rows: seq<Entry>, start: int, end: int, x: Entry)
    ensures multiset(InOrder(rows, start, end))[x] == if start <= x.known <= end then multiset(rows)[x] else 0
  {
    SortPermutes(Before, InWindow(rows, start, end));
    InWindowMeans(rows, start, end, x);
  }

  lemma {:induction false} InWindowMeans(rows: seq<Entry>, start: int, end: int, x: Entry)
    ensures multiset(InWindow(rows, start, end))[x] == if start <= x.known <= end then multiset(rows)[x] else 0
  {
    if rows == [] {
      assert InWindow(rows, start, end) == [];
    } else {
      hide InWindow;
      var front, last := rows[..|rows| - 1], rows[|rows| - 1];
      InWindowMeans(front, start, end, x);
      InWindowStep(rows, start, end);
      LastCounts(front, last, x);
      LastCounts(InWindow(front, start, end), last, x);
      assert multiset(rows) == multiset(front + [last]) by { assert rows == front + [last]; }
    }
  }

  lemma InWindowStep(rows: seq<Entry>, start: int, end: int)
    requires rows != []
    ensures
      var front, last := InWindow(rows[..|rows| - 1], start, end), rows[|rows| - 1];
      InWindow(rows, start, end) == if start <= last.known <= end then front + [last] else front
  {
  }

  lemma LastCounts(rows: seq<Entry>, last: Entry, x: Entry)
    ensures multiset(rows + [last])[x] == multiset(rows)[x] + if x == last then 1 else 0
  {
  }

  lemma InWindowKnown(rows: seq<Entry>, start: int, end: int)
    ensures forall i :: 0 <= i < |InOrder(rows, start, end)| ==> start <= InOrder(rows, start, end)[i].known <= end
  {
    var entries := InOrder(rows, start, end);
    forall i | 0 <= i < |entries| ensures start <= entries[i].known <= end {
      WindowMeans(rows, start, end, entries[i]);
      assert entries[i] in multiset(entries);
    }
  }

  /** replay_stream. For either feed the usable cells of the full window are those from the first usable
      pair on. For the TOP feed they are the cells that the events known by then make live, connected, subscribed,
      uncrossed and at most five seconds old, exactly when no cell is misjudged; so always when the grid begins at
      the epoch or later. The first usable pair is then told by the events too. */
  method ReplayStream<Q(!new)>(ticks: Ticks<Q>, feed: Feed, rows: seq<Entry>, start: int, end: int)
    returns (r: Option<Report>)
    ensures r.Some? <==> end > start && AllAccepted(InOrder(rows, start, end))
    ensures r.Some? ==> r.value.cells == Cells(start, end) && r.value.usable == r.value.steadyUsable
    ensures r.Some? ==> r.value.first == FirstUsable(Versions(ticks, feed, InOrder(rows, start, end)))
    ensures r.Some? && feed == Top && start >= 0 ==> FirstFresh(InOrder(rows, start, end), r.value.first)
    ensures r.Some? && feed == Top ==>
      var entries, grid, cells := InOrder(rows, start, end), GridStart(start), Cells(start, end);
      && r.value.usable == CountFresh(entries, grid, cells) + CountMisjudged(entries, grid, cells)
      && (grid >= 0 ==> CountMisjudged(entries, grid, cells) == 0)
    ensures r.Some? && r.value.first.Some? ==> exists begin: nat ::
      && r.value.steadyCells == Cells(start, end) - begin
      && LongestRun(Versions(ticks, feed, InOrder(rows, start, end)), GridStart(start), begin, Cells(start, end),
                    r.value.longest)
      && (begin > 0 ==> GridStart(start) + 1000 * (begin - 1) < r.value.first.value)
  {
    hide Versions, AllAccepted, LongestRun, CountGood, CountFresh, CountMisjudged, InOrder, FirstFresh, GridStart,
         Cells;
    if end <= start {
      return None;
    }
    var entries := InOrder(rows, start, end);
    var ok, versions, first := Replay(ticks, feed, entries);
    if !ok {
      return None;
    }
    IncreasingIsOrdered(entries);
    VersionsAreOrdered(ticks, feed, entries);
    var report := Count(versions, first, GridStart(start), Cells(start, end));
    ghost var begin: nat, streak: nat :| Counted(versions, first, GridStart(start), Cells(start, end), report, begin,
                                                 streak);
    if feed == Top {
      CountsFresh(ticks, entries, GridStart(start), Cells(start, end));
      if start >= 0 {
        InWindowKnown(rows, start, end);
        FirstMeans(ticks, entries);
      }
    }
    r := Some(report);
  }

  lemma OneRow(row: Entry, start: int, end: int)
    requires start <= row.known <= end
    ensures InOrder([row], start, end) == [row]
  {
    assert [row][..0] == [] && InWindow([row][..0], start, end) == [];
    assert [row][1..] == [] && Sorted(Before, [row][1..]) == [];
  }

  /** One event that is known and leaves the stream not live. */
  lemma NeverLive(start: int, at: int)
    requires start <= at < 0
    ensures
      var entries := [Entry(start, 0, MarketType(false))];
      AllAccepted(entries) && UpTo(entries, at) == entries && Misjudged(entries, at)
  {
    var entries := [Entry(start, 0, MarketType(false))];
    assert Notable(entries[0].event);
    assert !IsLive(entries);
  }

  /** Every window whose grid begins before the epoch has a stream that is miscounted: one that never goes live. */
  lemma NegativeGridMiscounts(start: int, end: int)
    requires GridStart(start) < 0 && Cells(start, end) > 0
    ensures exists rows: seq<Entry> :: Miscounted(rows, start, end)
  {
    hide InOrder, Misjudged, CountMisjudged, UpTo;
    var at := GridStart(start);
    var entries := [Entry(start, 0, MarketType(false))];
    OneRow(entries[0], start, end);
    NeverLive(start, at);
    assert Misjudged(UpTo(entries, at + 1000 * 0), at + 1000 * 0);
    assert Miscounted(entries, start, end);
  }

  /** The stream is replayed, and cells are counted that are not fresh. */
  ghost predicate Miscounted(rows: seq<Entry>, start: int, end: int) {
    var entries := InOrder(rows, start, end);
    AllAccepted(entries) && CountMisjudged(entries, GridStart(start), Cells(start, end)) > 0
  }
}
