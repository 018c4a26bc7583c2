/** The anti-churn part of the BTC entry policy: a pruned list of reservations, and the rate limits that
    are evaluated on it. */
module BtcEntry {

  import opened Bytes

  const WINDOW_MS: int := 3600000
  const INTERVAL_MS: int := 1800000
  const COOLDOWN_MS: int := 1800000
  const MAX_OPENS: nat := 2
  const MAX_RESERVATIONS: nat := 32

  datatype Reservation = Reservation(command: bytes, at: int)

  // ---- The limits

  function Recent(rs: seq<Reservation>, now: int): seq<Reservation> {
    if rs == [] then []
    else
      var n := |rs| - 1;
      Recent(rs[..n], now) + if rs[n].at > now - WINDOW_MS then [rs[n]] else []
  }

  function Without(rs: seq<Reservation>, command: Option<bytes>): seq<Reservation> {
    if rs == [] then []
    else
      var n := |rs| - 1;
      Without(rs[..n], command) + if command != Some(rs[n].command) then [rs[n]] else []
  }

  function Latest(rs: seq<Reservation>): (t: int)
    requires rs != []
    ensures exists i :: 0 <= i < |rs| && rs[i].at == t
    ensures forall i :: 0 <= i < |rs| ==> rs[i].at <= t
  {
    var n := |rs| - 1;
    if n == 0 then rs[0].at
    else
      var before := Latest(rs[..n]);
      assert exists i :: 0 <= i < n && rs[..n][i].at == before && rs[i] == rs[..n][i];
      if rs[n].at > before then rs[n].at else before
  }

  predicate RollingLimit(rs: seq<Reservation>, now: int) {
    |Recent(rs, now)| >= MAX_OPENS
  }

  predicate IntervalLimit(rs: seq<Reservation>, now: int) {
    rs != [] && now - Latest(rs) < INTERVAL_MS
  }

  // ---- Pruning is invisible

  /** The first k reservations are too old to matter from this time on. */
  predicate Aged(rs: seq<Reservation>, k: nat, now: int) {
    k <= |rs| && forall i :: 0 <= i < k ==> rs[i].at <= now - WINDOW_MS
  }

  lemma {:induction false} RecentIgnoresAged(rs: seq<Reservation>, k: nat, now: int)
    requires Aged(rs, k, now)
    ensures Recent(rs, now) == Recent(rs[k..], now)
  {
    if k == |rs| {
      assert rs[k..] == [];
      if k > 0 {
        RecentIgnoresAged(rs[..k - 1], k - 1, now);
        assert rs[..k - 1][k - 1..] == [];
      }
    } else {
      var n := |rs| - 1;
      RecentIgnoresAged(rs[..n], k, now);
      assert rs[k..][..n - k] == rs[..n][k..];
    }
  }

  lemma {:induction false} WithoutSplits(rs: seq<Reservation>, k: nat, command: Option<bytes>)
    requires k <= |rs|
    ensures Without(rs, command) == Without(rs[..k], command) + Without(rs[k..], command)
    decreases |rs|
  {
    if k == |rs| {
      assert rs[..k] == rs && rs[k..] == [];
    } else {
      var n := |rs| - 1;
      WithoutSplits(rs[..n], k, command);
      var a, b := rs[..k], rs[k..];
      assert rs[..n][..k] == a && rs[..n][k..] == b[..|b| - 1];
      WithoutLast(rs, command);
      WithoutLast(b, command);
      ConcatIsAssociative(Without(a, command), Without(b[..|b| - 1], command), Without([rs[n]], command)) by { hide *; }
    }
  }

  lemma WithoutLast(rs: seq<Reservation>, command: Option<bytes>)
    requires rs != []
    ensures Without(rs, command) == Without(rs[..|rs| - 1], command) + Without([rs[|rs| - 1]], command)
  {
    var n := |rs| - 1;
    assert [rs[n]][..0] == [];
    assert Without([rs[n]], command) == if command != Some(rs[n].command) then [rs[n]] else [];
  }

  lemma {:induction false} WithoutIsPart(rs: seq<Reservation>, command: Option<bytes>)
    ensures forall i :: 0 <= i < |Without(rs, command)| ==> Without(rs, command)[i] in rs
  {
    if rs != [] {
      WithoutIsPart(rs[..|rs| - 1], command);
    }
  }

  lemma LastCounts(rs: seq<Reservation>, last: Reservation, r: Reservation)
    ensures multiset(rs + [last])[r] == multiset(rs)[r] + if r == last then 1 else 0
  {
  }

  lemma WithoutStep(rs: seq<Reservation>, command: Option<bytes>)
    requires rs != []
    ensures
      var front, last := Without(rs[..|rs| - 1], command), rs[|rs| - 1];
      Without(rs, command) == if command != Some(last.command) then front + [last] else front
  {
  }

  /** Leaving a command out of account leaves out exactly its reservations. */
  lemma {:induction false} WithoutMeans(rs: seq<Reservation>, command: Option<bytes>, r: Reservation)
    ensures multiset(Without(rs, command))[r] == if command == Some(r.command) then 0 else multiset(rs)[r]
  {
    if rs == [] {
      assert Without(rs, command) == [];
    } else {
      hide Without;
      var front, last := rs[..|rs| - 1], rs[|rs| - 1];
      WithoutMeans(front, command, r);
      WithoutStep(rs, command);
      LastWithout(front, last, Without(front, command), command, r);
      assert rs == front + [last];
    }
  }

  lemma LastWithout(front: seq<Reservation>, last: Reservation, kept: seq<Reservation>, command: Option<bytes>,
                    r: Reservation)
    requires multiset(kept)[r] == if command == Some(r.command) then 0 else multiset(front)[r]
    ensures
      var all := if command != Some(last.command) then kept + [last] else kept;
      multiset(all)[r] == if command == Some(r.command) then 0 else multiset(front + [last])[r]
  {
    LastCounts(front, last, r);
    LastCounts(kept, last, r);
  }

  lemma RecentStep(rs: seq<Reservation>, now: int)
    requires rs != []
    ensures
      var front, last := Recent(rs[..|rs| - 1], now), rs[|rs| - 1];
      Recent(rs, now) == if last.at > now - 60 * 60 * 1000 then front + [last] else front
  {
  }

  /** Recent are exactly the reservations of the last hour, its beginning not included. */
  lemma {:induction false} RecentMeans(rs: seq<Reservation>, now: int, r: Reservation)
    ensures multiset(Recent(rs, now))[r] == if r.at > now - 60 * 60 * 1000 then multiset(rs)[r] else 0
  {
    if rs != [] {
      hide Recent;
      var n := |rs| - 1;
      RecentMeans(rs[..n], now, r);
      RecentStep(rs, now);
      LastCounts(rs[..n], rs[n], r);
      LastCounts(Recent(rs[..n], now), rs[n], r);
      assert rs == rs[..n] + [rs[n]];
    }
  }

  lemma IntervalIgnoresAged(a: seq<Reservation>, b: seq<Reservation>, now: int)
    requires forall i :: 0 <= i < |a| ==> a[i].at <= now - WINDOW_MS
    ensures IntervalLimit(a + b, now) <==> IntervalLimit(b, now)
  {
    var all := a + b;
    if all != [] {
      var i :| 0 <= i < |all| && all[i].at == Latest(all);
      if b != [] {
        var j :| 0 <= j < |b| && b[j].at == Latest(b);
        assert all[|a| + j] == b[j];
        assert i >= |a| ==> all[i] == b[i - |a|];
      }
    }
  }

  /** Dropping reservations that are an hour old changes no verdict at that time or later, whichever
      command is left out of account. */
  lemma PruningIsInvisible(rs: seq<Reservation>, k: nat, now: int, ignored: Option<bytes>)
    requires Aged(rs, k, now)
    ensures RollingLimit(Without(rs, ignored), now) <==> RollingLimit(Without(rs[k..], ignored), now)
    ensures IntervalLimit(Without(rs, ignored), now) <==> IntervalLimit(Without(rs[k..], ignored), now)
  {
    var a, b := Without(rs[..k], ignored), Without(rs[k..], ignored);
    WithoutSplits(rs, k, ignored);
    WithoutIsPart(rs[..k], ignored);
    forall i | 0 <= i < |a| ensures a[i].at <= now - WINDOW_MS {
      assert a[i] in rs[..k];
    }
    RecentIgnoresAged(a + b, |a|, now);
    assert (a + b)[|a|..] == b;
    IntervalIgnoresAged(a, b, now);
  }

  // ---- Spacing

  predicate Spaced(rs: seq<Reservation>) {
    forall i, j :: 0 <= i < j < |rs| ==> rs[j].at - rs[i].at >= INTERVAL_MS
  }

  predicate Ordered(rs: seq<Reservation>) {
    forall i, j :: 0 <= i < j < |rs| ==> rs[i].at <= rs[j].at
  }

  /** The reservations of the hour that ends at a time, its beginning not included. */
  function InHour(rs: seq<Reservation>, until: int): seq<Reservation> {
    Recent(UpTo(rs, until), until)
  }

  function UpTo(rs: seq<Reservation>, until: int): seq<Reservation> {
    if rs == [] then []
    else
      var n := |rs| - 1;
      UpTo(rs[..n], until) + if rs[n].at <= until then [rs[n]] else []
  }

  /** The hour that ends at a time: exactly the reservations in it. */
  lemma {:induction false} InHourMeans(rs: seq<Reservation>, until: int, r: Reservation)
    ensures multiset(InHour(rs, until))[r] ==
      if until - 60 * 60 * 1000 < r.at <= until then multiset(rs)[r] else 0
  {
    UpToMeans(rs, until, r);
    RecentMeans(UpTo(rs, until), until, r);
  }

  lemma UpToStep(rs: seq<Reservation>, until: int)
    requires rs != []
    ensures
      var front, last := UpTo(rs[..|rs| - 1], until), rs[|rs| - 1];
      UpTo(rs, until) == if last.at <= until then front + [last] else front
  {
  }

  lemma {:induction false} UpToMeans(rs: seq<Reservation>, until: int, r: Reservation)
    ensures multiset(UpTo(rs, until))[r] == if r.at <= until then multiset(rs)[r] else 0
  {
    if rs != [] {
      hide UpTo;
      var n := |rs| - 1;
      UpToMeans(rs[..n], until, r);
      UpToStep(rs, until);
      LastCounts(rs[..n], rs[n], r);
      LastCounts(UpTo(rs[..n], until), rs[n], r);
      assert rs == rs[..n] + [rs[n]];
    }
  }

  lemma {:induction false} UpToKeepsSpacing(rs: seq<Reservation>, until: int)
    requires Spaced(rs)
    ensures Spaced(UpTo(rs, until))
    ensures forall i :: 0 <= i < |UpTo(rs, until)| ==> UpTo(rs, until)[i].at <= until && UpTo(rs, until)[i] in rs
  {
    if rs != [] {
      var n := |rs| - 1;
      UpToKeepsSpacing(rs[..n], until);
      var kept := UpTo(rs[..n], until);
      forall i | 0 <= i < |kept| ensures rs[n].at - kept[i].at >= INTERVAL_MS {
        assert kept[i] in rs[..n];
      }
    }
  }

  lemma RecentLast(rs: seq<Reservation>, now: int)
    requires rs != [] && rs[|rs| - 1].at > now - WINDOW_MS
    ensures Recent(rs, now) == Recent(rs[..|rs| - 1], now) + [rs[|rs| - 1]]
  {
  }

  lemma {:induction false} RecentAll(rs: seq<Reservation>, now: int)
    requires forall i :: 0 <= i < |rs| ==> rs[i].at > now - WINDOW_MS
    ensures Recent(rs, now) == rs
  {
    hide Recent;
    if rs == [] {
      RecentNone(now);
    } else {
      var n := |rs| - 1;
      RecentAll(rs[..n], now);
      RecentLast(rs, now);
      assert rs[..n] + [rs[n]] == rs by { hide *; }
    }
  }

  lemma RecentNone(now: int)
    ensures Recent([], now) == []
  {
  }

  /** In order of time, what is recent is the end of the list. */
  lemma RecentIsSuffix(rs: seq<Reservation>, now: int) returns (k: nat)
    requires Ordered(rs)
    ensures k <= |rs| && Recent(rs, now) == rs[k..] && Aged(rs, k, now)
    ensures forall i :: k <= i < |rs| ==> rs[i].at > now - WINDOW_MS
  {
    k := 0;
    while k < |rs| && rs[k].at <= now - WINDOW_MS
      invariant k <= |rs| && Aged(rs, k, now)
    {
      k := k + 1;
    }
    forall i | k <= i < |rs| ensures rs[i].at > now - WINDOW_MS {
      assert rs[k].at <= rs[i].at;
    }
    RecentIgnoresAged(rs, k, now);
    RecentAll(rs[k..], now);
  }

  /** Spaced openings: no hour, its beginning not included, holds more than two. */
  lemma AtMostTwoPerHour(rs: seq<Reservation>, until: int)
    requires Spaced(rs)
    ensures |InHour(rs, until)| <= MAX_OPENS
  {
    var known := UpTo(rs, until);
    UpToKeepsSpacing(rs, until);
    var k := RecentIsSuffix(known, until);
    ThreeSpanAnHour(known, k);
  }

  lemma ThreeSpanAnHour(rs: seq<Reservation>, k: nat)
    requires Spaced(rs)
    ensures k + 2 < |rs| ==> rs[k + 2].at - rs[k].at >= WINDOW_MS
  {
    if k + 2 < |rs| {
      assert rs[k + 2].at - rs[k + 1].at >= INTERVAL_MS && rs[k + 1].at - rs[k].at >= INTERVAL_MS;
    }
  }

  /** The reservations of the hour that ends at a time, both its ends included. */
  function InClosedHour(rs: seq<Reservation>, until: int): seq<Reservation> {
    Recent(UpTo(rs, until), until - 1)
  }

  predicate ThreeFrom(rs: seq<Reservation>, i: nat, until: int)
    requires i + 2 < |rs|
  {
    rs[i].at == until - WINDOW_MS && rs[i + 1].at == until - INTERVAL_MS && rs[i + 2].at == until
  }

  /** Three openings with exactly half an hour between them, the last at this time. */
  ghost predicate ThreeEndAt(rs: seq<Reservation>, until: int) {
    exists i :: 0 <= i < |rs| - 2 && ThreeFrom(rs, i, until)
  }

  lemma {:induction false} UpToIsPrefix(rs: seq<Reservation>, until: int)
    requires Spaced(rs)
    ensures UpTo(rs, until) <= rs
    ensures forall i :: |UpTo(rs, until)| <= i < |rs| ==> rs[i].at > until
  {
    if rs != [] {
      var n := |rs| - 1;
      UpToIsPrefix(rs[..n], until);
      var kept := UpTo(rs[..n], until);
      assert |kept| < n ==> rs[..n][|kept|].at > until && rs[n].at - rs[|kept|].at >= INTERVAL_MS;
    }
  }

  lemma Apart(rs: seq<Reservation>, i: nat)
    requires Spaced(rs) && i + 1 < |rs|
    ensures rs[i + 1].at - rs[i].at >= INTERVAL_MS
  {
  }

  /** Where the openings of a closed hour lie in the list. */
  lemma ThreeFill(rs: seq<Reservation>, k: nat, m: nat, until: int)
    requires Spaced(rs) && k <= m <= |rs|
    requires forall i :: 0 <= i < k ==> rs[i].at < until - WINDOW_MS
    requires forall i :: k <= i < m ==> until - WINDOW_MS <= rs[i].at <= until
    requires forall i :: m <= i < |rs| ==> rs[i].at > until
    ensures m - k <= 3
    ensures m - k == 3 <==> ThreeEndAt(rs, until)
  {
    hide Spaced;
    if k + 2 < m {
      Apart(rs, k);
      Apart(rs, k + 1);
      if k + 3 < m {
        Apart(rs, k + 2);
      }
    }
    if m - k == 3 {
      assert ThreeFrom(rs, k, until);
    }
    if i :| 0 <= i < |rs| - 2 && ThreeFrom(rs, i, until) {
      assert k <= i && i + 2 < m;
    }
  }

  /** Spaced openings: an hour with both its ends included never holds more than three, and holds three exactly
      when openings stand at its beginning, its middle and its end. */
  lemma ClosedHourHoldsThree(rs: seq<Reservation>, until: int)
    requires Spaced(rs)
    ensures |InClosedHour(rs, until)| <= 3
    ensures |InClosedHour(rs, until)| == 3 <==> ThreeEndAt(rs, until)
  {
    hide Recent, UpTo, ThreeEndAt;
    var known := UpTo(rs, until);
    UpToIsPrefix(rs, until);
    UpToKeepsSpacing(rs, until);
    SpacedIsOrdered(known);
    hide Spaced, Ordered;
    var k := RecentIsSuffix(known, until - 1);
    assert forall i :: 0 <= i < |known| ==> known[i] == rs[i];
    ThreeFill(rs, k, |known|, until);
  }

  lemma SpacedIsOrdered(rs: seq<Reservation>)
    requires Spaced(rs)
    ensures Ordered(rs)
  {
  }

  lemma {:induction false} WithoutKeepsSpacing(rs: seq<Reservation>, command: Option<bytes>)
    requires Spaced(rs)
    ensures Spaced(Without(rs, command))
    ensures forall i :: 0 <= i < |Without(rs, command)| ==> Without(rs, command)[i] in rs
  {
    if rs != [] {
      var n := |rs| - 1;
      WithoutKeepsSpacing(rs[..n], command);
      var kept := Without(rs[..n], command);
      forall i | 0 <= i < |kept| ensures rs[n].at - kept[i].at >= INTERVAL_MS {
        assert kept[i] in rs[..n];
      }
    }
  }

  /** With spaced reservations the rolling limit fires only when the interval limit fires too, whichever
      command is left out of account. */
  lemma RollingImpliesInterval(rs: seq<Reservation>, now: int, ignored: Option<bytes>)
    requires Spaced(rs) && RollingLimit(Without(rs, ignored), now)
    ensures IntervalLimit(Without(rs, ignored), now)
  {
    WithoutKeepsSpacing(rs, ignored);
    var counted := Without(rs, ignored);
    var k := RecentIsSuffix(counted, now);
    assert counted[|counted| - 1].at - counted[k].at >= INTERVAL_MS;
  }

  // ---- The control

  predicate Named(command: bytes) {
    0 < |command| <= 160
  }

  predicate DistinctCommands(rs: seq<Reservation>) {
    forall i, j :: 0 <= i < j < |rs| ==> rs[i].command != rs[j].command
  }

  predicate Sane(rs: seq<Reservation>, now: int) {
    forall i :: 0 <= i < |rs| ==> Named(rs[i].command) && 0 < rs[i].at <= now
  }

  predicate Validated(rs: seq<Reservation>, lastFlat: int, now: int) {
    |rs| <= MAX_RESERVATIONS && DistinctCommands(rs) && Sane(rs, now) && 0 <= lastFlat <= now
  }

  /** The list is the history without a beginning that is too old to matter from this time on. */
  ghost predicate Follows(history: seq<Reservation>, rs: seq<Reservation>, clock: int) {
    && |rs| <= |history| && history[|history| - |rs|..] == rs
    && Aged(history, |history| - |rs|, clock)
    && Ordered(history) && (history != [] ==> history[|history| - 1].at <= clock)
  }

  lemma StillFollows(history: seq<Reservation>, rs: seq<Reservation>, clock: int, now: int)
    requires Follows(history, rs, clock) && clock <= now
    ensures Follows(history, rs, now)
  {
  }

  lemma SuffixIsOrdered(history: seq<Reservation>, cut: nat)
    requires Ordered(history) && cut <= |history|
    ensures Ordered(history[cut..])
  {
  }

  lemma OrderedMore(history: seq<Reservation>, r: Reservation)
    requires Ordered(history) && (history != [] ==> history[|history| - 1].at <= r.at)
    ensures Ordered(history + [r])
  {
    forall i | 0 <= i < |history| ensures history[i].at <= r.at {
      assert i < |history| - 1 ==> history[i].at <= history[|history| - 1].at;
    }
  }

  lemma SuffixMore(history: seq<Reservation>, cut: nat, k: nat, r: Reservation)
    requires cut + k <= |history|
    ensures (history + [r])[cut + k..] == history[cut..][k..] + [r]
  {
  }

  lemma AgedMore(history: seq<Reservation>, cut: nat, k: nat, now: int, r: Reservation)
    requires Aged(history, cut, now) && Aged(history[cut..], k, now)
    ensures Aged(history + [r], cut + k, now)
  {
    forall i | 0 <= i < cut + k ensures (history + [r])[i].at <= now - WINDOW_MS {
      assert i >= cut ==> history[i] == history[cut..][i - cut];
    }
  }

  lemma ReserveFollows(history: seq<Reservation>, rs: seq<Reservation>, now: int, r: Reservation)
    requires Follows(history, rs, now) && r.at == now
    ensures Follows(history + [r], Recent(rs, now) + [r], now)
  {
    hide Ordered, Recent, Aged;
    var cut := |history| - |rs|;
    SuffixIsOrdered(history, cut);
    OrderedMore(history, r);
    var k := RecentIsSuffix(rs, now);
    SuffixMore(history, cut, k, r);
    AgedMore(history, cut, k, now, r);
  }

  predicate Listed(rs: seq<Reservation>, command: bytes) {
    exists i :: 0 <= i < |rs| && rs[i].command == command
  }

  class EntryControl {
    var reservations: seq<Reservation>
    var lastFlat: int
    /** Every reservation that was made, and the last time that was seen. */
    ghost var history: seq<Reservation>
    ghost var clock: int

    ghost predicate Valid()
      reads this
    {
      Follows(history, reservations, clock)
    }

    constructor ()
      ensures Valid() && history == [] == reservations && clock == 0 == lastFlat
    {
      reservations, lastFlat, history, clock := [], 0, [], 0;
    }

    /** validate_control. */
    method Validate(now: int) returns (ok: bool)
      ensures ok <==> Validated(reservations, lastFlat, now)
    {
      if |reservations| > MAX_RESERVATIONS {
        return false;
      }
      var seen: set<bytes> := {};
      var i := 0;
      while i < |reservations|
        invariant 0 <= i <= |reservations|
        invariant DistinctCommands(reservations[..i]) && Sane(reservations[..i], now)
        invariant forall c :: c in seen <==> exists k :: 0 <= k < i && reservations[k].command == c
      {
        var r := reservations[i];
        if |r.command| == 0 || |r.command| > 160 || r.at <= 0 || r.at > now {
          return false;
        }
        if r.command in seen {
          return false;
        }
        assert reservations[..i + 1] == reservations[..i] + [r];
        seen := seen + {r.command};
        i := i + 1;
      }
      assert reservations[..i] == reservations;
      ok := 0 <= lastFlat <= now;
    }

    /** reserve: reservations an hour old are dropped, the new one is added; a command that is still on
        the list is not reserved again. */
    method Reserve(command: bytes, now: int) returns (ok: bool)
      requires Valid() && clock <= now
      modifies this`reservations, this`history, this`clock
      ensures Valid() && clock == now
      ensures
        var r, valid := Reservation(command, now), Validated(old(reservations), lastFlat, now);
        if valid && !Listed(old(reservations), command) then
          && history == old(history) + [r] && reservations == Recent(old(reservations), now) + [r]
          && (ok <==> Validated(reservations, lastFlat, now))
        else history == old(history) && reservations == old(reservations) && ok == valid
    {
      hide Follows, Recent, Validated;
      StillFollows(history, reservations, clock, now);
      clock := now;
      ok := Validate(now);
      if !ok || Listed(reservations, command) {
        return;
      }
      var r := Reservation(command, now);
      ReserveFollows(history, reservations, now, r);
      reservations := Recent(reservations, now);
      reservations := reservations + [r];
      history := history + [r];
      ok := Validate(now);
    }

    /** What lets a command through: the limits, on the whole history. */
    ghost predicate Allows(now: int, ignored: Option<bytes>, economics: bool)
      reads this
    {
      && now > 0 && economics && Validated(reservations, lastFlat, now)
      && !RollingLimit(Without(history, ignored), now) && !IntervalLimit(Without(history, ignored), now)
      && !(lastFlat != 0 && now - lastFlat < COOLDOWN_MS)
    }

    /** evaluate: the verdict of the rate limits is that of the whole history. `economics` stands for the
        forecast, quote and cost checks. */
    method Evaluate(now: int, ignored: Option<bytes>, economics: bool) returns (allowed: bool)
      requires Valid() && clock <= now
      ensures allowed <==> Allows(now, ignored, economics)
    {
      hide Validated, Recent, Latest, Without;
      var ok := Validate(now);
      PruningIsInvisible(history, |history| - |reservations|, now, ignored);
      var counted := Without(reservations, ignored);
      var rolling := |Recent(counted, now)| >= MAX_OPENS;
      var interval := counted != [] && now - Latest(counted) < INTERVAL_MS;
      var cooldown := lastFlat != 0 && now - lastFlat < COOLDOWN_MS;
      allowed := now > 0 && economics && ok && !rolling && !interval && !cooldown;
    }

    /** An opening: reserved only after it was allowed, at that time or later, and then exactly once. */
    method Open(command: bytes, evaluated: int, now: int, economics: bool) returns (reserved: bool)
      requires Valid() && Spaced(history) && clock <= evaluated <= now
      modifies this`reservations, this`history, this`clock
      ensures Valid() && Spaced(history) && clock <= now
      ensures
        if old(Allows(evaluated, Some(command), economics)) && !Listed(old(reservations), command) then
          && history == old(history) + [Reservation(command, now)]
          && reservations == Recent(old(reservations), now) + [Reservation(command, now)]
        else history == old(history) && reservations == old(reservations)
      ensures history != old(history) ==> lastFlat == 0 || evaluated - lastFlat >= 30 * 60 * 1000
      ensures reserved ==> Validated(reservations, lastFlat, now)
      ensures reserved <==>
        old(Allows(evaluated, Some(command), economics)) && (Named(command) || Listed(old(reservations), command))
    {
      hide Recent, Without, RollingLimit, IntervalLimit, Follows, Validated, Spaced;
      var allowed := Evaluate(evaluated, Some(command), economics);
      if !allowed {
        return false;
      }
      ghost var before, kept := history, reservations;
      StillFollows(before, kept, clock, evaluated);
      StillValidated(kept, lastFlat, evaluated, now);
      reserved := Reserve(command, now);
      if !Listed(kept, command) {
        ReservedIsSpaced(before, kept, evaluated, now, command);
        ReservedIsValid(before, kept, lastFlat, evaluated, now, command);
      }
    }
  }

  lemma StillValidated(rs: seq<Reservation>, lastFlat: int, evaluated: int, now: int)
    requires Validated(rs, lastFlat, evaluated) && evaluated <= now
    ensures Validated(rs, lastFlat, now)
  {
  }

  lemma ReservedIsSpaced(history: seq<Reservation>, rs: seq<Reservation>, evaluated: int, now: int, command: bytes)
    requires Follows(history, rs, evaluated) && Spaced(history) && evaluated <= now && !Listed(rs, command)
    requires !IntervalLimit(Without(history, Some(command)), evaluated)
    ensures Spaced(history + [Reservation(command, now)])
  {
    hide Without, IntervalLimit, Ordered;
    var cut := |history| - |rs|;
    forall i | cut <= i < |history| ensures history[i].command != command {
      assert history[i] == rs[i - cut];
    }
    SpacedMore(history, cut, evaluated, now, command);
  }

  lemma {:induction false} WithoutUnlisted(rs: seq<Reservation>, command: bytes)
    requires !Listed(rs, command)
    ensures Without(rs, Some(command)) == rs
  {
    if rs != [] {
      var n := |rs| - 1;
      WithoutUnlisted(rs[..n], command);
      assert rs == rs[..n] + [rs[n]];
    }
  }

  /** Later there is not more that is recent. */
  lemma {:induction false} RecentShrinks(rs: seq<Reservation>, evaluated: int, now: int)
    requires evaluated <= now
    ensures |Recent(rs, now)| <= |Recent(rs, evaluated)|
  {
    if rs != [] {
      RecentShrinks(rs[..|rs| - 1], evaluated, now);
    }
  }

  lemma RecentIsValid(rs: seq<Reservation>, lastFlat: int, now: int)
    requires Validated(rs, lastFlat, now) && Ordered(rs)
    ensures Validated(Recent(rs, now), lastFlat, now)
    ensures forall i :: 0 <= i < |Recent(rs, now)| ==> Recent(rs, now)[i] in rs
  {
    var k := RecentIsSuffix(rs, now);
    assert rs[..0] == [];
  }

  /** After an allowed evaluation the list has room, so exactly an unnamed command is refused. */
  lemma ReservedIsValid(history: seq<Reservation>, rs: seq<Reservation>, lastFlat: int, evaluated: int, now: int,
                        command: bytes)
    requires Follows(history, rs, evaluated) && evaluated <= now && now > 0 && !Listed(rs, command)
    requires Validated(rs, lastFlat, now) && !RollingLimit(Without(history, Some(command)), evaluated)
    ensures Validated(Recent(rs, now) + [Reservation(command, now)], lastFlat, now) <==> Named(command)
  {
    hide Without, Recent, Ordered, Validated;
    var cut := |history| - |rs|;
    PruningIsInvisible(history, cut, evaluated, Some(command));
    WithoutUnlisted(rs, command);
    RecentShrinks(rs, evaluated, now);
    SuffixIsOrdered(history, cut);
    RecentIsValid(rs, lastFlat, now);
    forall i | 0 <= i < |Recent(rs, now)| ensures Recent(rs, now)[i].command != command {
      assert Recent(rs, now)[i] in rs;
    }
    AppendedIsValid(Recent(rs, now), lastFlat, Reservation(command, now));
  }

  lemma AppendedIsValid(rs: seq<Reservation>, lastFlat: int, r: Reservation)
    requires Validated(rs, lastFlat, r.at) && |rs| < MAX_RESERVATIONS && r.at > 0
    requires forall i :: 0 <= i < |rs| ==> rs[i].command != r.command
    ensures Validated(rs + [r], lastFlat, r.at) <==> Named(r.command)
  {
    assert (rs + [r])[|rs|] == r;
  }

  lemma {:induction false} StillCounted(rs: seq<Reservation>, command: bytes, i: nat)
    requires i < |rs| && rs[i].command != command
    ensures rs[i] in Without(rs, Some(command))
    decreases |rs|
  {
    var n := |rs| - 1;
    if i < n {
      StillCounted(rs[..n], command, i);
    }
  }

  /** What was allowed at a time and is reserved then or later keeps the openings spaced. */
  lemma SpacedMore(rs: seq<Reservation>, k: nat, evaluated: int, now: int, command: bytes)
    requires Spaced(rs) && Aged(rs, k, evaluated) && evaluated <= now
    requires forall i :: k <= i < |rs| ==> rs[i].command != command
    requires !IntervalLimit(Without(rs, Some(command)), evaluated)
    ensures Spaced(rs + [Reservation(command, now)])
  {
    forall i | 0 <= i < |rs| ensures now - rs[i].at >= INTERVAL_MS {
      if i >= k {
        StillCounted(rs, command, i);
        var counted := Without(rs, Some(command));
        var j :| 0 <= j < |counted| && counted[j] == rs[i];
      }
    }
  }

  datatype Attempt = Attempt(command: bytes, evaluated: int, now: int, economics: bool)

  /** The clock never goes back. */
  predicate InTime(attempts: seq<Attempt>, clock: int) {
    forall i :: 0 <= i < |attempts| ==> NotBefore(attempts, clock, i)
  }

  predicate NotBefore(attempts: seq<Attempt>, clock: int, i: nat)
    requires i < |attempts|
  {
    (if i == 0 then clock else attempts[i - 1].now) <= attempts[i].evaluated <= attempts[i].now
  }

  /** In every run that reserves only after an allowed evaluation, openings are at least half an hour
      apart and no hour holds more than two. */
  method OpenRepeatedly(control: EntryControl, attempts: seq<Attempt>)
    requires control.Valid() && Spaced(control.history) && InTime(attempts, control.clock)
    modifies control
    ensures control.Valid() && Spaced(control.history) && old(control.history) <= control.history
    ensures forall i, j :: 0 <= i < j < |control.history| ==>
      control.history[j].at - control.history[i].at >= 30 * 60 * 1000
    ensures forall until :: |InHour(control.history, until)| <= MAX_OPENS
  {
    hide Spaced, InHour;
    for i := 0 to |attempts|
      invariant control.Valid() && Spaced(control.history) && old(control.history) <= control.history
      invariant control.clock <= if i == 0 then old(control.clock) else attempts[i - 1].now
    {
      var attempt := attempts[i];
      assert NotBefore(attempts, old(control.clock), i);
      var _ := control.Open(attempt.command, attempt.evaluated, attempt.now, attempt.economics);
    }
    HalfAnHourApart(control.history);
    forall until ensures |InHour(control.history, until)| <= MAX_OPENS {
      AtMostTwoPerHour(control.history, until);
    }
  }

  lemma HalfAnHourApart(rs: seq<Reservation>)
    requires Spaced(rs)
    ensures forall i, j :: 0 <= i < j < |rs| ==> rs[j].at - rs[i].at >= 30 * 60 * 1000
  {
  }

  /** Half an hour after the last opening, and with no cooldown, nothing but the economics is in the way. */
  lemma NextIsAllowed(control: EntryControl, now: int, command: bytes)
    requires control.Valid() && Spaced(control.history) && now > 0 && control.clock <= now && control.lastFlat == 0
    requires Validated(control.reservations, 0, now) && !Listed(control.history, command)
    requires control.history != [] ==> control.history[|control.history| - 1].at <= now - INTERVAL_MS
    ensures control.Allows(now, Some(command), true) && !Listed(control.reservations, command)
  {
    hide Recent, Without, Validated;
    var rs := control.reservations;
    NoLimit(control.history, now, command);
    var cut := |control.history| - |rs|;
    assert forall i :: 0 <= i < |rs| ==> rs[i] == control.history[cut + i];
  }

  lemma NoLimit(rs: seq<Reservation>, now: int, command: bytes)
    requires Spaced(rs) && (rs != [] ==> rs[|rs| - 1].at <= now - INTERVAL_MS)
    ensures !RollingLimit(Without(rs, Some(command)), now) && !IntervalLimit(Without(rs, Some(command)), now)
  {
    SpacedIsOrdered(rs);
    hide Without, Recent, Spaced;
    var counted := Without(rs, Some(command));
    WithoutIsPart(rs, Some(command));
    forall i | 0 <= i < |counted| ensures counted[i].at <= now - INTERVAL_MS {
      var k :| 0 <= k < |rs| && rs[k] == counted[i];
      assert rs[k].at <= rs[|rs| - 1].at;
    }
    hide Ordered;
    if RollingLimit(counted, now) {
      RollingImpliesInterval(rs, now, Some(command));
    }
  }

  /** Three allowed attempts half an hour apart, from any time on, reach the closed hour with three. */
  method OpenThree(first: int, a: bytes, b: bytes, d: bytes) returns (control: EntryControl)
    requires first > 0 && Named(a) && Named(b) && Named(d) && a != b && a != d && b != d
    ensures control.Valid() && Spaced(control.history)
    ensures control.history ==
      [Reservation(a, first), Reservation(b, first + INTERVAL_MS), Reservation(d, first + WINDOW_MS)]
    ensures |InClosedHour(control.history, first + WINDOW_MS)| == 3
  {
    hide Validated, Recent, InClosedHour, EntryControl.Allows, Follows;
    control := new EntryControl();
    EmptyIsValidated(first);
    NextIsAllowed(control, first, a);
    var one := control.Open(a, first, first, true);
    StillValidated(control.reservations, 0, first, first + INTERVAL_MS);
    NextIsAllowed(control, first + INTERVAL_MS, b);
    var two := control.Open(b, first + INTERVAL_MS, first + INTERVAL_MS, true);
    StillValidated(control.reservations, 0, first + INTERVAL_MS, first + WINDOW_MS);
    NextIsAllowed(control, first + WINDOW_MS, d);
    var three := control.Open(d, first + WINDOW_MS, first + WINDOW_MS, true);
    ClosedHourHoldsThree(control.history, first + WINDOW_MS);
    assert ThreeFrom(control.history, 0, first + WINDOW_MS);
  }

  lemma EmptyIsValidated(now: int)
    requires now >= 0
    ensures Validated([], 0, now)
  {
  }
}
