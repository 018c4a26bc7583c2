/** The journal with its own events: what is appended comes back from a replay. */
module JournalRoundTrip {

  import opened Bytes
  import opened JsonString
  import opened JsonNumber
  import opened JsonObject
  import opened JournalEvent
  import opened Replay
  import opened JournalModel
  import opened JournalRuns
  import opened JournalReplay
  import opened JournalCalls
  import opened JournalCrashes
  import ArchiveCodec
  import Journal

  // ---- A built line is one line

  predicate Visible(s: bytes) {
    forall i :: 0 <= i < |s| ==> s[i] >= 0x20
  }

  lemma TailIsVisible(s: bytes, n: nat)
    requires n <= |s| && Visible(s[..n]) && AllDigits(s[n..])
    ensures Visible(s)
  {
    assert forall i :: n <= i < |s| ==> s[i] == s[n..][i - n];
    assert forall i :: 0 <= i < n ==> s[i] == s[..n][i];
  }

  lemma NumberIsVisible(t: bytes)
    requires IsNumber(t)
    ensures Visible(t)
  {
    var p: Parts :| p.Grammatical() && p.Text() == t;
    if p.fraction != [] {
      TailIsVisible(p.fraction, 1);
    }
    if p.exponent != [] {
      TailIsVisible(p.exponent, if AllDigits(p.exponent[1..]) then 1 else 2);
    }
    JoinIsVisible(p.fraction, p.exponent);
    JoinIsVisible(p.integer, p.fraction + p.exponent);
  }

  lemma JoinIsVisible(a: bytes, b: bytes)
    requires Visible(a) && Visible(b)
    ensures Visible(a + b)
  {
  }

  lemma MemberIsVisible(m: Member)
    requires Printable(m)
    ensures Visible(PrintMember(m))
  {
    match m.field
    case Text(v) =>
      EscapedIsPrintable(v);
      assert forall i :: 0 <= i < |Escape(v)| ==> Escape(v)[i] in Escape(v);
    case Number(t) => NumberIsVisible(t);
  }

  lemma {:induction false} MembersAreVisible(ms: seq<Member>)
    requires ms != [] && forall i :: 0 <= i < |ms| ==> Printable(ms[i])
    ensures Visible(PrintMembers(ms))
  {
    hide PrintMember, Printable;
    MemberIsVisible(ms[0]);
    if |ms| == 1 {
      JoinIsVisible(PrintMember(ms[0]), [CLOSE_BRACE]);
    } else {
      MembersAreVisible(ms[1..]);
      JoinIsVisible([COMMA], PrintMembers(ms[1..]));
      JoinIsVisible(PrintMember(ms[0]), [COMMA] + PrintMembers(ms[1..]));
    }
  }

  /** A floating-point text that JsonNumber may have printed. */
  predicate NumberText(t: bytes) {
    SkipNumber(t) == Some([])
  }

  lemma NumberTextIsNumber(t: bytes)
    ensures NumberText(t) <==> IsNumber(t)
  {
    if IsNumber(t) {
      NumberScans(t, []);
      assert t + [] == t;
    }
    if NumberText(t) {
      ScannedIsNumber(t);
      assert t[..|t|] == t;
    }
  }

  /** The events that are encoded at all: a type, and finite numbers. */
  predicate Encodable(e: Event) {
    && e.eventType != []
    && NumberText(e.qty) && NumberText(e.price)
    && NumberText(e.brokerRemainingQuantity) && NumberText(e.brokerMarketCapPrice)
  }

  lemma EncodablePrints(e: Event)
    requires Encodable(e)
    ensures NumbersPrint(e)
  {
    NumberTextIsNumber(e.qty);
    NumberTextIsNumber(e.price);
    NumberTextIsNumber(e.brokerRemainingQuantity);
    NumberTextIsNumber(e.brokerMarketCapPrice);
  }

  /** An encoded event is one line without a raw newline. */
  lemma LineIsOneLine(e: Event)
    requires Encodable(e)
    ensures BuildLine(e) != [] && NoNewline(BuildLine(e))
  {
    EncodablePrints(e);
    MembersArePrintable(e);
    MembersAreVisible(MembersOf(e));
    assert Visible(BuildLine(e));
  }

  /** OmsJournal as it is used, with its own encoder and parser. */
  method Open(c: Config, critical: Event -> bool, existing: bytes) returns (j: Journal.OmsJournal<Event>)
    requires ArchiveCodec.IsDecoder(c.decode) && c.batchSize > 0
    requires c.gzip || Reopens(existing)
    ensures j.Valid() && j.View() == Opened(existing) && fresh(j)
    ensures j.c == c && j.parse == ParseLine && j.build == BuildLine && j.encodable == Encodable
      && j.critical == critical
  {
    forall e | Encodable(e) ensures BuildLine(e) != [] && NoNewline(BuildLine(e)) {
      LineIsOneLine(e);
    }
    j := new Journal.OmsJournal(c, ParseLine, BuildLine, Encodable, critical, existing);
  }

  // ---- Replay returns the events

  function AllNormalised(es: seq<Event>): seq<Event> {
    seq(|es|, i requires 0 <= i < |es| => Normalised(es[i]))
  }

  predicate AllEncodable(es: seq<Event>) {
    forall i :: 0 <= i < |es| ==> Encodable(es[i])
  }

  lemma ComesBack(e: Event, read: Event)
    requires Encodable(e) && ParseLine(BuildLine(e)) == Some(read)
    ensures read == Normalised(e)
  {
    EncodablePrints(e);
    EventRoundTrip(e);
  }

  /** What is parsed from built lines is the events they were built of, up to normalisation. */
  lemma LinesComeBack(es: seq<Event>, events: seq<Event>)
    requires AllEncodable(es) && ParsesTo(ParseLine, BuiltBy(BuildLine, es), events)
    ensures events == AllNormalised(es)
  {
    hide BuildLine, ParseLine, Encodable, Normalised;
    forall i | 0 <= i < |es| ensures events[i] == Normalised(es[i]) {
      assert BuiltBy(BuildLine, es)[i] == BuildLine(es[i]);
      ComesBack(es[i], events[i]);
    }
  }

  /** These are those two merged, each in its own order. */
  predicate Interleaves<T(==)>(all: seq<T>, a: seq<T>, b: seq<T>)
    decreases |all|
  {
    if all == [] then a == [] && b == []
    else
      var n, last := |all| - 1, all[|all| - 1];
      || (a != [] && a[|a| - 1] == last && Interleaves(all[..n], a[..|a| - 1], b))
      || (b != [] && b[|b| - 1] == last && Interleaves(all[..n], a, b[..|b| - 1]))
  }

  lemma LastBuilt(es: seq<Event>, before: seq<bytes>, line: bytes)
    requires BuiltBy(BuildLine, es) == before + [line]
    ensures es != [] && before == BuiltBy(BuildLine, es[..|es| - 1]) && line == BuildLine(es[|es| - 1])
    ensures AllNormalised(es) == AllNormalised(es[..|es| - 1]) + [Normalised(es[|es| - 1])]
  {
    hide BuildLine, Normalised;
    var m := |es| - 1;
    var built := BuiltBy(BuildLine, es);
    assert |built| == |before| + 1;
    assert built[m] == BuildLine(es[m]);
    assert before == built[..m] == BuiltBy(BuildLine, es[..m]);
  }

  /** The events of the records of a file are those that were admitted and those written past the backlog. */
  lemma {:induction false} KindsComeBack(written: seq<Entry>, events: seq<Event>, queued: seq<Event>,
                                         direct: seq<Event>)
    requires ParsesTo(ParseLine, Lines(written), events) && AllEncodable(queued) && AllEncodable(direct)
    requires QueuedLines(written) == BuiltBy(BuildLine, queued) && DirectLines(written) == BuiltBy(BuildLine, direct)
    ensures Interleaves(events, AllNormalised(queued), AllNormalised(direct))
    decreases |written|
  {
    hide BuildLine, ParseLine, Encodable, Normalised;
    if written == [] {
      assert |BuiltBy(BuildLine, queued)| == 0 && |BuiltBy(BuildLine, direct)| == 0;
    } else {
      var n := |written| - 1;
      var before := written[..n];
      assert Lines(before) == Lines(written)[..n] && Lines(written)[n] == written[n].line;
      if written[n].Direct? {
        LastBuilt(direct, DirectLines(before), written[n].line);
        KindsComeBack(before, events[..n], queued, direct[..|direct| - 1]);
        ComesBack(direct[|direct| - 1], events[n]);
        LastOfSecond(events, AllNormalised(queued), AllNormalised(direct));
      } else {
        LastBuilt(queued, QueuedLines(before), written[n].line);
        KindsComeBack(before, events[..n], queued[..|queued| - 1], direct);
        ComesBack(queued[|queued| - 1], events[n]);
        LastOfFirst(events, AllNormalised(queued), AllNormalised(direct));
      }
    }
  }

  lemma LastOfFirst<T>(all: seq<T>, a: seq<T>, b: seq<T>)
    requires all != [] && a != [] && a[|a| - 1] == all[|all| - 1] && Interleaves(all[..|all| - 1], a[..|a| - 1], b)
    ensures Interleaves(all, a, b)
  {
  }

  lemma LastOfSecond<T>(all: seq<T>, a: seq<T>, b: seq<T>)
    requires all != [] && b != [] && b[|b| - 1] == all[|all| - 1] && Interleaves(all[..|all| - 1], a, b[..|b| - 1])
    ensures Interleaves(all, a, b)
  {
  }

  // ---- Calls of a life without failures

  /** A replay after these calls returned what their answers promise: behind the events of the file as it was
      opened all the events whose calls reported success and no others, admitted ones and durable ones each in
      call order, and all of them in call order in the modes that keep it. It is refused exactly when a line of
      that file is not good or these events exceed a budget. */
  ghost predicate Returned(c: Config, critical: Event -> bool, existing: bytes, calls: seq<Call<Event>>,
                           answers: seq<Answer<Event>>, events: Option<seq<Event>>)
    requires |answers| == |calls| && Whole(c, existing)
  {
    var done, base := Succeeded(calls, answers), Held(c, existing);
    && (events.Some? <==> LinesChecked(ParseLine, c, base) && Fits(c, existing, BuiltBy(BuildLine, done)))
    && (events.Some? ==>
          && |events.value| >= |base| && ParsesTo(ParseLine, base, events.value[..|base|])
          && Interleaves(events.value[|base|..], AllNormalised(JournalCalls.Admitted(c, critical, calls, answers)),
                         AllNormalised(Durable(c, critical, calls, answers)))
          && (c.InOrder() ==> events.value[|base|..] == AllNormalised(done)))
  }

  /** The events that EncodeValidatedEventLocked encodes. */
  predicate Accepted(c: Config, e: Event) {
    Encodable(e) && |BuildLine(e)| <= c.limits.maxRecordBytes && ParseLine(BuildLine(e)).Some?
  }

  /** A call that writes past the backlog answers success exactly when its events are accepted and the storage can
      take them: always plain storage, gzip storage while its capacity is known and a member can be made. */
  ghost predicate AnsweredRight(c: Config, critical: Event -> bool, existing: bytes, calls: seq<Call<Event>>,
                                answers: seq<Answer<Event>>, i: nat)
    requires i < |calls| == |answers|
  {
    match calls[i]
    case Append(e) =>
      PastBacklog(c, critical, e) ==>
        answers[i] == Done(Accepted(c, e)
                           && (!c.gzip || (Known(existing == [], answers[..i]) && c.Stored(BuildLine(e)).Some?)))
    case AppendPair(first, second) =>
      answers[i] == PairDone(Committed) <==>
      critical(first) && Accepted(c, first) && critical(second) && Accepted(c, second)
    case _ => true
  }

  ghost predicate AsPromised(c: Config, critical: Event -> bool, existing: bytes, calls: seq<Call<Event>>,
                             answers: seq<Answer<Event>>, events: Option<seq<Event>>)
    requires |answers| == |calls| && Whole(c, existing)
  {
    && Returned(c, critical, existing, calls, answers, events)
    && forall i :: 0 <= i < |calls| ==> AnsweredRight(c, critical, existing, calls, answers, i)
  }

  /** The journal as Open makes it. */
  ghost predicate IsOurs(j: Journal.OmsJournal<Event>, c: Config, critical: Event -> bool) {
    j.c == c && j.parse == ParseLine && j.build == BuildLine && j.encodable == Encodable && j.critical == critical
  }

  /** The run of these calls, the last of them a replay, from this file, in which nothing failed; gzip storage was
      not poisoned and had nothing pending before that replay. */
  ghost predicate QuietRun(j: Journal.OmsJournal<Event>, c: Config, existing: bytes, calls: seq<Call<Event>>,
                           answers: seq<Answer<Event>>, states: seq<State>)
  {
    && ArchiveCodec.IsDecoder(c.decode) && Whole(c, existing) && AllAnswer(j, calls, answers)
    && calls != [] && calls[|calls| - 1].Replay? && |states| == |calls| + 1
    && IsRun(ParseLine, c, states, RecordedAll(j, calls, answers)) && NoCrash(RecordedAll(j, calls, answers))
    && states[0] == Opened(existing) && states[|calls|].faults == 0
    && (c.gzip ==> !states[|calls| - 1].poisoned && Backlog(states[|calls| - 1]) == [])
  }

  lemma RunReturns(j: Journal.OmsJournal<Event>, c: Config, critical: Event -> bool, existing: bytes,
                   calls: seq<Call<Event>>, answers: seq<Answer<Event>>, states: seq<State>)
    requires IsOurs(j, c, critical) && QuietRun(j, c, existing, calls, answers, states)
    ensures answers[|calls| - 1].Events?
    ensures Returned(c, critical, existing, calls, answers, answers[|calls| - 1].events)
  {
    hide Journal.OmsJournal.Accepts, BuildLine, ParseLine, Encodable, Normalised, IsRun, NoCrash, Interleaves,
         QueuedBy, WrittenBy, AddedBy, QueuedLines, DirectLines, ParsesTo, Fits, Whole, Held, LinesChecked;
    var ops := RecordedAll(j, calls, answers);
    var n := |calls| - 1;
    assert ops[n] == Recorded(j, calls[n], answers[n]);
    RecordedLines(j, calls, answers);
    ReplayDelivers(ParseLine, c, existing, states, ops);
    var done := Succeeded(calls, answers);
    var queued, direct := JournalCalls.Admitted(c, critical, calls, answers), Durable(c, critical, calls, answers);
    KindsPartition(c, critical, calls, answers);
    AcceptedAreEncodable(j, c, critical, done);
    PartsOf(queued, direct, done);
    var events, base := answers[n].events, Held(c, existing);
    if events.Some? {
      ParsesInParts(ParseLine, base, Lines(states[n + 1].written), events.value);
      KindsComeBack(states[n + 1].written, events.value[|base|..], queued, direct);
      if c.InOrder() {
        LinesComeBack(done, events.value[|base|..]);
      }
    }
  }

  lemma ParsesInParts<E(!new)>(parse: Parser<E>, a: seq<bytes>, b: seq<bytes>, events: seq<E>)
    requires ParsesTo(parse, a + b, events)
    ensures |events| >= |a| && ParsesTo(parse, a, events[..|a|]) && ParsesTo(parse, b, events[|a|..])
  {
    assert forall i :: 0 <= i < |a| ==> (a + b)[i] == a[i];
    assert forall i :: 0 <= i < |b| ==> (a + b)[|a| + i] == b[i];
  }

  lemma RunAnswers(j: Journal.OmsJournal<Event>, c: Config, critical: Event -> bool, existing: bytes,
                   calls: seq<Call<Event>>, answers: seq<Answer<Event>>, states: seq<State>, i: nat)
    requires IsOurs(j, c, critical) && QuietRun(j, c, existing, calls, answers, states) && i < |calls|
    ensures AnsweredRight(c, critical, existing, calls, answers, i)
  {
    hide BuildLine, ParseLine, Encodable, IsRun, NoCrash, RecordedAll, Whole, KnownAfter, Known;
    var ops := RecordedAll(j, calls, answers);
    RecordedAt(j, calls, answers, |calls| - 1);
    ReplayIsSmooth(ParseLine, c, existing, states, ops);
    AnswersExactly(ParseLine, c, states, ops, i);
    RecordedAt(j, calls, answers, i);
    KnownFromAnswers(j, calls[..i], answers[..i], existing == []);
    assert Answers(j, calls[i], answers[i]);
  }

  lemma AcceptedAreEncodable(j: Journal.OmsJournal<Event>, c: Config, critical: Event -> bool, es: seq<Event>)
    requires IsOurs(j, c, critical) && forall e :: e in es ==> j.Accepts(e)
    ensures AllEncodable(es)
  {
    hide BuildLine, ParseLine, Encodable;
    forall i | 0 <= i < |es| ensures Encodable(es[i]) {
      assert j.Accepts(es[i]);
    }
  }

  lemma PartsOf(a: seq<Event>, b: seq<Event>, all: seq<Event>)
    requires multiset(a) + multiset(b) == multiset(all) && AllEncodable(all)
    ensures AllEncodable(a) && AllEncodable(b)
  {
    hide Encodable;
    forall i | 0 <= i < |a| ensures Encodable(a[i]) {
      assert a[i] in multiset(a);
      assert a[i] in multiset(all);
    }
    forall i | 0 <= i < |b| ensures Encodable(b[i]) {
      assert b[i] in multiset(b);
      assert b[i] in multiset(all);
    }
  }

  /** From a plain file that can be reopened or any archive of complete lines, any calls and then a replay: when
      nothing failed on the way, and gzip storage was idle before the replay, the events that come back are those
      of the file and those whose calls reported success. */
  method AppendAndReplay(c: Config, critical: Event -> bool, existing: bytes, calls: seq<Call<Event>>)
    returns (j: Journal.OmsJournal<Event>, answers: seq<Answer<Event>>, idle: bool, events: Option<seq<Event>>)
    requires ArchiveCodec.IsDecoder(c.decode) && c.batchSize > 0 && (c.gzip || Reopens(existing))
    ensures j.Valid() && |answers| == |calls|
    ensures Whole(c, existing) && j.faults == 0 && (c.gzip ==> idle) ==>
      AsPromised(c, critical, existing, calls, answers, events)
  {
    hide Inv, IsRun, NoCrash, RecordedAll, AsPromised, BuildLine, ParseLine, Encodable, Answers, Recorded, Whole,
      JournalRuns.Step,
         AllAnswer;
    j := Open(c, critical, existing);
    ghost var states;
    answers, states := PerformAll(j, calls);
    AnswersFit(j, calls, answers);
    idle := !j.poisoned && j.buffered + j.queue == [];
    ghost var before := j.View();
    var answer := Perform(j, Call.Replay);
    ReplayAnswers(j, answer);
    events := answer.events;
    RecordedMore(j, calls, answers, Call.Replay, answer);
    RunGrows(ParseLine, c, states, RecordedAll(j, calls, answers), Recorded(j, Call.Replay, answer), j.View());
    if Whole(c, existing) && j.faults == 0 && (c.gzip ==> idle) {
      LifePromises(j, c, critical, existing, calls, answers, answer, states + [j.View()]);
    }
  }

  lemma AnswersFit<E(!new)>(j: Journal.OmsJournal<E>, calls: seq<Call<E>>, answers: seq<Answer<E>>)
    requires AllAnswer(j, calls, answers)
    ensures |answers| == |calls|
  {
  }

  lemma LifePromises(j: Journal.OmsJournal<Event>, c: Config, critical: Event -> bool, existing: bytes,
                     calls: seq<Call<Event>>, answers: seq<Answer<Event>>, last: Answer<Event>, states: seq<State>)
    requires |answers| == |calls| && IsOurs(j, c, critical)
    requires QuietRun(j, c, existing, calls + [Call.Replay], answers + [last], states)
    ensures last.Events? && AsPromised(c, critical, existing, calls, answers, last.events)
  {
    hide Returned, AnsweredRight, Whole, AllAnswer, IsRun, NoCrash;
    RunReturns(j, c, critical, existing, calls + [Call.Replay], answers + [last], states);
    AddsNoSuccess(c, critical, existing, calls, answers, last);
    forall i | 0 <= i < |calls| ensures AnsweredRight(c, critical, existing, calls, answers, i) {
      RunAnswers(j, c, critical, existing, calls + [Call.Replay], answers + [last], states, i);
      SameAnswer(c, critical, existing, calls, answers, last, i);
    }
  }

  lemma SameAnswer(c: Config, critical: Event -> bool, existing: bytes, calls: seq<Call<Event>>,
                   answers: seq<Answer<Event>>, last: Answer<Event>, i: nat)
    requires i < |calls| == |answers|
    ensures AnsweredRight(c, critical, existing, calls + [Call.Replay], answers + [last], i)
         == AnsweredRight(c, critical, existing, calls, answers, i)
  {
    assert (answers + [last])[..i] == answers[..i];
  }

  lemma ReplayAnswers<E(!new)>(j: Journal.OmsJournal<E>, answer: Answer<E>)
    requires Answers(j, Call.Replay, answer)
    ensures answer.Events?
  {
  }

  lemma AddsNoSuccess(c: Config, critical: Event -> bool, existing: bytes, calls: seq<Call<Event>>,
                      answers: seq<Answer<Event>>, last: Answer<Event>)
    requires |answers| == |calls| && Whole(c, existing) && last.Events?
    ensures Returned(c, critical, existing, calls + [Call.Replay], answers + [last], last.events)
         == Returned(c, critical, existing, calls, answers, last.events)
  {
    hide BuildLine, Normalised, Interleaves, Whole, Fits, Held, LinesChecked;
    var more, given := calls + [Call.Replay], answers + [last];
    assert more[..|calls|] == calls && given[..|calls|] == answers;
    assert Succeeded(more, given) == Succeeded(calls, answers);
    assert JournalCalls.Admitted(c, critical, more, given) == JournalCalls.Admitted(c, critical, calls, answers);
    assert Durable(c, critical, more, given) == Durable(c, critical, calls, answers);
  }

  // ---- Calls of many lives

  /** Of each life, the calls that were answered before it ended. */
  function DurableInAll(c: Config, critical: Event -> bool, lives: seq<seq<Call<Event>>>,
                        answers: seq<seq<Answer<Event>>>)
    : seq<Event>
    requires |answers| <= |lives| && forall i :: 0 <= i < |answers| ==> |answers[i]| == |lives[i]|
  {
    if answers == [] then []
    else
      var n := |answers| - 1;
      DurableInAll(c, critical, lives, answers[..n]) + Durable(c, critical, lives[n], answers[n])
  }

  /** One life of the journal on a file: any calls, then a crash that keeps the synced octets at least. */
  method Live(c: Config, critical: Event -> bool, file: bytes, calls: seq<Call<Event>>, ghost some: seq<bytes>)
    returns (answers: seq<Answer<Event>>, left: bytes)
    requires ArchiveCodec.IsDecoder(c.decode) && c.batchSize > 0 && !c.gzip
    requires Reopens(file) && GoodFile(ParseLine, c, file) && Among(some, SplitStream(file).lines)
    ensures |answers| == |calls|
    ensures Among(some + BuiltBy(BuildLine, Durable(c, critical, calls, answers)), SplitStream(left).lines)
    ensures Reopens(left) ==> GoodFile(ParseLine, c, left)
    ensures AllEncodable(Durable(c, critical, calls, answers))
  {
    hide Inv, IsRun, NoCrash, RecordedAll, BuildLine, ParseLine, Encodable, Among, GoodFile, SplitStream, Durable,
         Reopens, BuiltBy;
    ReopensMeans(file);
    var j := Open(c, critical, file);
    ghost var states;
    answers, states := PerformAll(j, calls);
    UnpoisonedIsWhole(ParseLine, c, j.View());
    var kept :| j.synced <= kept <= |j.file|;
    left := j.file[..kept];
    LifeGives(j, c, critical, file, calls, answers, states, some, left);
  }

  lemma LifeGives(j: Journal.OmsJournal<Event>, c: Config, critical: Event -> bool, file: bytes,
                  calls: seq<Call<Event>>,
                  answers: seq<Answer<Event>>, states: seq<State>, some: seq<bytes>, left: bytes)
    requires IsOurs(j, c, critical) && ArchiveCodec.IsDecoder(c.decode) && !c.gzip && AllAnswer(j, calls, answers)
    requires |states| == |calls| + 1 && states[0] == Opened(file)
    requires IsRun(ParseLine, c, states, RecordedAll(j, calls, answers)) && NoCrash(RecordedAll(j, calls, answers))
    requires GoodFile(ParseLine, c, file) && Among(some, SplitStream(file).lines)
    requires left <= states[|calls|].file && states[|calls|].synced <= |left|
    ensures Among(some + BuiltBy(BuildLine, Durable(c, critical, calls, answers)), SplitStream(left).lines)
    ensures Reopens(left) ==> GoodFile(ParseLine, c, left)
    ensures AllEncodable(Durable(c, critical, calls, answers))
  {
    hide IsRun, NoCrash, RecordedAll, BuildLine, ParseLine, Encodable, Among, GoodFile, SplitStream, AllAnswer, Durable,
         Reopens, BuiltBy;
    LifeKeeps(c, file, states, RecordedAll(j, calls, answers), some, left);
    RecordedLines(j, calls, answers);
    DurableAreEncodable(j, c, critical, calls, answers);
  }

  lemma LifeKeeps(c: Config, file: bytes, states: seq<State>, ops: seq<Op<Event>>, some: seq<bytes>, left: bytes)
    requires ArchiveCodec.IsDecoder(c.decode) && !c.gzip && |states| == |ops| + 1 && IsRun(ParseLine, c, states, ops)
    requires NoCrash(ops) && states[0] == Opened(file)
    requires GoodFile(ParseLine, c, file) && Among(some, SplitStream(file).lines)
    requires left <= states[|ops|].file && states[|ops|].synced <= |left|
    ensures Among(some + WrittenBy(ops), SplitStream(left).lines)
    ensures Reopens(left) ==> GoodFile(ParseLine, c, left)
  {
    hide Inv, IsRun, ParseLine, Among, SplitStream, Checked, WrittenBy;
    var t := states[|ops|];
    assert file[..|file|] == file;
    CommittedStay(ParseLine, c, states, ops, some);
    RunKeeps(ParseLine, c, states, ops, |ops|);
    assert t.file[..t.synced] <= left;
    LinesOfPrefix(t.file[..t.synced], left);
    AmongMore(some + WrittenBy(ops), SyncedLines(t), SplitStream(left).lines);
    CutIsGood(ParseLine, c, t, left);
    ReopensMeans(left);
  }

  lemma DurableAreEncodable(j: Journal.OmsJournal<Event>, c: Config, critical: Event -> bool, calls: seq<Call<Event>>,
                            answers: seq<Answer<Event>>)
    requires IsOurs(j, c, critical) && AllAnswer(j, calls, answers)
    ensures AllEncodable(Durable(c, critical, calls, answers))
  {
    hide BuildLine, ParseLine, Encodable, Answers;
    RecordedLines(j, calls, answers);
    KindsPartition(c, critical, calls, answers);
    AcceptedAreEncodable(j, c, critical, Succeeded(calls, answers));
    PartsOf(JournalCalls.Admitted(c, critical, calls, answers), Durable(c, critical, calls, answers),
            Succeeded(calls, answers));
  }

  /** Any number of lives, each with any calls and failures and ended by a crash, as long as the file that is
      left can be reopened: the durable events of all of them are among its lines, in call order. */
  method LiveAll(c: Config, critical: Event -> bool, lives: seq<seq<Call<Event>>>)
    returns (answers: seq<seq<Answer<Event>>>, left: bytes)
    requires ArchiveCodec.IsDecoder(c.decode) && c.batchSize > 0 && !c.gzip
    ensures |answers| <= |lives| && forall i :: 0 <= i < |answers| ==> |answers[i]| == |lives[i]|
    ensures |answers| < |lives| ==> !Reopens(left)
    ensures Reopens(left) ==> GoodFile(ParseLine, c, left)
    ensures
      var durable := DurableInAll(c, critical, lives, answers);
      AllEncodable(durable) && Among(BuiltBy(BuildLine, durable), SplitStream(left).lines)
  {
    hide BuildLine, ParseLine, Encodable, Among, GoodFile, SplitStream, Durable, BuiltBy, Reopens;
    answers, left := [], [];
    NoLife(c);
    while |answers| < |lives| && Reopens(left)
      invariant |answers| <= |lives| && forall i :: 0 <= i < |answers| ==> |answers[i]| == |lives[i]|
      invariant Reopens(left) ==> GoodFile(ParseLine, c, left)
      invariant AllEncodable(DurableInAll(c, critical, lives, answers))
      invariant Among(BuiltBy(BuildLine, DurableInAll(c, critical, lives, answers)), SplitStream(left).lines)
      decreases |lives| - |answers|
    {
      ghost var durable := DurableInAll(c, critical, lives, answers);
      var n := |answers|;
      var given, next := Live(c, critical, left, lives[n], BuiltBy(BuildLine, durable));
      BuiltJoins(BuildLine, durable, Durable(c, critical, lives[n], given));
      assert (answers + [given])[..n] == answers;
      answers, left := answers + [given], next;
    }
  }

  lemma NoLife(c: Config)
    ensures Reopens([]) && GoodFile(ParseLine, c, []) && Among(BuiltBy(BuildLine, []), SplitStream([]).lines)
  {
  }

  lemma {:induction false} AmongComesBack(es: seq<Event>, lines: seq<bytes>, events: seq<Event>)
    requires Among(BuiltBy(BuildLine, es), lines) && ParsesTo(ParseLine, lines, events) && AllEncodable(es)
    ensures Among(AllNormalised(es), events)
    decreases |lines|
  {
    hide BuildLine, ParseLine, Encodable, Normalised;
    if es != [] {
      var m, n := |es| - 1, |lines| - 1;
      var built := BuiltBy(BuildLine, es);
      if built[m] == lines[n] && Among(built[..m], lines[..n]) {
        assert built[..m] == BuiltBy(BuildLine, es[..m]);
        AmongComesBack(es[..m], lines[..n], events[..n]);
        ComesBack(es[m], events[n]);
        assert AllNormalised(es)[..m] == AllNormalised(es[..m]);
      } else {
        AmongComesBack(es, lines[..n], events[..n]);
      }
    }
  }

  /** After any number of lives ended by crashes, when the file can be reopened, a replay returns every
      event whose call answered that it is durable, in call order. When nothing fails in the replay it is
      refused exactly when the file exceeds a budget. */
  method CrashAndReplay(c: Config, critical: Event -> bool, lives: seq<seq<Call<Event>>>)
    returns (answers: seq<seq<Answer<Event>>>, left: bytes, j: Journal.OmsJournal?<Event>, events: Option<seq<Event>>)
    requires ArchiveCodec.IsDecoder(c.decode) && c.batchSize > 0 && !c.gzip
    ensures |answers| <= |lives| && forall i :: 0 <= i < |answers| ==> |answers[i]| == |lives[i]|
    ensures j != null <==> Reopens(left)
    ensures j != null ==> |answers| == |lives|
    ensures events.Some? ==>
      && ParsesTo(ParseLine, SplitStream(left).lines, events.value)
      && Among(AllNormalised(DurableInAll(c, critical, lives, answers)), events.value)
    ensures j != null && j.faults == 0 ==>
      (events.Some? <==> |left| <= c.limits.maxBytes && |SplitStream(left).lines| <= c.limits.maxRecords)
  {
    hide Inv, ReplayStep, BuildLine, ParseLine, Encodable, Among, GoodFile, SplitStream, ParsesTo, DurableInAll,
      BuiltBy, Reopens;
    answers, left := LiveAll(c, critical, lives);
    j, events := null, None;
    if Reopens(left) {
      ReopensMeans(left);
      j := Open(c, critical, left);
      events := j.Replay();
      ReplayAfresh(c, left, j.View(), events);
      if events.Some? {
        AmongComesBack(DurableInAll(c, critical, lives, answers), SplitStream(left).lines, events.value);
      }
    }
  }

  lemma ReplayAfresh(c: Config, file: bytes, t: State, events: Option<seq<Event>>)
    requires ArchiveCodec.IsDecoder(c.decode) && !c.gzip && GoodFile(ParseLine, c, file)
    requires Inv(ParseLine, c, t) && ReplayStep(ParseLine, c, Opened(file), t, events)
    ensures events.Some? || t.faults == 0 ==> t.file == file
    ensures events.Some? ==> ParsesTo(ParseLine, SplitStream(file).lines, events.value)
    ensures t.faults == 0 ==>
      (events.Some? <==> |file| <= c.limits.maxBytes && |SplitStream(file).lines| <= c.limits.maxRecords)
  {
    hide ParseLine, GoodFile, SplitStream, ParsesTo, AllChecked, CapacityExact, BacklogExact, Replayable, JudgeStream;
    ReplayAdded(ParseLine, c, file, t, events);
    assert file + [] + [] == file;
    ReplayGives(ParseLine, c, Opened(file), t, events);
  }

  /** A replay of a journal just opened writes nothing. */
  lemma ReplayAdded<E(!new)>(parse: Parser<E>, c: Config, file: bytes, t: State, events: Option<seq<E>>)
    requires ArchiveCodec.IsDecoder(c.decode) && ReplayStep(parse, c, Opened(file), t, events)
    ensures t.base == file && t.written == []
  {
    hide Replayable, JudgeStream;
  }
}
