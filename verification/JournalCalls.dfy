/** Calls on the journal and the answers they gave, tied to the run they took it through. */
module JournalCalls {

  import opened Bytes
  import opened Replay
  import opened JournalModel
  import opened JournalRuns
  import opened JournalReplay
  import ArchiveCodec
  import Journal

  datatype Call<+E> = Append(e: E) | AppendPair(first: E, second: E) | Flush | Replay

  datatype Answer<+E> = Done(ok: bool) | PairDone(result: PairResult) | Events(events: Option<seq<E>>)

  predicate AcceptsPair<E(!new)>(j: Journal.OmsJournal<E>, first: E, second: E) {
    j.critical(first) && j.Accepts(first) && j.critical(second) && j.Accepts(second)
  }

  /** Whether this is a possible answer to this call: a call that is turned down reports no success. */
  predicate Answers<E(!new)>(j: Journal.OmsJournal<E>, call: Call<E>, answer: Answer<E>) {
    match call
    case Append(e) => answer.Done? && (answer.ok ==> j.Accepts(e))
    case AppendPair(first, second) => answer.PairDone? && (answer.result == Committed ==> AcceptsPair(j, first, second))
    case Flush => answer.Done?
    case Replay => answer.Events?
  }

  /** The step of a run that a call with this answer is. */
  function Recorded<E(!new)>(j: Journal.OmsJournal<E>, call: Call<E>, answer: Answer<E>): Op<E>
    requires Answers(j, call, answer)
  {
    match call
    case Append(e) =>
      if j.Accepts(e) then Appended(j.build(e), j.critical(e) && j.c.syncCritical, answer.ok) else Declined
    case AppendPair(first, second) =>
      if AcceptsPair(j, first, second) then Paired(j.build(first), j.build(second), answer.result) else Declined
    case Flush => Flushed(answer.ok)
    case Replay => Replayed(answer.events)
  }

  predicate AllAnswer<E(!new)>(j: Journal.OmsJournal<E>, calls: seq<Call<E>>, answers: seq<Answer<E>>) {
    |answers| == |calls| && forall i :: 0 <= i < |calls| ==> Answers(j, calls[i], answers[i])
  }

  function RecordedAll<E(!new)>(j: Journal.OmsJournal<E>, calls: seq<Call<E>>, answers: seq<Answer<E>>): (r: seq<Op<E>>)
    requires AllAnswer(j, calls, answers)
    ensures |r| == |calls|
  {
    if calls == [] then []
    else
      var n := |calls| - 1;
      RecordedAll(j, calls[..n], answers[..n]) + [Recorded(j, calls[n], answers[n])]
  }

  /** Every call, whatever fails in it, is the step of a run that its answer tells. */
  method Perform<E(!new)>(j: Journal.OmsJournal<E>, call: Call<E>) returns (answer: Answer<E>)
    requires j.Valid()
    modifies j
    ensures j.Valid() && Answers(j, call, answer)
    ensures Step(j.parse, j.c, old(j.View()), Recorded(j, call, answer), j.View())
  {
    hide Inv, AppendStep, PairStep, FlushStep, ReplayStep;
    match call
    case Append(e) =>
      var ok := j.Append(e);
      answer := Done(ok);
    case AppendPair(first, second) =>
      var result := j.AppendDurablePair(first, second);
      answer := PairDone(result);
    case Flush =>
      var ok := j.FlushQueued();
      answer := Done(ok);
    case Replay =>
      var events := j.Replay();
      answer := Events(events);
  }

  /** Every series of calls is a run whose steps are the calls with their answers. */
  method PerformAll<E(!new)>(j: Journal.OmsJournal<E>, calls: seq<Call<E>>)
    returns (answers: seq<Answer<E>>, ghost states: seq<State>)
    requires j.Valid()
    modifies j
    ensures j.Valid() && AllAnswer(j, calls, answers)
    ensures IsRun(j.parse, j.c, states, RecordedAll(j, calls, answers)) && |states| == |calls| + 1
    ensures NoCrash(RecordedAll(j, calls, answers))
    ensures states[0] == old(j.View()) && states[|calls|] == j.View()
  {
    hide Inv, Step, Answers, Recorded, RecordedAll, AllAnswer, IsRun, NoCrash;
    answers, states := [], [j.View()];
    RunStarts(j.parse, j.c, j.View());
    NothingRecorded(j);
    for i := 0 to |calls|
      invariant j.Valid() && AllAnswer(j, calls[..i], answers)
      invariant IsRun(j.parse, j.c, states, RecordedAll(j, calls[..i], answers)) && |states| == i + 1
      invariant NoCrash(RecordedAll(j, calls[..i], answers))
      invariant states[0] == old(j.View()) && states[i] == j.View()
    {
      ghost var before := RecordedAll(j, calls[..i], answers);
      var answer := Perform(j, calls[i]);
      RecordedMore(j, calls[..i], answers, calls[i], answer);
      RunGrows(j.parse, j.c, states, before, Recorded(j, calls[i], answer), j.View());
      assert calls[..i + 1] == calls[..i] + [calls[i]];
      answers, states := answers + [answer], states + [j.View()];
    }
    assert calls[..|calls|] == calls;
  }

  lemma NothingRecorded<E(!new)>(j: Journal.OmsJournal<E>)
    ensures AllAnswer(j, [], []) && RecordedAll(j, [], []) == []
  {
  }

  lemma RecordedMore<E(!new)>(j: Journal.OmsJournal<E>, calls: seq<Call<E>>, answers: seq<Answer<E>>,
                              call: Call<E>, answer: Answer<E>)
    requires AllAnswer(j, calls, answers) && Answers(j, call, answer)
    ensures AllAnswer(j, calls + [call], answers + [answer])
    ensures RecordedAll(j, calls + [call], answers + [answer]) ==
      RecordedAll(j, calls, answers) + [Recorded(j, call, answer)]
    ensures NoCrash(RecordedAll(j, calls, answers)) ==> NoCrash(RecordedAll(j, calls + [call], answers + [answer]))
  {
    assert (calls + [call])[..|calls|] == calls && (answers + [answer])[..|calls|] == answers;
  }

  lemma {:induction false} RecordedAt<E(!new)>(j: Journal.OmsJournal<E>, calls: seq<Call<E>>, answers: seq<Answer<E>>,
                                               i: nat)
    requires AllAnswer(j, calls, answers) && i < |calls|
    ensures RecordedAll(j, calls, answers)[i] == Recorded(j, calls[i], answers[i])
    ensures RecordedAll(j, calls, answers)[..i] == RecordedAll(j, calls[..i], answers[..i])
    decreases |calls|
  {
    hide Answers, Recorded;
    var n := |calls| - 1;
    var before := RecordedAll(j, calls[..n], answers[..n]);
    if i < n {
      RecordedAt(j, calls[..n], answers[..n], i);
      assert calls[..n][..i] == calls[..i] && answers[..n][..i] == answers[..i];
      assert RecordedAll(j, calls, answers)[..i] == before[..i];
    } else {
      assert RecordedAll(j, calls, answers)[..i] == before;
    }
  }

  /** Whether gzip storage knows its capacity: the last replay decides. */
  function Known<E>(known: bool, answers: seq<Answer<E>>): bool {
    if answers == [] then known
    else
      var answer := answers[|answers| - 1];
      if answer.Events? then answer.events.Some? else Known(known, answers[..|answers| - 1])
  }

  lemma {:induction false} KnownFromAnswers<E(!new)>(j: Journal.OmsJournal<E>, calls: seq<Call<E>>,
                                                     answers: seq<Answer<E>>, known: bool)
    requires AllAnswer(j, calls, answers)
    ensures KnownAfter(known, RecordedAll(j, calls, answers)) == Known(known, answers)
  {
    if calls != [] {
      var n := |calls| - 1;
      KnownFromAnswers(j, calls[..n], answers[..n], known);
      var ops := RecordedAll(j, calls, answers);
      assert ops[..n] == RecordedAll(j, calls[..n], answers[..n]) && ops[n] == Recorded(j, calls[n], answers[n]);
    }
  }

  // ---- The events of the calls that reported success

  /** Whether an event is written past the backlog. */
  predicate PastBacklog<E>(c: Config, critical: E -> bool, e: E) {
    critical(e) && c.syncCritical
  }

  function SucceededOne<E>(call: Call<E>, answer: Answer<E>): seq<E> {
    if call.Append? && answer == Done(true) then [call.e]
    else if call.AppendPair? && answer == PairDone(Committed) then [call.first, call.second]
    else []
  }

  /** The events of the calls that reported success, in call order. */
  function Succeeded<E>(calls: seq<Call<E>>, answers: seq<Answer<E>>): seq<E>
    requires |answers| == |calls|
  {
    if calls == [] then []
    else
      var n := |calls| - 1;
      Succeeded(calls[..n], answers[..n]) + SucceededOne(calls[n], answers[n])
  }

  /** Those of them that a true or Committed promises to be durable. */
  function Durable<E>(c: Config, critical: E -> bool, calls: seq<Call<E>>, answers: seq<Answer<E>>): seq<E>
    requires |answers| == |calls|
  {
    if calls == [] then []
    else
      var n := |calls| - 1;
      Durable(c, critical, calls[..n], answers[..n]) + DurableOne(c, critical, calls[n], answers[n])
  }

  function DurableOne<E>(c: Config, critical: E -> bool, call: Call<E>, answer: Answer<E>): seq<E> {
    if call.Append? && !PastBacklog(c, critical, call.e) then [] else SucceededOne(call, answer)
  }

  /** The others, which were admitted to the backlog. */
  function Admitted<E>(c: Config, critical: E -> bool, calls: seq<Call<E>>, answers: seq<Answer<E>>): seq<E>
    requires |answers| == |calls|
  {
    if calls == [] then []
    else
      var n := |calls| - 1;
      Admitted(c, critical, calls[..n], answers[..n]) + AdmittedOne(c, critical, calls[n], answers[n])
  }

  function AdmittedOne<E>(c: Config, critical: E -> bool, call: Call<E>, answer: Answer<E>): seq<E> {
    if call.Append? && !PastBacklog(c, critical, call.e) then SucceededOne(call, answer) else []
  }

  function BuiltBy<E>(build: E -> bytes, es: seq<E>): seq<bytes> {
    seq(|es|, i requires 0 <= i < |es| => build(es[i]))
  }

  lemma BuiltJoins<E>(build: E -> bytes, a: seq<E>, b: seq<E>)
    ensures BuiltBy(build, a + b) == BuiltBy(build, a) + BuiltBy(build, b)
  {
  }

  lemma RecordedOne<E(!new)>(j: Journal.OmsJournal<E>, call: Call<E>, answer: Answer<E>)
    requires Answers(j, call, answer)
    ensures
      var op := Recorded(j, call, answer);
      && QueuedByOne(op) == BuiltBy(j.build, AdmittedOne(j.c, j.critical, call, answer))
      && WrittenByOne(op) == BuiltBy(j.build, DurableOne(j.c, j.critical, call, answer))
      && AddedByOne(op) == BuiltBy(j.build, SucceededOne(call, answer))
    ensures forall e :: e in SucceededOne(call, answer) ==> j.Accepts(e)
  {
  }

  /** The lines of a run are those of the events whose calls reported success. */
  lemma {:induction false} RecordedLines<E(!new)>(j: Journal.OmsJournal<E>, calls: seq<Call<E>>,
                                                  answers: seq<Answer<E>>)
    requires AllAnswer(j, calls, answers)
    ensures
      var ops := RecordedAll(j, calls, answers);
      && QueuedBy(ops) == BuiltBy(j.build, Admitted(j.c, j.critical, calls, answers))
      && WrittenBy(ops) == BuiltBy(j.build, Durable(j.c, j.critical, calls, answers))
      && AddedBy(ops) == BuiltBy(j.build, Succeeded(calls, answers))
    ensures forall e :: e in Succeeded(calls, answers) ==> j.Accepts(e)
  {
    hide Answers, Recorded, QueuedByOne, WrittenByOne, AddedByOne, DurableOne, AdmittedOne, SucceededOne;
    if calls != [] {
      var n := |calls| - 1;
      var before, given := calls[..n], answers[..n];
      RecordedLines(j, before, given);
      RecordedOne(j, calls[n], answers[n]);
      var ops := RecordedAll(j, calls, answers);
      assert ops[..|ops| - 1] == RecordedAll(j, before, given);
      BuiltJoins(j.build, Admitted(j.c, j.critical, before, given), AdmittedOne(j.c, j.critical, calls[n], answers[n]));
      BuiltJoins(j.build, Durable(j.c, j.critical, before, given), DurableOne(j.c, j.critical, calls[n], answers[n]));
      BuiltJoins(j.build, Succeeded(before, given), SucceededOne(calls[n], answers[n]));
    }
  }

  /** The admitted and the durable events are those of the successful calls, none besides. */
  lemma {:induction false} KindsPartition<E>(c: Config, critical: E -> bool, calls: seq<Call<E>>,
                                             answers: seq<Answer<E>>)
    requires |answers| == |calls|
    ensures multiset(Admitted(c, critical, calls, answers)) + multiset(Durable(c, critical, calls, answers))
         == multiset(Succeeded(calls, answers))
  {
    hide SucceededOne;
    if calls != [] {
      var n := |calls| - 1;
      KindsPartition(c, critical, calls[..n], answers[..n]);
    }
  }
}
