/** Reading a journal snapshot: plain octets or a series of gzip members (section 2.2 of RFC 1952),
    handed on in bounded chunks to the record collector. Inflating is an abstract step that may
    consume and produce as much or as little as it likes. */
module ArchiveCodec {

  import opened Bytes
  import opened Replay

  const CHUNK: nat := 8192
  const MAX_MEMBERS: nat := 1_000_000

  // ---- The collector of Replay

  function Run<E>(limits: Limits, events: seq<E>, pending: bytes, run: bytes): Scan<E> {
    if |pending| + |run| > limits.maxRecordBytes then Refused(RecordByteLimit) else Collecting(events, pending + run)
  }

  class Collector<E> {
    const parse: Parser<E>
    const limits: Limits
    var events: seq<E>
    var pending: bytes
    var refusal: Option<Reason>

    ghost predicate Valid()
      reads this
    {
      |pending| <= limits.maxRecordBytes
    }

    ghost function State(): Scan<E>
      reads this
    {
      if refusal.Some? then Refused(refusal.value) else Collecting(events, pending)
    }

    constructor (parse: Parser<E>, limits: Limits)
      ensures Valid() && this.parse == parse && this.limits == limits && State() == Collecting([], [])
    {
      this.parse := parse;
      this.limits := limits;
      events := [];
      pending := [];
      refusal := None;
    }

    /** The `collect` callback: records are cut at newlines, the pending part is bounded before it grows. */
    method Collect(buffer: bytes) returns (ok: bool)
      requires Valid() && refusal.None?
      modifies this
      ensures Valid() && State() == Feed(parse, limits, old(State()), buffer)
      ensures ok == State().Collecting?
    {
      hide Feed, FeedByte;
      ghost var start := State();
      var begin := 0;
      var i := 0;
      NothingFed(parse, limits, start, buffer);
      while i < |buffer|
        invariant 0 <= begin <= i <= |buffer| && Valid() && refusal.None?
        invariant Feed(parse, limits, start, buffer[..i]) == Run(limits, events, pending, buffer[begin..i])
      {
        FeedMore(parse, limits, start, buffer, i);
        if buffer[i] != LF {
          RunGrows(parse, limits, events, pending, buffer[begin..i], buffer[i]);
          assert buffer[begin..i + 1] == buffer[begin..i] + [buffer[i]];
        } else {
          var cut := Cut(buffer[begin..i]);
          if !cut {
            RefusedStays(parse, limits, start, buffer, i + 1);
            return false;
          }
          begin := i + 1;
        }
        i := i + 1;
      }
      assert buffer[..i] == buffer;
      if |buffer| - begin > limits.maxRecordBytes - |pending| {
        refusal := Some(RecordByteLimit);
        return false;
      }
      pending := pending + buffer[begin..];
      return true;
    }

    /** A newline ends the pending record, which must be bounded, within the count, and readable. */
    method Cut(run: bytes) returns (ok: bool)
      requires Valid() && refusal.None?
      modifies this
      ensures Valid() && State() == FeedByte(parse, limits, Run(limits, old(events), old(pending), run), LF)
      ensures ok == State().Collecting? == refusal.None? && (ok ==> pending == [])
    {
      if |run| > limits.maxRecordBytes - |pending| {
        refusal := Some(RecordByteLimit);
        return false;
      }
      pending := pending + run;
      if |events| == limits.maxRecords {
        refusal := Some(RecordCountLimit);
        return false;
      }
      var event := if pending == [] then None else parse(pending);
      if event.None? {
        refusal := Some(InvalidRecord);
        return false;
      }
      events := events + [event.value];
      pending := [];
      return true;
    }
  }

  lemma NothingFed<E>(parse: Parser<E>, limits: Limits, scan: Scan<E>, s: bytes)
    ensures Feed(parse, limits, scan, s[..0]) == scan
    ensures scan.Collecting? ==> scan.pending + s[0..0] == scan.pending
  {
  }

  lemma FeedMore<E>(parse: Parser<E>, limits: Limits, scan: Scan<E>, s: bytes, i: nat)
    requires i < |s|
    ensures Feed(parse, limits, scan, s[..i + 1]) == FeedByte(parse, limits, Feed(parse, limits, scan, s[..i]), s[i])
  {
    hide FeedByte;
    assert s[..i + 1][..i] == s[..i];
  }

  lemma RunGrows<E>(parse: Parser<E>, limits: Limits, events: seq<E>, pending: bytes, run: bytes, b: byte)
    requires b != LF && |pending| <= limits.maxRecordBytes
    ensures FeedByte(parse, limits, Run(limits, events, pending, run), b) == Run(limits, events, pending, run + [b])
  {
    ConcatIsAssociative(pending, run, [b]);
  }

  /** A refusal after some octets is the refusal of everything that starts with them. */
  lemma {:induction false} RefusedStays<E>(parse: Parser<E>, limits: Limits, scan: Scan<E>, s: bytes, k: nat)
    requires k <= |s| && Feed(parse, limits, scan, s[..k]).Refused?
    ensures Feed(parse, limits, scan, s) == Feed(parse, limits, scan, s[..k])
    decreases |s|
  {
    if k == |s| {
      assert s[..k] == s;
    } else {
      var before := s[..|s| - 1];
      assert before[..k] == s[..k];
      RefusedStays(parse, limits, scan, before, k);
    }
  }

  // ---- Plain storage

  /** One positioned read: some octets of the file, or a failure. */
  method ReadAt(file: bytes, offset: nat, length: nat) returns (data: Option<bytes>)
    requires offset + length <= |file| && length > 0
    ensures data.Some? ==> 0 < |data.value| <= length && data.value == file[offset..offset + |data.value|]
  {
    var fails: bool := *;
    if fails {
      return None;
    }
    var n :| 0 < n <= length;
    return Some(file[offset..offset + n]);
  }

  /** ReadSnapshot of plain storage: whatever the sizes of the reads, the collector ends as if it had
      been given the whole file at once, and a refusal is the collector's own. */
  method ReadPlain<E>(file: bytes, collector: Collector<E>) returns (failure: Option<Reason>, logicalBytes: nat)
    requires collector.Valid() && collector.State() == Collecting([], [])
    modifies collector
    ensures collector.Valid()
    ensures failure.None? ==> |file| <= collector.limits.maxBytes && logicalBytes == |file|
    ensures failure.None? ==> collector.State() == JudgeStream(collector.parse, collector.limits, file)
    ensures failure.None? ==> collector.State().Collecting?
    ensures failure == Some(ByteLimit) ==> |file| > collector.limits.maxBytes
    ensures failure.Some? && failure.value != IoFailure && failure.value != ByteLimit ==>
      JudgeStream(collector.parse, collector.limits, file) == Refused(failure.value)
  {
    var parse, limits := collector.parse, collector.limits;
    FeedJudges(parse, limits, file);
    logicalBytes := 0;
    if |file| > limits.maxBytes {
      return Some(ByteLimit), 0;
    }
    var offset := 0;
    assert file[..0] == [];
    while offset < |file|
      invariant 0 <= offset <= |file| && logicalBytes == offset && collector.Valid()
      invariant collector.State() == Feed(parse, limits, Collecting([], []), file[..offset])
      invariant collector.State().Collecting?
    {
      var data := ReadAt(file, offset, if |file| - offset < CHUNK then |file| - offset else CHUNK);
      if data.None? {
        return Some(IoFailure), logicalBytes;
      }
      var next := offset + |data.value|;
      logicalBytes := logicalBytes + |data.value|;
      assert file[..next] == file[..offset] + data.value;
      FeedJoins(parse, limits, Collecting([], []), file[..offset], data.value);
      offset := next;
      var ok := collector.Collect(data.value);
      if !ok {
        RefusedStays(parse, limits, Collecting([], []), file, offset);
        RefusalIsNotIo(parse, limits, file);
        return collector.refusal, logicalBytes;
      }
    }
    assert file[..offset] == file;
    return None, logicalBytes;
  }

  lemma {:induction false} RefusalIsNotIo<E>(parse: Parser<E>, limits: Limits, s: bytes)
    ensures var r := Feed(parse, limits, Collecting([], []), s);
      r.Refused? ==> r.reason == RecordByteLimit || r.reason == RecordCountLimit || r.reason == InvalidRecord
  {
    if s != [] {
      RefusalIsNotIo(parse, limits, s[..|s| - 1]);
    }
  }

  // ---- Gzip storage

  /** What a complete member at the head of some octets is: its length and its payload. */
  datatype Member = Member(length: nat, payload: bytes)

  type Decoder = bytes -> Option<Member>

  ghost predicate IsDecoder(decode: Decoder) {
    forall s :: decode(s).Some? ==> 0 < decode(s).value.length <= |s|
  }

  datatype Archive = Archive(content: bytes, members: nat)

  /** The reference: members one after another until nothing is left. */
  function Members(decode: Decoder, s: bytes): Option<Archive>
    requires IsDecoder(decode)
    decreases |s|
  {
    if s == [] then Some(Archive([], 0))
    else
      var m := decode(s);
      if m.None? then None
      else
        var rest := Members(decode, s[m.value.length..]);
        if rest.None? then None
        else Some(Archive(m.value.payload + rest.value.content, rest.value.members + 1))
  }

  /** An archive has at least one member. */
  function Decode(decode: Decoder, s: bytes): Option<Archive>
    requires IsDecoder(decode)
  {
    if s == [] then None else Members(decode, s)
  }

  function Preceded(done: Archive, rest: Option<Archive>): Option<Archive> {
    if rest.None? then None else Some(Archive(done.content + rest.value.content, done.members + rest.value.members))
  }

  /** A member that is complete at the head of some octets is the same whatever follows. */
  ghost predicate IsPrefixCode(decode: Decoder) {
    forall s, rest: bytes :: decode(s).Some? ==> decode(s + rest) == decode(s)
  }

  lemma StaysMember(decode: Decoder, a: bytes, b: bytes)
    requires IsPrefixCode(decode) && decode(a).Some?
    ensures decode(a + b) == decode(a)
  {
  }

  /** Octets that are a series of members stay one when members follow. */
  lemma {:induction false} MembersJoin(decode: Decoder, a: bytes, b: bytes)
    requires IsDecoder(decode) && IsPrefixCode(decode) && Members(decode, a).Some?
    ensures Members(decode, a + b) == Preceded(Members(decode, a).value, Members(decode, b))
    decreases |a|
  {
    hide IsPrefixCode, Members;
    var rest := Members(decode, b);
    if a == [] {
      NoMember(decode);
      assert a + b == b;
      assert rest.Some? ==> [] + rest.value.content == rest.value.content;
    } else {
      FirstMember(decode, a);
      var m := decode(a).value;
      StaysMember(decode, a, b);
      FirstMember(decode, a + b);
      ConcatDrop(a, b, m.length);
      MembersJoin(decode, a[m.length..], b);
      if rest.Some? {
        ConcatIsAssociative(m.payload, Members(decode, a[m.length..]).value.content, rest.value.content);
      }
    }
  }

  lemma NoMember(decode: Decoder)
    requires IsDecoder(decode)
    ensures Members(decode, []) == Some(Archive([], 0))
  {
  }

  lemma FirstMember(decode: Decoder, s: bytes)
    requires IsDecoder(decode) && s != []
    ensures decode(s).None? ==> Members(decode, s).None?
    ensures decode(s).Some? ==>
      var m := decode(s).value;
      Members(decode, s) == Preceded(Archive(m.payload, 1), Members(decode, s[m.length..]))
  {
  }

  datatype Status = End | Progress | Corrupt

  /** The zlib stream while it inflates one file. */
  class Inflater {
    const decode: Decoder
    const file: bytes
    /** Where the current member starts, the next octet to consume, and what the member gave so far. */
    var start: nat
    var next: nat
    var produced: bytes

    ghost predicate Valid()
      reads this
    {
      && IsDecoder(decode)
      && start <= next <= |file|
      && (decode(file[start..]).Some? ==>
            next - start <= decode(file[start..]).value.length && produced <= decode(file[start..]).value.payload)
    }

    ghost predicate Ended()
      requires Valid()
      reads this
    {
      && decode(file[start..]).Some?
      && decode(file[start..]).value == Member(next - start, produced)
    }

    constructor (decode: Decoder, file: bytes)
      requires IsDecoder(decode)
      ensures Valid() && this.decode == decode && this.file == file
      ensures start == next == 0 && produced == []
    {
      this.decode := decode;
      this.file := file;
      start, next := 0, 0;
      produced := [];
    }

    /** inflateReset2: the next octet starts a member. */
    method Reset()
      requires Valid()
      modifies this
      ensures Valid() && start == next == old(next) && produced == []
    {
      start := next;
      produced := [];
    }

    /** inflate: consumes and produces any amounts that the current member allows, at least one
        octet of either, and reports the end of the member exactly when it is complete. */
    method Inflate(available: nat) returns (status: Status, output: bytes)
      requires Valid() && !Ended() && next + available <= |file|
      requires available == 0 ==> next == |file|
      modifies this
      ensures Valid() && start == old(start)
      ensures old(next) <= next <= old(next) + available && produced == old(produced) + output && |output| <= CHUNK
      ensures status == End <==> Ended()
      ensures status == Progress ==> next > old(next) || output != []
      ensures status == Corrupt ==> decode(file[start..]).None?
    {
      var member := decode(file[start..]);
      if member.None? {
        var gives_up: bool := *;
        var used :| 0 <= used <= available;
        output :| |output| <= CHUNK;
        next := next + used;
        produced := produced + output;
        return if gives_up || (used == 0 && output == []) then Corrupt else Progress, output;
      }
      var payload := member.value.payload;
      var left := member.value.length - (next - start);
      var unread := payload[|produced|..];
      assert produced + unread == payload;
      var used, made := Amounts(left, available, |unread|);
      next := next + used;
      output := unread[..made];
      produced := produced + output;
      assert |produced| == |payload| ==> produced == payload;
      return if used == left && made == |unread| then End else Progress, output;
    }
  }

  method Amounts(left: nat, available: nat, unread: nat) returns (used: nat, made: nat)
    requires left > 0 ==> available > 0
    ensures used <= left && used <= available && made <= unread && made <= CHUNK
    ensures (left > 0 || unread > 0) ==> used > 0 || made > 0
  {
    if left > 0 {
      used :| 0 < used <= left && used <= available;
      made :| 0 <= made <= unread && made <= CHUNK;
    } else {
      used := 0;
      made :| 0 <= made <= unread && made <= CHUNK && (unread > 0 ==> made > 0);
    }
  }

  /** How a gzip snapshot ends. */
  datatype GzipResult = Read(logicalBytes: nat) | Failed(reason: Reason)

  /** What the reader knows between two steps: `done` members are behind the position `from`. */
  ghost predicate Behind(decode: Decoder, file: bytes, done: Archive, from: nat)
    requires IsDecoder(decode)
  {
    from <= |file| && Members(decode, file) == Preceded(done, Members(decode, file[from..]))
  }

  lemma MemberDone(decode: Decoder, file: bytes, done: Archive, from: nat)
    requires IsDecoder(decode) && Behind(decode, file, done, from) && decode(file[from..]).Some?
    ensures
      var m := decode(file[from..]).value;
      from + m.length <= |file| && Behind(decode, file, Archive(done.content + m.payload, done.members + 1),
                                          from + m.length)
  {
    var m := decode(file[from..]).value;
    var rest := Members(decode, file[from + m.length..]);
    assert file[from..][m.length..] == file[from + m.length..];
    assert file[from..] != [];
    if rest.Some? {
      ConcatIsAssociative(done.content, m.payload, rest.value.content);
    }
  }

  /** Octets delivered so far are a prefix of what the whole archive holds, if it holds anything. */
  lemma DeliveredIsPrefix(decode: Decoder, file: bytes, done: Archive, from: nat, part: bytes)
    requires IsDecoder(decode) && Behind(decode, file, done, from) && from < |file|
    requires decode(file[from..]).Some? ==> part <= decode(file[from..]).value.payload
    ensures Members(decode, file).Some? ==> done.content + part <= Members(decode, file).value.content
    ensures Members(decode, file).Some? ==> done.members < Members(decode, file).value.members
    ensures decode(file[from..]).None? ==> Members(decode, file).None?
  {
    if decode(file[from..]).Some? {
      MemberDone(decode, file, done, from);
      var m := decode(file[from..]).value;
      assert done.content + part <= done.content + m.payload;
    } else {
      assert file[from..] != [];
    }
  }

  lemma PrefixRefused<E>(parse: Parser<E>, limits: Limits, part: bytes, whole: bytes)
    requires part <= whole && Feed(parse, limits, Collecting([], []), part).Refused?
    ensures Feed(parse, limits, Collecting([], []), whole).Refused?
  {
    assert whole[..|part|] == part;
    RefusedStays(parse, limits, Collecting([], []), whole, |part|);
  }

  /** The content that a gzip snapshot must have to be read. */
  ghost predicate Readable<E>(decode: Decoder, parse: Parser<E>, limits: Limits, file: bytes)
    requires IsDecoder(decode)
  {
    && |file| <= 2 * limits.maxBytes + 1048576
    && Decode(decode, file).Some?
    && Decode(decode, file).value.members <= MAX_MEMBERS
    && |Decode(decode, file).value.content| <= limits.maxBytes
    && JudgeStream(parse, limits, Decode(decode, file).value.content).Collecting?
  }

  lemma NothingBehind(decode: Decoder, file: bytes)
    requires IsDecoder(decode)
    ensures Behind(decode, file, Archive([], 0), 0)
  {
    assert file[0..] == file;
    var all := Members(decode, file);
    assert all.Some? ==> [] + all.value.content == all.value.content;
  }

  lemma EverythingBehind(decode: Decoder, file: bytes, done: Archive)
    requires IsDecoder(decode) && Behind(decode, file, done, |file|)
    ensures Members(decode, file) == Some(done)
  {
    assert file[|file|..] == [];
    assert done.content + [] == done.content;
  }

  /** Why the reader may stop when the collector or a budget refuses the octets delivered so far. */
  lemma StoppedEarly<E>(decode: Decoder, parse: Parser<E>, limits: Limits, file: bytes, done: Archive, from: nat,
                        part: bytes)
    requires IsDecoder(decode) && Behind(decode, file, done, from) && (from < |file| || file == [])
    requires decode(file[from..]).Some? ==> part <= decode(file[from..]).value.payload
    requires || |done.content + part| > limits.maxBytes
             || done.members >= MAX_MEMBERS
             || decode(file[from..]).None?
             || Feed(parse, limits, Collecting([], []), done.content + part).Refused?
    ensures !Readable(decode, parse, limits, file)
  {
    if Decode(decode, file).Some? {
      DeliveredIsPrefix(decode, file, done, from, part);
      var whole := Decode(decode, file).value.content;
      if Feed(parse, limits, Collecting([], []), done.content + part).Refused? {
        PrefixRefused(parse, limits, done.content + part, whole);
        FeedJudges(parse, limits, whole);
      }
    }
  }

  /** The state of the gzip reader between two rounds. */
  class GzipReader<E> {
    const z: Inflater
    const collector: Collector<E>
    var offset: nat
    var available: nat
    var logicalBytes: nat
    var members: nat
    var memberEnded: bool
    /** The members that are complete, and all that was delivered. */
    ghost var done: Archive
    ghost var delivered: bytes

    ghost predicate Cursor()
      reads this, z, collector
    {
      && z.Valid() && collector.Valid()
      && available <= offset <= |z.file| && z.next == offset - available
      && members == done.members <= MAX_MEMBERS
      && logicalBytes == |delivered| <= collector.limits.maxBytes
      && collector.State() == Feed(collector.parse, collector.limits, Collecting([], []), delivered)
      && collector.State().Collecting?
    }

    /** In a member that may be complete. */
    ghost predicate Within()
      reads this, z, collector
    {
      && z.Valid() && delivered == done.content + z.produced
      && Behind(z.decode, z.file, done, z.start) && (z.start < |z.file| || z.file == [])
    }

    /** Inside a member. */
    ghost predicate Inside()
      reads this, z, collector
    {
      Cursor() && Within() && !z.Ended()
    }

    /** Between two members, or at the end. */
    ghost predicate Between()
      reads this, z, collector
    {
      && Cursor()
      && delivered == done.content && Behind(z.decode, z.file, done, z.next) && members > 0
    }

    ghost predicate Valid()
      reads this, z, collector
    {
      if memberEnded then Between() else Inside()
    }

    ghost function Measure(): int
      reads this, collector
    {
      (MAX_MEMBERS - members) + (|z.file| - offset) + available + (collector.limits.maxBytes - logicalBytes)
    }

    constructor (file: bytes, decode: Decoder, collector: Collector<E>)
      requires IsDecoder(decode) && collector.Valid() && collector.State() == Collecting([], [])
      ensures Valid() && !memberEnded && z.file == file && z.decode == decode && this.collector == collector && fresh(z)
    {
      var inflater := new Inflater(decode, file);
      NothingBehind(decode, file);
      z := inflater;
      this.collector := collector;
      offset, available, logicalBytes, members := 0, 0, 0, 0;
      memberEnded := false;
      done := Archive([], 0);
      delivered := [];
    }

    method Refill() returns (ok: bool)
      requires Valid()
      modifies this`offset, this`available
      ensures Valid() && Measure() == old(Measure())
      ensures ok ==> available == 0 ==> offset == |z.file|
    {
      if available == 0 && offset < |z.file| {
        var file := z.file;
        var data := ReadAt(file, offset, if |file| - offset < CHUNK then |file| - offset else CHUNK);
        if data.None? {
          return false;
        }
        offset := offset + |data.value|;
        available := |data.value|;
      }
      return true;
    }

    method NextMember()
      requires Valid() && memberEnded && z.next < |z.file|
      modifies this`memberEnded, z
      ensures Valid() && !memberEnded && Measure() == old(Measure()) && z.next == old(z.next)
    {
      z.Reset();
      memberEnded := false;
      assert done.content + [] == done.content;
      assert z.file[z.start..] != [];
    }

    ghost predicate Delivering(limits: Limits)
      reads this, collector
    {
      && collector.Valid() && collector.limits == limits
      && logicalBytes == |delivered| <= limits.maxBytes
      && collector.State() == Feed(collector.parse, limits, Collecting([], []), delivered)
    }

    /** `deliver`: the decoded budget is charged first, then the collector takes the octets. */
    method Deliver(output: bytes) returns (failure: Option<Reason>)
      requires Delivering(collector.limits) && collector.State().Collecting?
      modifies this`logicalBytes, this`delivered, collector
      ensures delivered == old(delivered) + output
      ensures failure.None? ==> Delivering(collector.limits) && collector.State().Collecting?
      ensures failure.Some? ==> failure.value != IoFailure
      ensures failure.Some? ==>
        || |delivered| > collector.limits.maxBytes
        || Feed(collector.parse, collector.limits, Collecting([], []), delivered).Refused?
    {
      var limits := collector.limits;
      FeedJoins(collector.parse, limits, Collecting([], []), delivered, output);
      delivered := delivered + output;
      if |output| > limits.maxBytes - logicalBytes {
        return Some(ByteLimit);
      }
      logicalBytes := logicalBytes + |output|;
      if output != [] {
        var ok := collector.Collect(output);
        if !ok {
          RefusalIsNotIo(collector.parse, limits, delivered);
          return collector.refusal;
        }
      }
      return None;
    }

    /** One call of inflate and the delivery of its output. */
    method Advance() returns (status: Status, failure: Option<Reason>)
      requires Inside() && (available == 0 ==> offset == |z.file|)
      modifies this`available, this`logicalBytes, this`delivered, z, collector
      ensures Within()
      ensures failure.None? ==> Cursor()
      ensures failure.None? ==> (status == End <==> z.Ended())
      ensures failure.None? && status == Progress ==> Measure() < old(Measure())
      ensures failure.None? ==> Measure() <= old(Measure())
      ensures failure.Some? ==> failure.value != IoFailure
      ensures failure.Some? || status == Corrupt ==> !Readable(z.decode, collector.parse, collector.limits, z.file)
    {
      ghost var given := z.produced;
      ghost var output;
      status, failure, output := Inflated();
      ConcatIsAssociative(done.content, given, output);
      if failure.Some? || status == Corrupt {
        StoppedEarly(z.decode, collector.parse, collector.limits, z.file, done, z.start, z.produced);
      }
    }

    method Inflated() returns (status: Status, failure: Option<Reason>, ghost output: bytes)
      requires Cursor() && !z.Ended() && (available == 0 ==> offset == |z.file|)
      modifies this`available, this`logicalBytes, this`delivered, z, collector
      ensures z.Valid() && z.start == old(z.start)
      ensures delivered == old(delivered) + output && z.produced == old(z.produced) + output
      ensures failure.None? ==> Cursor()
      ensures failure.None? && status == Progress ==> Measure() < old(Measure())
      ensures failure.None? ==> Measure() <= old(Measure())
      ensures status == End <==> z.Ended()
      ensures status == Corrupt ==> z.decode(z.file[z.start..]).None?
      ensures failure.Some? ==> failure.value != IoFailure
      ensures failure.Some? ==>
        || |delivered| > collector.limits.maxBytes
        || Feed(collector.parse, collector.limits, Collecting([], []), delivered).Refused?
    {
      var before := z.next;
      var octets;
      status, octets := z.Inflate(available);
      output := octets;
      available := available - (z.next - before);
      failure := Deliver(octets);
    }

    method Round() returns (failure: Option<Reason>)
      requires Valid() && !memberEnded && (available == 0 ==> offset == |z.file|)
      modifies this`available, this`logicalBytes, this`members, this`memberEnded, this`done, this`delivered, z,
          collector
      ensures failure.None? ==> Valid() && Measure() < old(Measure())
      ensures failure.Some? ==> failure.value != IoFailure
      ensures failure.Some? ==> !Readable(z.decode, collector.parse, collector.limits, z.file)
    {
      var status;
      status, failure := Advance();
      if failure.Some? {
        return;
      }
      if status == Corrupt {
        return Some(ArchiveInvalid);
      }
      if status == End {
        if members == MAX_MEMBERS {
          StoppedEarly(z.decode, collector.parse, collector.limits, z.file, done, z.start, z.produced);
          return Some(ArchiveMemberLimit);
        }
        FinishMember();
      }
    }

    method FinishMember()
      requires Cursor() && Within() && z.Ended() && members < MAX_MEMBERS
      modifies this`members, this`memberEnded, this`done
      ensures Valid() && Measure() < old(Measure())
    {
      hide Behind, Members, Feed;
      MemberDone(z.decode, z.file, done, z.start);
      members := members + 1;
      memberEnded := true;
      done := Archive(delivered, done.members + 1);
    }
  }

  /** ReadSnapshot of gzip storage. It terminates because every round ends a member, consumes input or
      delivers output, each of which is bounded; it succeeds, apart from I/O failures, exactly on the
      readable archives, and the collector then ends as if given the whole decoded content at once. */
  method ReadGzip<E>(file: bytes, decode: Decoder, collector: Collector<E>) returns (result: GzipResult)
    requires IsDecoder(decode)
    requires collector.Valid() && collector.State() == Collecting([], [])
    modifies collector
    ensures result.Read? ==> Readable(decode, collector.parse, collector.limits, file)
    ensures result.Read? ==> result.logicalBytes == |Decode(decode, file).value.content|
    ensures result.Read? ==>
      collector.State() == JudgeStream(collector.parse, collector.limits, Decode(decode, file).value.content)
    ensures result.Failed? && result.reason != IoFailure ==> !Readable(decode, collector.parse, collector.limits, file)
  {
    if |file| > 2 * collector.limits.maxBytes + 1048576 {
      return Failed(StorageLimit);
    }
    var reader := new GzipReader(file, decode, collector);
    while true
      invariant fresh(reader) && fresh(reader.z) && reader.Valid()
      decreases reader.Measure()
    {
      var filled := reader.Refill();
      if !filled {
        return Failed(IoFailure);
      }
      if reader.memberEnded {
        if reader.available == 0 && reader.offset == |file| {
          EverythingBehind(decode, file, reader.done);
          FeedJudges(collector.parse, collector.limits, reader.delivered);
          return Read(reader.logicalBytes);
        }
        reader.NextMember();
      }
      var failure := reader.Round();
      if failure.Some? {
        return Failed(failure.value);
      }
    }
  }
}
