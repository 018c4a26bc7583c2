/** Decision attribution: from verified producer segments to the commands that get credit. */
module Attribution {

  import opened Bytes
  import opened SegmentCache

  // ---- Records

  datatype Json = Null | Value(text: bytes)

  datatype RequestData = RequestData(instrument: bytes, period: bytes, prompt: bytes, promptHash: bytes, startedAt: int,
                                     model: bytes, scope: bytes)

  /** `answer` is the decoded object of the single output of a successful envelope. */
  datatype ResponseData = ResponseData(requestHash: bytes, availableAt: int, returnCode: int,
                                       answer: Option<map<bytes, Json>>)

  datatype DecisionData = DecisionData(requestHash: bytes, responseHash: bytes, decision: map<bytes, Json>,
                                       decisionHash: bytes,
                                       availableAt: int)

  datatype BindingData = BindingData(command: Option<Json>, kind: bytes, instrument: bytes, side: bytes, createdAt: int,
                                     request: bytes, requestHash: bytes, responseHash: bytes, decisionHash: bytes,
                                     stateWritten: bool, exactBasis: bool) {
    /** The key of the command: a missing id is looked up as null. */
    function CommandKey(): Json {
      if command.None? then Null else command.value
    }
  }

  datatype Body =
    | Header(manifest: bytes, inScope: bool)
    | Request(id: bytes, request: RequestData)
    | Response(id: bytes, response: ResponseData)
    | Decision(id: bytes, decision: DecisionData)
    | Binding(binding: BindingData)
    | Other

  datatype Rec = Rec(producer: bytes, sequence: nat, previous: bytes, hash: bytes, dropped: bool, inTime: bool,
                     body: Body)

  /** A record with the prefixes that witness it: the producer's earlier segments and its own place. */
  datatype Item = Item(record: Rec, trail: seq<Prefix>)

  datatype Digests = Digests(request: RequestData -> bytes, response: ResponseData -> bytes,
                             decision: map<bytes, Json> -> bytes, text: bytes -> bytes)

  datatype Scope = Scope(manifest: bytes, instrument: bytes, period: bytes)

  // ---- Complete graphs

  datatype Kind = RequestKind | ResponseKind | DecisionKind

  predicate Is(body: Body, kind: Kind, id: bytes) {
    match kind
    case RequestKind => body.Request? && body.id == id
    case ResponseKind => body.Response? && body.id == id
    case DecisionKind => body.Decision? && body.id == id
  }

  /** The first record of a kind with this request id. */
  function First(items: seq<Item>, kind: Kind, id: bytes): (r: Option<nat>)
    ensures r.Some? ==> r.value < |items| && Is(items[r.value].record.body, kind, id)
    ensures r.Some? ==> forall i :: 0 <= i < r.value ==> !Is(items[i].record.body, kind, id)
    ensures r.None? ==> forall i :: 0 <= i < |items| ==> !Is(items[i].record.body, kind, id)
  {
    if items == [] then None
    else
      var n := |items| - 1;
      var before := First(items[..n], kind, id);
      if before.Some? then before
      else if Is(items[n].record.body, kind, id) then Some(n)
      else None
  }

  predicate Covered(answer: map<bytes, Json>, decision: map<bytes, Json>) {
    forall k :: k in answer ==> answer[k] == if k in decision then decision[k] else Null
  }

  /** The digests of request, response and decision link to each other and to the binding. */
  predicate Linked(d: Digests, b: BindingData, request: RequestData, response: ResponseData, decision: DecisionData) {
    && d.request(request) == b.requestHash && d.response(response) == b.responseHash
    && decision.requestHash == d.request(request) && decision.responseHash == d.response(response)
    && response.requestHash == d.request(request)
    && d.decision(decision.decision) == b.decisionHash && decision.decisionHash == b.decisionHash
  }

  /** The command opens what the decision said, for this instrument and period, after all of it was known. */
  predicate Answers(d: Digests, scope: Scope, b: BindingData, request: RequestData, response: ResponseData,
                    decision: DecisionData) {
    && request.instrument == scope.instrument && request.period == scope.period && b.instrument == scope.instrument
    && b.kind == Ascii("OPEN") && (b.side == Ascii("BUY") || b.side == Ascii("SELL"))
    && Ascii("action") in decision.decision && decision.decision[Ascii("action")] == Value(b.side)
    && b.stateWritten && b.exactBasis
    && d.text(request.prompt) == request.promptHash
    && 0 < request.startedAt <= response.availableAt <= decision.availableAt <= b.createdAt
    && response.returnCode == 0 && response.answer.Some? && Covered(response.answer.value, decision.decision)
  }

  /** The binding at k has its request, response and decision before it, in this order, and they fit. */
  predicate CompleteAt(d: Digests, scope: Scope, items: seq<Item>, k: nat)
    requires k < |items| && items[k].record.body.Binding?
  {
    var b := items[k].record.body.binding;
    var i, j, m := First(items, RequestKind, b.request), First(items, ResponseKind, b.request),
      First(items, DecisionKind, b.request);
    && i.Some? && j.Some? && m.Some? && i.value < j.value < m.value < k
    && var request, response, decision :=
         items[i.value].record.body.request, items[j.value].record.body.response, items[m.value].record.body.decision;
       && Linked(d, b, request, response, decision)
       && Answers(d, scope, b, request, response, decision)
       && b.command.Some?
  }

  // ---- Claims and credit

  /** The value of a binding; what is constant in it is left out. */
  datatype Credit = Credit(input: bytes, forecast: bytes, model: bytes, side: bytes, request: bytes, promptHash: bytes,
                           scope: bytes, trail: seq<Prefix>)

  /** What one binding record says of a command: a credit, or something wrong with it. */
  datatype Claim = Claim(command: Json, credit: Option<Credit>)

  function CreditOf(d: Digests, b: BindingData, request: RequestData, trail: seq<Prefix>): Credit {
    Credit(d.request(request), b.decisionHash, request.model, b.side, b.request, request.promptHash, request.scope,
           trail)
  }

  /** The credit of a complete binding. */
  function CreditAt(d: Digests, scope: Scope, items: seq<Item>, k: nat): Credit
    requires k < |items| && items[k].record.body.Binding? && CompleteAt(d, scope, items, k)
  {
    var b := items[k].record.body.binding;
    CreditOf(d, b, items[First(items, RequestKind, b.request).value].record.body.request, items[k].trail)
  }

  function ClaimAt(d: Digests, scope: Scope, items: seq<Item>, k: nat): Claim
    requires k < |items| && items[k].record.body.Binding?
  {
    Claim(items[k].record.body.binding.CommandKey(),
          if CompleteAt(d, scope, items, k) then Some(CreditAt(d, scope, items, k)) else None)
  }

  predicate Names(claim: Claim, command: Json) {
    claim.command == command
  }

  /** Some record names the command, and every record that does grants the very same credit. */
  ghost predicate Earns(claims: seq<Claim>, command: Json, credit: Credit) {
    && (exists i :: 0 <= i < |claims| && Names(claims[i], command))
    && (forall i :: 0 <= i < |claims| && Names(claims[i], command) ==> claims[i].credit == Some(credit))
  }

  ghost predicate CreditsExactly(claims: seq<Claim>, credits: map<Json, Credit>) {
    && (forall c :: c in credits ==> Earns(claims, c, credits[c]))
    && (forall c, v :: Earns(claims, c, v) ==> c in credits)
  }

  /** Two records that name the command disagree, or one is not complete. */
  ghost predicate Spoilt(claims: seq<Claim>, command: Json) {
    exists i, j :: 0 <= i < |claims| && 0 <= j < |claims| && Names(claims[i], command) && Names(claims[j], command)
                   && (claims[i].credit.None? || claims[i].credit != claims[j].credit)
  }

  /** What the loop has gathered of the claims so far. */
  ghost predicate Gathered(claims: seq<Claim>, credits: map<Json, Credit>, invalid: set<Json>) {
    && (forall c :: c in credits ==> Granted(claims, c, credits[c]))
    && (forall i :: 0 <= i < |claims| ==> Settled(claims[i], credits, invalid))
    && (forall c :: c in invalid ==> Spoilt(claims, c))
  }

  ghost predicate Granted(claims: seq<Claim>, command: Json, credit: Credit) {
    exists i :: 0 <= i < |claims| && claims[i] == Claim(command, Some(credit))
  }

  predicate Settled(claim: Claim, credits: map<Json, Credit>, invalid: set<Json>)
  {
    var c := claim.command;
    c in invalid || (c in credits && claim.credit == Some(credits[c]))
  }

  /** One step of the loop. */
  function Enter(claim: Claim, credits: map<Json, Credit>, invalid: set<Json>): (map<Json, Credit>, set<Json>) {
    var c := claim.command;
    if claim.credit.None? || (c in credits && credits[c] != claim.credit.value) then (credits, invalid + {c})
    else (credits[c := claim.credit.value], invalid)
  }

  lemma GrantedMore(claims: seq<Claim>, claim: Claim, command: Json, credit: Credit)
    requires Granted(claims, command, credit)
    ensures Granted(claims + [claim], command, credit)
  {
    var i :| 0 <= i < |claims| && claims[i] == Claim(command, Some(credit));
    assert (claims + [claim])[i] == claims[i];
  }

  lemma SpoiltMore(claims: seq<Claim>, claim: Claim, command: Json)
    requires Spoilt(claims, command)
    ensures Spoilt(claims + [claim], command)
  {
    var i, j :| 0 <= i < |claims| && 0 <= j < |claims| && Names(claims[i], command) && Names(claims[j], command)
                && (claims[i].credit.None? || claims[i].credit != claims[j].credit);
    var more := claims + [claim];
    assert more[i] == claims[i] && more[j] == claims[j];
  }

  lemma NewlySpoilt(claims: seq<Claim>, claim: Claim, command: Json, credits: map<Json, Credit>)
    requires Names(claim, command)
    requires claim.credit.None? || (command in credits && credits[command] != claim.credit.value
                                    && Granted(claims, command, credits[command]))
    ensures Spoilt(claims + [claim], command)
  {
    var more := claims + [claim];
    assert more[|claims|] == claim;
    if claim.credit.Some? {
      var i :| 0 <= i < |claims| && claims[i] == Claim(command, Some(credits[command]));
      assert more[i] == claims[i] && Names(more[i], command);
    }
  }

  lemma EnterKeeps(claims: seq<Claim>, claim: Claim, credits: map<Json, Credit>, invalid: set<Json>)
    requires Gathered(claims, credits, invalid)
    ensures var r := Enter(claim, credits, invalid); Gathered(claims + [claim], r.0, r.1)
  {
    hide Granted, Spoilt;
    var more := claims + [claim];
    var (cs, iv) := Enter(claim, credits, invalid);
    forall c | c in cs ensures Granted(more, c, cs[c]) {
      if c in credits && cs[c] == credits[c] {
        GrantedMore(claims, claim, c, cs[c]);
      } else {
        LastIsGranted(claims, c, cs[c]);
      }
    }
    forall i | 0 <= i < |more| ensures Settled(more[i], cs, iv) {
      if i < |claims| {
        assert Settled(claims[i], credits, invalid);
      }
    }
    forall c | c in iv ensures Spoilt(more, c) {
      if c in invalid {
        SpoiltMore(claims, claim, c);
      } else {
        NewlySpoilt(claims, claim, c, credits);
      }
    }
  }

  lemma LastIsGranted(claims: seq<Claim>, command: Json, credit: Credit)
    ensures Granted(claims + [Claim(command, Some(credit))], command, credit)
  {
    assert (claims + [Claim(command, Some(credit))])[|claims|] == Claim(command, Some(credit));
  }

  /** What is left after the spoilt commands are dropped is exactly what is earned. */
  lemma GatheredIsExact(claims: seq<Claim>, credits: map<Json, Credit>, invalid: set<Json>)
    requires Gathered(claims, credits, invalid)
    ensures CreditsExactly(claims, credits - invalid)
  {
    var kept := credits - invalid;
    forall c | c in kept ensures Earns(claims, c, kept[c]) {
      var i :| 0 <= i < |claims| && claims[i] == Claim(c, Some(credits[c]));
      assert Names(claims[i], c);
      forall j | 0 <= j < |claims| && Names(claims[j], c) ensures claims[j].credit == Some(kept[c]) {
        assert Settled(claims[j], credits, invalid);
      }
    }
    forall c, v | Earns(claims, c, v) ensures c in kept {
      var i :| 0 <= i < |claims| && Names(claims[i], c);
      assert Settled(claims[i], credits, invalid);
    }
  }

  // ---- Order, and one record only

  lemma EarnsInOtherOrder(claims: seq<Claim>, others: seq<Claim>, command: Json, credit: Credit)
    requires multiset(claims) == multiset(others) && Earns(claims, command, credit)
    ensures Earns(others, command, credit)
  {
    var i :| 0 <= i < |claims| && Names(claims[i], command);
    assert claims[i] in multiset(others);
    assert claims[i] in others;
    forall j | 0 <= j < |others| && Names(others[j], command) ensures others[j].credit == Some(credit) {
      assert others[j] in multiset(claims);
      assert others[j] in claims;
    }
  }

  /** The order in which binding records are processed does not matter. */
  lemma CreditIgnoresOrder(claims: seq<Claim>, others: seq<Claim>, credits: map<Json, Credit>,
                           credits': map<Json, Credit>)
    requires multiset(claims) == multiset(others)
    requires CreditsExactly(claims, credits) && CreditsExactly(others, credits')
    ensures credits == credits'
  {
    forall c | c in credits ensures c in credits' && credits'[c] == credits[c] {
      EarnsInOtherOrder(claims, others, c, credits[c]);
      EarnedOnce(others, c, credits[c], credits'[c]);
    }
    forall c | c in credits' ensures c in credits {
      EarnsInOtherOrder(others, claims, c, credits'[c]);
    }
  }

  lemma EarnedOnce(claims: seq<Claim>, command: Json, credit: Credit, other: Credit)
    requires Earns(claims, command, credit) && Earns(claims, command, other)
    ensures credit == other
  {
    var i :| 0 <= i < |claims| && Names(claims[i], command);
  }

  /** No two records have the same witness, so none grants the credit of another. */
  ghost predicate Apart(claims: seq<Claim>) {
    forall i, j :: 0 <= i < j < |claims| && claims[i].credit.Some? && claims[j].credit.Some? ==>
      claims[i].credit.value.trail != claims[j].credit.value.trail
  }

  ghost predicate NamedOnlyAt(claims: seq<Claim>, command: Json, i: nat) {
    i < |claims| && Names(claims[i], command) && forall j :: 0 <= j < |claims| && Names(claims[j], command) ==> j == i
  }

  /** A command is credited exactly when one and only one record names it and that one is complete. */
  lemma OneAndOnlyOne(claims: seq<Claim>, command: Json, credit: Credit)
    requires Apart(claims)
    ensures Earns(claims, command, credit) <==>
      exists i: nat :: NamedOnlyAt(claims, command, i) && claims[i].credit == Some(credit)
  {
    if Earns(claims, command, credit) {
      var i :| 0 <= i < |claims| && Names(claims[i], command);
      forall j | 0 <= j < |claims| && Names(claims[j], command) ensures j == i {
        assert claims[j].credit == Some(credit) && claims[i].credit == Some(credit);
      }
      assert NamedOnlyAt(claims, command, i);
    }
  }
}
