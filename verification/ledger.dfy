/**
 * The quota-gated generation of `POST /api/generar-calavera`
 * (backend/server.js:150-260) as one atomic step on the two tables it
 * touches: `usuarios` (email to `generaciones_count`) and `calaveras` (the
 * generated texts). `GenerateStep` is what one request does to the committed
 * tables; the lemmas below state the quota invariants it keeps.
 */
module Ledger {
  import opened Domains
  import opened Requests

  /** The number of texts one email may generate. */
  const MaxGenerations: nat := 2

  /** One row of `calaveras`; `company` is the `empresa` column, which holds the full domain. */
  datatype Calavera = Calavera(
    id: nat,
    name: string,
    likes: string,
    profession: string,
    text: string,
    email: string,
    tone: string,
    position: string,
    company: string,
    background: string,
    createdAt: int
  )

  /**
   * The committed contents of both tables, and the next value of the
   * auto-increment id of `calaveras`.
   */
  datatype Db = Db(ledger: map<string, nat>, artifacts: seq<Calavera>, nextId: nat)

  /** The tables before any request: both empty, ids starting at 1. */
  const EmptyDb: Db := Db(map[], [], 1)

  /**
   * Where the storage layer fails, if it does: no connection from the pool,
   * the transaction or the `SELECT ... FOR UPDATE` failing, the insert into
   * `calaveras`, the insert or update of `usuarios`, or the commit.
   */
  datatype Fault =
    | NoFault
    | ConnectionFails
    | ReadFails
    | ArtifactInsertFails
    | LedgerWriteFails
    | CommitFails

  /** The response of the handler. */
  datatype Response =
    | Created(id: nat, text: string, background: string)
    | Rejected(why: Rejection)
    | QuotaExceeded
    | InternalError

  /** The HTTP status of each response. */
  function StatusCode(r: Response): (code: nat)
    ensures code in {201, 400, 403, 429, 500}
    ensures code == 201 <==> r.Created?
    ensures code == 400 <==> r.Rejected? && r.why != DomainNotAllowed
    ensures code == 403 <==> r == Rejected(DomainNotAllowed)
    ensures code == 429 <==> r == QuotaExceeded
    ensures code == 500 <==> r == InternalError
  {
    match r
    case Created(_, _, _) => 201
    case Rejected(why) => if why == DomainNotAllowed then 403 else 400
    case QuotaExceeded => 429
    case InternalError => 500
  }

  /** `generaciones_count` of an email; an email without a row has used none. */
  function CountOf(ledger: map<string, nat>, email: string): nat {
    if email in ledger then ledger[email] else 0
  }

  function Last(s: seq<Calavera>): Calavera
    requires s != []
  {
    s[|s| - 1]
  }

  /**
   * The rows of `calaveras` that belong to `email`, in table order: each row
   * of that email as often as the table holds it, and no other row.
   */
  function Owned(artifacts: seq<Calavera>, email: string): (r: seq<Calavera>)
    ensures forall c :: c in r <==> c in artifacts && c.email == email
    ensures forall c :: multiset(r)[c] == if c.email == email then multiset(artifacts)[c] else 0
  {
    if artifacts == [] then []
    else
      var prefix := artifacts[..|artifacts| - 1];
      var last := Last(artifacts);
      assert artifacts == prefix + [last];
      assert multiset(artifacts) == multiset(prefix) + multiset{last};
      var tail := if last.email == email then [last] else [];
      assert multiset(Owned(prefix, email) + tail) == multiset(Owned(prefix, email)) + multiset(tail);
      Owned(prefix, email) + tail
  }

  lemma OwnedAppend(artifacts: seq<Calavera>, row: Calavera, email: string)
    ensures Owned(artifacts + [row], email)
            == Owned(artifacts, email) + (if row.email == email then [row] else [])
  {
    assert (artifacts + [row])[..|artifacts|] == artifacts;
  }

  /**
   * What every committed state satisfies: each email's count is the number
   * of its rows in `calaveras` and at most `MaxGenerations`, and ids are
   * positive, below the next id, and increasing in table order.
   */
  ghost predicate Consistent(db: Db) {
    && (forall e :: CountOf(db.ledger, e) == |Owned(db.artifacts, e)|)
    && (forall e :: CountOf(db.ledger, e) <= MaxGenerations)
    && db.nextId > 0
    && (forall i :: 0 <= i < |db.artifacts| ==> 0 < db.artifacts[i].id < db.nextId)
    && (forall i, j :: 0 <= i < j < |db.artifacts| ==> db.artifacts[i].id < db.artifacts[j].id)
  }

  lemma EmptyDbConsistent()
    ensures Consistent(EmptyDb)
  {
  }

  /** The prompt for an accepted request whose company name is `company`. */
  function PromptFor(req: Request, company: string): Prompt {
    Prompt(req.name, Details(req.profession, req.position, req.likes, company), req.tone)
  }

  /** The row inserted for a generated text. */
  function NewRow(id: nat, req: Request, text: string, domain: string, background: string, now: int): Calavera {
    Calavera(id, req.name, req.likes, req.profession, text, req.email, req.tone, req.position,
             domain, background, now)
  }

  datatype Outcome = Outcome(db: Db, resp: Response)

  /**
   * The transaction of an accepted request: the count is read under lock, a
   * count at the limit is refused; otherwise, given the generator's `reply`
   * and the chosen `background`, the new row and the incremented count are
   * committed together. Any failure once the transaction is open rolls both
   * tables back. The auto-increment id used by an insert that was rolled back
   * is not given back, as in InnoDB.
   */
  function Transact(db: Db, req: Request, domain: string, reply: Generation, background: string,
                    fault: Fault, now: int): Outcome
  {
    if fault == ConnectionFails || fault == ReadFails then Outcome(db, InternalError)
    else if CountOf(db.ledger, req.email) >= MaxGenerations then Outcome(db, QuotaExceeded)
    else
      match reply
      case Failed => Outcome(db, InternalError)
      case Generated(text) =>
        if fault == ArtifactInsertFails then Outcome(db, InternalError)
        else if fault != NoFault then Outcome(db.(nextId := db.nextId + 1), InternalError)
        else
          var row := NewRow(db.nextId, req, text, domain, background, now);
          Outcome(Db(db.ledger[req.email := CountOf(db.ledger, req.email) + 1],
                     db.artifacts + [row], db.nextId + 1),
                  Created(db.nextId, text, background))
  }

  /**
   * One request, from committed state to committed state: the input checks
   * come first and touch nothing; an accepted request runs the transaction,
   * with the generator asked about the prompt built from the request and a
   * background drawn for its domain.
   */
  function GenerateStep(db: Db, allowed: seq<string>, req: Request, generator: Prompt -> Generation,
                        rnd: UnitInterval, fault: Fault, now: int): Outcome
  {
    match CheckInput(req, allowed)
    case Refused(why) => Outcome(db, Rejected(why))
    case Accepted(domain) =>
      Transact(db, req, domain, generator(PromptFor(req, CompanyName(domain))),
               ChooseBackground(domain, rnd), fault, now)
  }

  /** Appending a row of `email` and adding one to its count keeps the counts equal to the row counts. */
  lemma AppendKeepsCounts(db: Db, row: Calavera)
    requires Consistent(db)
    requires CountOf(db.ledger, row.email) < MaxGenerations
    ensures var ledger := db.ledger[row.email := CountOf(db.ledger, row.email) + 1];
            && (forall e :: CountOf(ledger, e) == |Owned(db.artifacts + [row], e)|)
            && (forall e :: CountOf(ledger, e) <= MaxGenerations)
  {
    var ledger := db.ledger[row.email := CountOf(db.ledger, row.email) + 1];
    forall e ensures CountOf(ledger, e) == |Owned(db.artifacts + [row], e)| && CountOf(ledger, e) <= MaxGenerations {
      OwnedAppend(db.artifacts, row, e);
      if e == row.email {
        assert CountOf(ledger, e) == CountOf(db.ledger, e) + 1;
        assert |Owned(db.artifacts + [row], e)| == |Owned(db.artifacts, e)| + 1;
      } else {
        assert CountOf(ledger, e) == CountOf(db.ledger, e);
        assert Owned(db.artifacts + [row], e) == Owned(db.artifacts, e);
      }
    }
  }

  /** Appending a row under the next id keeps ids positive, below the next id and increasing. */
  lemma AppendKeepsIds(db: Db, row: Calavera)
    requires Consistent(db)
    requires row.id == db.nextId
    ensures var a := db.artifacts + [row];
            && (forall i :: 0 <= i < |a| ==> 0 < a[i].id < db.nextId + 1)
            && (forall i, j :: 0 <= i < j < |a| ==> a[i].id < a[j].id)
  {
    var a := db.artifacts + [row];
    forall i | 0 <= i < |a| ensures 0 < a[i].id < db.nextId + 1 {
      if i < |db.artifacts| { assert a[i] == db.artifacts[i]; } else { assert a[i] == row; }
    }
    forall i, j | 0 <= i < j < |a| ensures a[i].id < a[j].id {
      assert a[i] == db.artifacts[i];
      if j < |db.artifacts| { assert a[j] == db.artifacts[j]; }
    }
  }

  /** The transaction keeps the tables consistent. */
  lemma TransactKeepsConsistent(db: Db, req: Request, domain: string, reply: Generation, background: string,
                                fault: Fault, now: int)
    requires Consistent(db)
    ensures Consistent(Transact(db, req, domain, reply, background, fault, now).db)
  {
    var o := Transact(db, req, domain, reply, background, fault, now);
    if o.resp.Created? {
      CommitEffects(db, req, domain, reply, background, fault, now);
      var row := NewRow(db.nextId, req, reply.text, domain, background, now);
      AppendKeepsCounts(db, row);
      AppendKeepsIds(db, row);
    } else {
      RollbackLeavesTablesUnchanged(db, req, domain, reply, background, fault, now);
    }
  }

  /** Every request keeps the tables consistent. */
  lemma GenerateStepKeepsConsistent(db: Db, allowed: seq<string>, req: Request, generator: Prompt -> Generation,
                                    rnd: UnitInterval, fault: Fault, now: int)
    requires Consistent(db)
    ensures Consistent(GenerateStep(db, allowed, req, generator, rnd, fault, now).db)
  {
    var v := CheckInput(req, allowed);
    if v.Accepted? {
      TransactKeepsConsistent(db, req, v.domain, generator(PromptFor(req, CompanyName(v.domain))),
                              ChooseBackground(v.domain, rnd), fault, now);
    }
  }

  /** A request the input checks refuse changes nothing, not even the next id. */
  lemma RefusedInputTouchesNothing(db: Db, allowed: seq<string>, req: Request, generator: Prompt -> Generation,
                                   rnd: UnitInterval, fault: Fault, now: int)
    requires CheckInput(req, allowed).Refused?
    ensures GenerateStep(db, allowed, req, generator, rnd, fault, now)
            == Outcome(db, Rejected(CheckInput(req, allowed).why))
  {
  }

  /**
   * A transaction that does not commit leaves both tables as they were;
   * only the next id may have moved on. Apart from the 429 of the quota, such
   * a transaction answers 500: a failing generator or storage step is an
   * internal error.
   */
  lemma RollbackLeavesTablesUnchanged(db: Db, req: Request, domain: string, reply: Generation,
                                      background: string, fault: Fault, now: int)
    ensures var o := Transact(db, req, domain, reply, background, fault, now);
            !o.resp.Created? ==> o.db.ledger == db.ledger && o.db.artifacts == db.artifacts
                                 && o.db.nextId >= db.nextId
    ensures var o := Transact(db, req, domain, reply, background, fault, now);
            !o.resp.Created? && o.resp != QuotaExceeded ==> o.resp == InternalError
    ensures var o := Transact(db, req, domain, reply, background, fault, now);
            o.resp == InternalError
            <==> (|| fault == ConnectionFails || fault == ReadFails
                  || (CountOf(db.ledger, req.email) < MaxGenerations && (reply.Failed? || fault != NoFault)))
  {
  }

  /**
   * The quota gate: once the count can be read, a count at the limit is
   * refused with 429 and nothing changes; and 429 is never given below the
   * limit.
   */
  lemma QuotaGate(db: Db, req: Request, domain: string, reply: Generation, background: string,
                  fault: Fault, now: int)
    ensures var o := Transact(db, req, domain, reply, background, fault, now);
            o.resp == QuotaExceeded <==>
              fault != ConnectionFails && fault != ReadFails && CountOf(db.ledger, req.email) >= MaxGenerations
    ensures var o := Transact(db, req, domain, reply, background, fault, now);
            o.resp == QuotaExceeded ==> o.db == db
  {
  }

  /**
   * A transaction commits exactly when the count is below the limit, the
   * generator answered and storage does not fail. It appends one row holding
   * the generated text and background under the next id, adds exactly one to
   * the requesting email's count and moves the next id on; the response
   * carries the same id, text and background.
   */
  lemma CommitEffects(db: Db, req: Request, domain: string, reply: Generation, background: string,
                      fault: Fault, now: int)
    ensures var o := Transact(db, req, domain, reply, background, fault, now);
            o.resp.Created? <==>
              fault == NoFault && CountOf(db.ledger, req.email) < MaxGenerations && reply.Generated?
    ensures var o := Transact(db, req, domain, reply, background, fault, now);
            o.resp.Created? ==>
              && o.resp == Created(db.nextId, reply.text, background)
              && o.db.artifacts == db.artifacts + [NewRow(db.nextId, req, reply.text, domain, background, now)]
              && o.db.ledger == db.ledger[req.email := CountOf(db.ledger, req.email) + 1]
              && o.db.nextId == db.nextId + 1
  {
  }

  /**
   * A successful request was accepted, got the generator's text for its own
   * prompt, and drew its background from its domain's list when there is a
   * non-empty one, otherwise from the fallbacks.
   */
  lemma SuccessEffects(db: Db, allowed: seq<string>, req: Request, generator: Prompt -> Generation,
                       rnd: UnitInterval, fault: Fault, now: int)
    ensures var o := GenerateStep(db, allowed, req, generator, rnd, fault, now);
            o.resp.Created? ==>
              && CheckInput(req, allowed).Accepted?
              && var domain := CheckInput(req, allowed).domain;
              && generator(PromptFor(req, CompanyName(domain))) == Generated(o.resp.text)
              && o.resp.background in BackgroundChoices(domain)
  {
    var v := CheckInput(req, allowed);
    var o := GenerateStep(db, allowed, req, generator, rnd, fault, now);
    if v.Accepted? {
      var reply := generator(PromptFor(req, CompanyName(v.domain)));
      var background := ChooseBackground(v.domain, rnd);
      assert o == Transact(db, req, v.domain, reply, background, fault, now);
      CommitEffects(db, req, v.domain, reply, background, fault, now);
    } else {
      assert o.resp == Rejected(v.why);
    }
  }

  /** Counts never go down, go up by at most one, and only for the requesting email on a commit. */
  lemma CountsMoveByAtMostOne(db: Db, req: Request, domain: string, reply: Generation, background: string,
                              fault: Fault, now: int, e: string)
    ensures var o := Transact(db, req, domain, reply, background, fault, now);
            && CountOf(db.ledger, e) <= CountOf(o.db.ledger, e) <= CountOf(db.ledger, e) + 1
            && (CountOf(o.db.ledger, e) == CountOf(db.ledger, e) + 1 <==> o.resp.Created? && e == req.email)
  {
  }

  /**
   * Two requests for the same email that reach the transaction while one
   * generation is left, both answered by the generator: the first commits,
   * the second is refused with 429 and changes nothing.
   */
  lemma LastSlotGoesToOne(db: Db, first: Request, second: Request, domain: string, text1: string,
                          reply2: Generation, background1: string, background2: string, now1: int, now2: int)
    requires first.email == second.email
    requires CountOf(db.ledger, first.email) == MaxGenerations - 1
    ensures var o1 := Transact(db, first, domain, Generated(text1), background1, NoFault, now1);
            var o2 := Transact(o1.db, second, domain, reply2, background2, NoFault, now2);
            o1.resp.Created? && o2.resp == QuotaExceeded && o2.db == o1.db
            && CountOf(o2.db.ledger, first.email) == MaxGenerations
  {
  }

  /** One request of a sequence, with the generator's answer and the other inputs it meets. */
  datatype Attempt = Attempt(req: Request, reply: Generation, rnd: UnitInterval, fault: Fault, now: int)

  /** A generator that gives the same answer to every prompt. */
  function Answering(reply: Generation): Prompt -> Generation {
    (p: Prompt) => reply
  }

  function AttemptStep(db: Db, allowed: seq<string>, a: Attempt): Outcome {
    GenerateStep(db, allowed, a.req, Answering(a.reply), a.rnd, a.fault, a.now)
  }

  /** One attempt adds one to the count of `email` exactly when it succeeds for it, and leaves it otherwise. */
  lemma AttemptStepCounts(db: Db, allowed: seq<string>, a: Attempt, email: string)
    ensures var o := AttemptStep(db, allowed, a);
            CountOf(o.db.ledger, email)
            == CountOf(db.ledger, email) + (if o.resp.Created? && a.req.email == email then 1 else 0)
  {
    var v := CheckInput(a.req, allowed);
    if v.Accepted? {
      CountsMoveByAtMostOne(db, a.req, v.domain, Answering(a.reply)(PromptFor(a.req, CompanyName(v.domain))),
                            ChooseBackground(v.domain, a.rnd), a.fault, a.now, email);
    }
  }

  datatype Trace = Trace(db: Db, responses: seq<Response>)

  /** Requests handled one after the other, each seeing the state the previous one committed. */
  function Run(db: Db, allowed: seq<string>, attempts: seq<Attempt>): (t: Trace)
    ensures |t.responses| == |attempts|
    decreases |attempts|
  {
    if attempts == [] then Trace(db, [])
    else
      var o := AttemptStep(db, allowed, attempts[0]);
      var rest := Run(o.db, allowed, attempts[1..]);
      Trace(rest.db, [o.resp] + rest.responses)
  }

  /** How many of the responses are successes for requests from `email`. */
  function Successes(attempts: seq<Attempt>, responses: seq<Response>, email: string): nat
    requires |attempts| == |responses|
  {
    if attempts == [] then 0
    else (if responses[0].Created? && attempts[0].req.email == email then 1 else 0)
         + Successes(attempts[1..], responses[1..], email)
  }

  /** Along any sequence of requests the tables stay consistent. */
  lemma {:induction false} RunKeepsConsistent(db: Db, allowed: seq<string>, attempts: seq<Attempt>)
    requires Consistent(db)
    ensures Consistent(Run(db, allowed, attempts).db)
    decreases |attempts|
  {
    if attempts != [] {
      var a := attempts[0];
      GenerateStepKeepsConsistent(db, allowed, a.req, Answering(a.reply), a.rnd, a.fault, a.now);
      RunKeepsConsistent(AttemptStep(db, allowed, a).db, allowed, attempts[1..]);
    }
  }

  /** Along any sequence of requests an email's count grows by exactly the number of its successful requests. */
  lemma {:induction false} RunCountsSuccesses(db: Db, allowed: seq<string>, attempts: seq<Attempt>, email: string)
    ensures var t := Run(db, allowed, attempts);
            CountOf(t.db.ledger, email) == CountOf(db.ledger, email) + Successes(attempts, t.responses, email)
    decreases |attempts|
  {
    if attempts != [] {
      var o := AttemptStep(db, allowed, attempts[0]);
      AttemptStepCounts(db, allowed, attempts[0], email);
      RunCountsSuccesses(o.db, allowed, attempts[1..], email);
      var t := Run(db, allowed, attempts);
      var rest := Run(o.db, allowed, attempts[1..]);
      assert t.responses[1..] == rest.responses;
    }
  }

  /**
   * The quota over a whole sequence of requests: however the requests
   * interleave and fail, no email gets more successes than the generations it
   * had left, so never more than `MaxGenerations` in all.
   */
  lemma RunKeepsQuota(db: Db, allowed: seq<string>, attempts: seq<Attempt>, email: string)
    requires Consistent(db)
    ensures Successes(attempts, Run(db, allowed, attempts).responses, email)
            <= MaxGenerations - CountOf(db.ledger, email)
  {
    RunKeepsConsistent(db, allowed, attempts);
    RunCountsSuccesses(db, allowed, attempts, email);
  }

  /**
   * A helper for the proofs below: it unfolds `GenerateStep` for an accepted
   * request, which then runs the transaction with its own prompt and a
   * background drawn for its domain.
   */
  lemma AcceptedRequestTransacts(db: Db, allowed: seq<string>, req: Request, generator: Prompt -> Generation,
                                 rnd: UnitInterval, fault: Fault, now: int)
    requires CheckInput(req, allowed).Accepted?
    ensures var domain := CheckInput(req, allowed).domain;
            GenerateStep(db, allowed, req, generator, rnd, fault, now)
            == Transact(db, req, domain, generator(PromptFor(req, CompanyName(domain))),
                        ChooseBackground(domain, rnd), fault, now)
  {
  }

  /**
   * An accepted request below the limit, whose generator answers and whose
   * storage does not fail, is served under the next id and adds one to its
   * email's count.
   */
  lemma AcceptedRequestCommits(db: Db, allowed: seq<string>, req: Request, text: string,
                               rnd: UnitInterval, now: int)
    requires CheckInput(req, allowed).Accepted?
    requires CountOf(db.ledger, req.email) < MaxGenerations
    ensures var o := GenerateStep(db, allowed, req, Answering(Generated(text)), rnd, NoFault, now);
            && o.resp.Created? && o.resp.id == db.nextId && o.db.nextId == db.nextId + 1
            && CountOf(o.db.ledger, req.email) == CountOf(db.ledger, req.email) + 1
  {
    var domain := CheckInput(req, allowed).domain;
    var generator := Answering(Generated(text));
    AcceptedRequestTransacts(db, allowed, req, generator, rnd, NoFault, now);
    CommitEffects(db, req, domain, Generated(text), ChooseBackground(domain, rnd), NoFault, now);
  }

  /** An accepted request at the limit is refused with 429 and changes nothing. */
  lemma AcceptedRequestAtLimit(db: Db, allowed: seq<string>, req: Request, generator: Prompt -> Generation,
                               rnd: UnitInterval, now: int)
    requires CheckInput(req, allowed).Accepted?
    requires CountOf(db.ledger, req.email) >= MaxGenerations
    ensures var o := GenerateStep(db, allowed, req, generator, rnd, NoFault, now);
            o.resp == QuotaExceeded && o.db == db
  {
    var domain := CheckInput(req, allowed).domain;
    AcceptedRequestTransacts(db, allowed, req, generator, rnd, NoFault, now);
    QuotaGate(db, req, domain, generator(PromptFor(req, CompanyName(domain))),
              ChooseBackground(domain, rnd), NoFault, now);
  }

  /**
   * The example of `a@x.com`, first part: starting from empty tables, an accepted
   * request whose generator answers is served twice, with ids 1 and 2 and
   * counts 1 and 2.
   */
  lemma FirstTwoRequestsServed(allowed: seq<string>, req: Request, text: string, rnd: UnitInterval, now: int)
    requires CheckInput(req, allowed).Accepted?
    ensures var generator := Answering(Generated(text));
            var o1 := GenerateStep(EmptyDb, allowed, req, generator, rnd, NoFault, now);
            var o2 := GenerateStep(o1.db, allowed, req, generator, rnd, NoFault, now);
            && o1.resp.Created? && o1.resp.id == 1 && CountOf(o1.db.ledger, req.email) == 1
            && o2.resp.Created? && o2.resp.id == 2 && CountOf(o2.db.ledger, req.email) == 2
  {
    var o1 := GenerateStep(EmptyDb, allowed, req, Answering(Generated(text)), rnd, NoFault, now);
    AcceptedRequestCommits(EmptyDb, allowed, req, text, rnd, now);
    AcceptedRequestCommits(o1.db, allowed, req, text, rnd, now);
  }

  /**
   * The example of `a@x.com`, second part: the third identical request is refused
   * with 429 and changes nothing.
   */
  lemma ThirdRequestRefused(allowed: seq<string>, req: Request, text: string, rnd: UnitInterval, now: int)
    requires CheckInput(req, allowed).Accepted?
    ensures var generator := Answering(Generated(text));
            var o1 := GenerateStep(EmptyDb, allowed, req, generator, rnd, NoFault, now);
            var o2 := GenerateStep(o1.db, allowed, req, generator, rnd, NoFault, now);
            var o3 := GenerateStep(o2.db, allowed, req, generator, rnd, NoFault, now);
            o3.resp == QuotaExceeded && o3.db == o2.db
  {
    var generator := Answering(Generated(text));
    var o1 := GenerateStep(EmptyDb, allowed, req, generator, rnd, NoFault, now);
    var o2 := GenerateStep(o1.db, allowed, req, generator, rnd, NoFault, now);
    FirstTwoRequestsServed(allowed, req, text, rnd, now);
    AcceptedRequestAtLimit(o2.db, allowed, req, generator, rnd, now);
  }

  /**
   * The scenario of `a@x.com` with `x.com` allowed: from empty tables the
   * first two requests get ids 1 and 2 and counts 1 and 2, and the third gets
   * 429 and creates no row.
   */
  lemma ExampleScenario(allowed: seq<string>, req: Request, text: string, rnd: UnitInterval, now: int)
    requires req == Request("Ana", "", "", "a@x.com", "divertido", "") && allowed == ["x.com"]
    ensures var generator := Answering(Generated(text));
            var o1 := GenerateStep(EmptyDb, allowed, req, generator, rnd, NoFault, now);
            var o2 := GenerateStep(o1.db, allowed, req, generator, rnd, NoFault, now);
            var o3 := GenerateStep(o2.db, allowed, req, generator, rnd, NoFault, now);
            && o1.resp.Created? && o1.resp.id == 1 && CountOf(o1.db.ledger, "a@x.com") == 1
            && o2.resp.Created? && o2.resp.id == 2 && CountOf(o2.db.ledger, "a@x.com") == 2
            && o3.resp == QuotaExceeded && |o3.db.artifacts| == 2 && CountOf(o3.db.ledger, "a@x.com") == 2
  {
    ExampleRequestAccepted(req, allowed);
    FirstTwoRequestsServed(allowed, req, text, rnd, now);
    ThirdRequestRefused(allowed, req, text, rnd, now);
    var generator := Answering(Generated(text));
    var o1 := GenerateStep(EmptyDb, allowed, req, generator, rnd, NoFault, now);
    AcceptedRequestCommits(EmptyDb, allowed, req, text, rnd, now);
    var domain := CheckInput(req, allowed).domain;
    AcceptedRequestTransacts(EmptyDb, allowed, req, generator, rnd, NoFault, now);
    CommitEffects(EmptyDb, req, domain, Generated(text), ChooseBackground(domain, rnd), NoFault, now);
    AcceptedRequestTransacts(o1.db, allowed, req, generator, rnd, NoFault, now);
    CommitEffects(o1.db, req, domain, Generated(text), ChooseBackground(domain, rnd), NoFault, now);
  }
}
