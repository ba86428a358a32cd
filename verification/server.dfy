/**
 * The backend as a stateful object: the allow-list read at start-up
 * (backend/server.js:13-16) and the two tables the `POST
 * /api/generar-calavera` handler (backend/server.js:150-260) reads and
 * writes inside one transaction, taken as atomic and one request at a time.
 */
module Server {
  import opened Text
  import opened Email
  import opened Domains
  import opened Requests
  import opened Ledger

  class Backend {
    /** `usuarios`: `generaciones_count` per email. */
    var ledger: map<string, nat>
    /** `calaveras`, in insertion order. */
    var artifacts: seq<Calavera>
    /** The auto-increment counter of `calaveras.id`. */
    var nextId: nat
    /** `allowedDomains`, parsed once from the `ALLOWED_DOMAINS` setting. */
    const allowedDomains: seq<string>

    /** The committed state of both tables and the id counter. */
    function State(): Db
      reads this
    {
      Db(ledger, artifacts, nextId)
    }

    ghost predicate Valid()
      reads this
    {
      Consistent(State())
    }

    /** Start-up: the allow-list comes from the setting, and both tables are empty. */
    constructor(setting: string)
      ensures allowedDomains == ParseAllowedDomains(setting)
      ensures State() == EmptyDb
      ensures Valid()
    {
      allowedDomains := ParseAllowedDomains(setting);
      ledger := map[];
      artifacts := [];
      nextId := 1;
      new;
      EmptyDbConsistent();
    }

    /**
     * One `POST /api/generar-calavera`. The input checks touch nothing; an
     * accepted request runs the transaction. The response and the new state
     * are those of `GenerateStep`, whose lemmas state the quota invariants.
     */
    method Generate(req: Request, generator: Prompt -> Generation, rnd: UnitInterval, fault: Fault, now: int)
      returns (resp: Response)
      requires Valid()
      modifies this
      ensures Valid()
      ensures Outcome(State(), resp) == GenerateStep(old(State()), allowedDomains, req, generator, rnd, fault, now)
      ensures !resp.Created? ==> ledger == old(ledger) && artifacts == old(artifacts)
    {
      GenerateStepKeepsConsistent(State(), allowedDomains, req, generator, rnd, fault, now);

      // Input checks, in the handler's order.
      if Trim(req.name) == [] {
        return Rejected(MissingName);
      }
      if req.email == [] || !IsValidEmail(req.email) {
        return Rejected(InvalidEmail);
      }
      if req.tone == [] {
        return Rejected(MissingTone);
      }
      var userDomain := GetDomainFromEmail(req.email);
      if userDomain.None? || userDomain.value !in allowedDomains {
        return Rejected(DomainNotAllowed);
      }
      var domain := userDomain.value;
      assert CheckInput(req, allowedDomains) == Accepted(domain);
      AcceptedRequestTransacts(State(), allowedDomains, req, generator, rnd, fault, now);
      var company := CompanyName(domain);
      resp := Transaction(req, domain, company, generator, rnd, fault, now);
    }

    /**
     * The transaction of an accepted request: both tables are snapshot when
     * it opens and put back on every failure (a 429 included), so only a
     * commit changes them; the id taken by an insert that is rolled back is
     * not reused.
     */
    method Transaction(req: Request, domain: string, company: string, generator: Prompt -> Generation,
                       rnd: UnitInterval, fault: Fault, now: int)
      returns (resp: Response)
      modifies this
      ensures Outcome(State(), resp)
              == Transact(old(State()), req, domain, generator(PromptFor(req, company)),
                          ChooseBackground(domain, rnd), fault, now)
      ensures !resp.Created? ==> ledger == old(ledger) && artifacts == old(artifacts)
    {
      if fault == ConnectionFails {
        return InternalError;
      }
      var savedLedger, savedArtifacts := ledger, artifacts;
      if fault == ReadFails {
        ledger, artifacts := savedLedger, savedArtifacts;
        return InternalError;
      }
      var isNew := req.email !in ledger;
      var count := if isNew then 0 else ledger[req.email];
      assert count == CountOf(savedLedger, req.email);
      if count >= MaxGenerations {
        ledger, artifacts := savedLedger, savedArtifacts;
        return QuotaExceeded;
      }

      var details := BuildDetails(req.profession, req.position, req.likes, company);
      assert Prompt(req.name, details, req.tone) == PromptFor(req, company);
      var reply := generator(Prompt(req.name, details, req.tone));
      if reply.Failed? {
        ledger, artifacts := savedLedger, savedArtifacts;
        return InternalError;
      }
      var background := ChooseBackground(domain, rnd);

      if fault == ArtifactInsertFails {
        ledger, artifacts := savedLedger, savedArtifacts;
        return InternalError;
      }
      var id := nextId;
      artifacts := artifacts + [NewRow(id, req, reply.text, domain, background, now)];
      nextId := nextId + 1;

      if fault == LedgerWriteFails {
        ledger, artifacts := savedLedger, savedArtifacts;
        return InternalError;
      }
      if isNew {
        ledger := ledger[req.email := 1];
      } else {
        ledger := ledger[req.email := ledger[req.email] + 1];
      }
      assert ledger == savedLedger[req.email := count + 1];

      if fault == CommitFails {
        ledger, artifacts := savedLedger, savedArtifacts;
        return InternalError;
      }
      return Created(id, reply.text, background);
    }
  }
}
