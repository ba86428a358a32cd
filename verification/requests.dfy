/**
 * The request of `POST /api/generar-calavera`: its input checks
 * (backend/server.js:154-169) and the `detalles` text the prompt is built
 * from (backend/server.js:196-200).
 */
module Requests {
  import opened Text
  import opened Email

  /**
   * The body fields of the request, as strings. A field the body leaves out
   * is modelled as `""`; the input checks and the prompt treat the two alike.
   */
  datatype Request = Request(
    name: string,        // nombre
    likes: string,       // gustos
    profession: string,  // profesion
    email: string,
    tone: string,        // tono
    position: string     // puesto
  )

  /** Why a request is turned away before any table is read. */
  datatype Rejection =
    | MissingName       // 400
    | InvalidEmail      // 400
    | MissingTone       // 400
    | DomainNotAllowed  // 403

  datatype Validation = Accepted(domain: string) | Refused(why: Rejection)

  /**
   * The input checks, in the handler's order. A request that passes yields
   * the domain of its email.
   */
  function CheckInput(req: Request, allowed: seq<string>): Validation {
    if Trim(req.name) == [] then Refused(MissingName)
    else if req.email == [] || !IsValidEmail(req.email) then Refused(InvalidEmail)
    else if req.tone == [] then Refused(MissingTone)
    else
      match GetDomainFromEmail(req.email)
      case None => Refused(DomainNotAllowed)
      case Some(domain) => if domain in allowed then Accepted(domain) else Refused(DomainNotAllowed)
  }

  /**
   * The checks run in order: a blank name is refused first, then an invalid
   * email, then a missing tone, then a domain off the allow-list. A request
   * that passes all four yields the lower-cased domain part of its email,
   * which is on the allow-list and has an inner dot.
   */
  lemma InputChecksInOrder(req: Request, allowed: seq<string>)
    ensures var v := CheckInput(req, allowed);
            && (v == Refused(MissingName) <==> IsBlank(req.name))
            && (v == Refused(InvalidEmail) <==> !IsBlank(req.name) && !IsValidEmail(req.email))
            && (v == Refused(MissingTone) <==>
                  !IsBlank(req.name) && IsValidEmail(req.email) && req.tone == [])
            && (v.Accepted? <==>
                  && !IsBlank(req.name) && IsValidEmail(req.email) && req.tone != []
                  && ToLower(DomainPart(req.email)) in allowed)
            && (v.Accepted? ==> v.domain == ToLower(DomainPart(req.email)) && HasInnerDot(v.domain))
  {
    var v := CheckInput(req, allowed);
    if IsBlank(req.name) {
      assert v == Refused(MissingName);
    } else if !IsValidEmail(req.email) {
      assert v == Refused(InvalidEmail);
    } else if req.tone == [] {
      assert v == Refused(MissingTone);
    } else {
      ValidEmailDomain(req.email);
      var domain := ToLower(DomainPart(req.email));
      assert v == if domain in allowed then Accepted(domain) else Refused(DomainNotAllowed);
    }
  }

  /**
   * The example of `a@x.com`: a request from that address, with `x.com` on
   * the allow-list, is accepted with domain `x.com`.
   */
  lemma ExampleRequestAccepted(req: Request, allowed: seq<string>)
    requires req == Request("Ana", "", "", "a@x.com", "divertido", "") && allowed == ["x.com"]
    ensures CheckInput(req, allowed) == Accepted("x.com")
  {
    ExampleAddressValid(req.email);
    var d := DomainPart(req.email);
    assert !IsBlank(req.name) by { VisibleIsNotSpace(req.name[0]); }
    ToLowerFixesLowerCase(d);
    InputChecksInOrder(req, allowed);
  }

  function ProfessionClause(profession: string): string {
    if profession == [] then [] else "que tenía la profesión de " + profession
  }

  function PositionClause(position: string, company: string): string {
    if position != [] && company != [] then " (específicamente " + position + " en " + company + ")"
    else if position != [] then " (específicamente " + position + ")"
    else []
  }

  function LikesClause(likes: string): string {
    if likes == [] then [] else " y le encantaba " + likes
  }

  /**
   * The details of the prompt: a clause for the profession, one for the
   * position (naming the company when there is a company name), and one for
   * the likes, each present only when its field is given.
   */
  function Details(profession: string, position: string, likes: string, company: string): string {
    ProfessionClause(profession) + PositionClause(position, company) + LikesClause(likes)
  }

  /** `detalles`, built up clause by clause. */
  method BuildDetails(profession: string, position: string, likes: string, company: string)
    returns (details: string)
    ensures details == Details(profession, position, likes, company)
  {
    details := "";
    if profession != [] {
      details := details + ("que tenía la profesión de " + profession);
    }
    assert details == ProfessionClause(profession);
    if position != [] && company != [] {
      details := details + (" (específicamente " + position + " en " + company + ")");
    } else if position != [] {
      details := details + (" (específicamente " + position + ")");
    }
    assert details == ProfessionClause(profession) + PositionClause(position, company);
    if likes != [] {
      details := details + (" y le encantaba " + likes);
    }
  }

  /** The details are empty exactly when none of profession, position and likes is given. */
  lemma DetailsEmptyIff(profession: string, position: string, likes: string, company: string)
    ensures Details(profession, position, likes, company) == [] <==>
              profession == [] && position == [] && likes == []
  {
    var p, q, l := ProfessionClause(profession), PositionClause(position, company), LikesClause(likes);
    assert |p + q + l| == |p| + |q| + |l|;
  }

  /**
   * A given profession opens the details and given likes close them; without
   * a profession the details open with the position clause.
   */
  lemma DetailsMentionFields(profession: string, position: string, likes: string, company: string)
    ensures var d := Details(profession, position, likes, company);
            && (profession != [] ==> "que tenía la profesión de " + profession <= d)
            && (likes != [] ==> var tail := " y le encantaba " + likes;
                                |tail| <= |d| && d[|d| - |tail|..] == tail)
            && (profession == [] ==> PositionClause(position, company) <= d)
  {
    var p, q, l := ProfessionClause(profession), PositionClause(position, company), LikesClause(likes);
    var d := p + q + l;
    assert d[..|p|] == p;
    assert d[|p|..|p| + |q|] == q;
    assert d[|d| - |l|..] == l;
  }

  /** The company appears in the details only through the position clause. */
  lemma CompanyNeedsPosition(profession: string, likes: string, company: string)
    ensures Details(profession, [], likes, company) == ProfessionClause(profession) + LikesClause(likes)
  {
  }

  /** What the handler sends to the generator: the name, the details and the tone, in a fixed template. */
  datatype Prompt = Prompt(name: string, details: string, tone: string)

  /** The generator's answer: the text of the response, or a failure of the call. */
  datatype Generation = Generated(text: string) | Failed
}
