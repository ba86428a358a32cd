/**
 * `GET /api/calaveras` (backend/server.js:267-292): the rows of `calaveras`
 * whose email is the query email, newest first.
 */
module Listing {
  import opened Email
  import opened Domains
  import opened Requests
  import opened Ledger

  /** 200 with the rows, 400 for a missing or invalid email, 500 when the query fails. */
  datatype Listed = Rows(rows: seq<Calavera>) | BadQuery | QueryFailed

  /** `ORDER BY fecha_creacion DESC`: creation times never increase along the list. */
  predicate NewestFirst(rows: seq<Calavera>) {
    forall i, j :: 0 <= i < j < |rows| ==> rows[i].createdAt >= rows[j].createdAt
  }

  /** Puts `row` into a newest-first list, before the first row that is not newer than it. */
  function Insert(row: Calavera, rows: seq<Calavera>): (r: seq<Calavera>)
    requires NewestFirst(rows)
    ensures NewestFirst(r)
    ensures multiset(r) == multiset(rows) + multiset{row}
    ensures r[0] == row || (rows != [] && r[0] == rows[0])
  {
    if rows == [] || rows[0].createdAt <= row.createdAt then
      [row] + rows
    else
      var rest := Insert(row, rows[1..]);
      assert rows == [rows[0]] + rows[1..];
      assert rest[0].createdAt <= rows[0].createdAt;
      assert forall j :: 0 <= j < |rest| ==> rest[j].createdAt <= rows[0].createdAt;
      assert multiset([rows[0]] + rest) == multiset{rows[0]} + multiset(rest);
      [rows[0]] + rest
  }

  /** The rows ordered newest first; rows created at the same time come in no promised order. */
  function SortNewestFirst(rows: seq<Calavera>): (r: seq<Calavera>)
    ensures NewestFirst(r)
    ensures multiset(r) == multiset(rows)
  {
    if rows == [] then []
    else
      assert rows == [rows[0]] + rows[1..];
      Insert(rows[0], SortNewestFirst(rows[1..]))
  }

  /**
   * The handler: an email that is missing (`""`) or fails `isValidEmail` is
   * refused before any read; otherwise the query either fails or returns the
   * rows of that email, newest first.
   */
  function ListCalaveras(artifacts: seq<Calavera>, email: string, queryFails: bool): (r: Listed)
    ensures r == BadQuery <==> !IsValidEmail(email)
    ensures r == QueryFailed <==> IsValidEmail(email) && queryFails
    ensures r.Rows? ==> NewestFirst(r.rows) && multiset(r.rows) == multiset(Owned(artifacts, email))
  {
    if email == [] || !IsValidEmail(email) then BadQuery
    else if queryFails then QueryFailed
    else Rows(SortNewestFirst(Owned(artifacts, email)))
  }

  /** A listing holds exactly the rows of the table that belong to the query email. */
  lemma ListingHoldsOwnRows(artifacts: seq<Calavera>, email: string, c: Calavera)
    requires ListCalaveras(artifacts, email, false).Rows?
    ensures c in ListCalaveras(artifacts, email, false).rows <==> c in artifacts && c.email == email
  {
    var rows := ListCalaveras(artifacts, email, false).rows;
    assert c in rows <==> c in multiset(rows);
    assert c in Owned(artifacts, email) <==> c in multiset(Owned(artifacts, email));
  }

  /**
   * Generating then listing: after a successful request its email's listing
   * succeeds and holds a row with the response's id, text and background.
   */
  lemma CreatedIsListed(db: Db, allowed: seq<string>, req: Request, generator: Prompt -> Generation,
                        rnd: UnitInterval, fault: Fault, now: int)
    ensures var o := GenerateStep(db, allowed, req, generator, rnd, fault, now);
            o.resp.Created? ==>
              && ListCalaveras(o.db.artifacts, req.email, false).Rows?
              && exists c :: && c in ListCalaveras(o.db.artifacts, req.email, false).rows
                             && c.id == o.resp.id && c.text == o.resp.text && c.background == o.resp.background
  {
    var o := GenerateStep(db, allowed, req, generator, rnd, fault, now);
    if o.resp.Created? {
      SuccessEffects(db, allowed, req, generator, rnd, fault, now);
      InputChecksInOrder(req, allowed);
      var domain := CheckInput(req, allowed).domain;
      var reply := generator(PromptFor(req, CompanyName(domain)));
      var background := ChooseBackground(domain, rnd);
      AcceptedRequestTransacts(db, allowed, req, generator, rnd, fault, now);
      CommitEffects(db, req, domain, reply, background, fault, now);
      var row := NewRow(db.nextId, req, reply.text, domain, background, now);
      assert row in o.db.artifacts;
      ListingHoldsOwnRows(o.db.artifacts, req.email, row);
    }
  }
}
