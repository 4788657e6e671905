/**
 * The application's store: the `urls` table updated in place by the create,
 * redirect and stats handlers, each taken apart from its HTTP plumbing.
 * Storage failures are inputs (a Fault, or a flag for a failing query) and
 * the generator's entropy is a sequence of candidate buffers, one per attempt.
 */
module LinkStore {
  import opened Wrappers
  import opened ShortCode
  import opened Url
  import opened LinkTable

  class Store {
    /** The rows of `urls`, keyed by short code. */
    var records: Table
    /** The id AUTOINCREMENT gives the next inserted row. */
    var nextId: nat

    ghost predicate Valid()
      reads this
    {
      WellFormed(records, nextId)
    }

    /** A freshly created, empty table. */
    constructor ()
      ensures Valid()
      ensures records == map[] && nextId == 1
    {
      records := map[];
      nextId := 1;
    }

    /**
     * The generate-until-unused loop of a create request: one candidate code
     * per entropy buffer, each checked against the table, stopping at the
     * first unused one. A failing existence query ends the search.
     */
    method DrawUnusedCode(draws: seq<Entropy>, fault: Fault) returns (r: Result<string, Error>)
      ensures r == FindFreeCode(records, draws, fault, 0)
      ensures r.Success? ==> r.value !in records && MatchesRoute(r.value)
    {
      var attempt := 0;
      while true
        invariant attempt <= |draws|
        invariant FindFreeCode(records, draws, fault, attempt) == FindFreeCode(records, draws, fault, 0)
        decreases |draws| - attempt
      {
        if attempt == |draws| {
          return Failure(CodesExhausted);
        }
        var code := GenerateShortCode(draws[attempt]);
        if fault == QueryFailsAt(attempt) {
          return Failure(DatabaseError);
        }
        var taken := code in records;
        if !taken {
          return Success(code);
        }
        attempt := attempt + 1;
      }
    }

    /**
     * Handles a create request: refuses an empty URL, normalises the scheme,
     * draws candidate codes until one is unused, then inserts the new record.
     * The table changes only by that one insertion.
     */
    method Create(url: string, draws: seq<Entropy>, fault: Fault, now: Timestamp)
      returns (r: Result<LinkRecord, Error>)
      requires Valid()
      modifies this
      ensures Valid()
      ensures r == CreateOutcome(old(records), old(nextId), url, draws, fault, now)
      ensures records == AfterCreate(old(records), r)
      ensures nextId == if r.Success? then old(nextId) + 1 else old(nextId)
    {
      if url == "" {
        return Failure(UrlRequired);
      }
      var longURL := NormalizeScheme(url);

      var found := DrawUnusedCode(draws, fault);
      if found.Failure? {
        return Failure(found.error);
      }
      var code := found.value;

      if fault == InsertFails {
        return Failure(InsertFailed);
      }
      r := Success(LinkRecord(nextId, code, longURL, now, 0));
      assert r == CreateOutcome(records, nextId, url, draws, fault, now);
      CreateKeepsWellFormed(records, nextId, url, draws, fault, now);
      records := records[code := r.value];
      nextId := nextId + 1;
    }

    /**
     * Handles a redirect request: looks the code up and, when it is found,
     * adds one click to that record and returns its URL.
     */
    method Redirect(code: string, queryFails: bool) returns (r: Result<string, Error>)
      requires Valid()
      modifies this
      ensures Valid()
      ensures r == LinkTable.Redirect(old(records), code, queryFails)
      ensures records == AfterRedirect(old(records), code, queryFails)
      ensures nextId == old(nextId)
    {
      var found := Lookup(records, code, queryFails);
      if found.Failure? {
        return Failure(found.error);
      }
      var clicked := found.value.(clickCount := found.value.clickCount + 1);
      assert records[code := clicked] == AfterRedirect(records, code, queryFails);
      RedirectKeepsWellFormed(records, nextId, code, queryFails);
      records := records[code := clicked];
      r := Success(found.value.longURL);
    }

    /**
     * Handles a stats request: refuses an empty code; otherwise returns the
     * whole record under the code, with its current click count, or says
     * why there is none. Reads the table and never changes it.
     */
    method Stats(code: string, queryFails: bool) returns (r: Result<LinkRecord, Error>)
      requires Valid()
      ensures r == Failure(CodeRequired) <==> code == ""
      ensures r.Success? <==> code != "" && !queryFails && code in records
      ensures r.Success? ==> r.value == records[code] && r.value.shortCode == code
      ensures code != "" && queryFails ==> r == Failure(DatabaseError)
      ensures code != "" && !queryFails && code !in records ==> r == Failure(NotFound)
    {
      if code == "" {
        return Failure(CodeRequired);
      }
      r := Lookup(records, code, queryFails);
    }
  }

  /**
   * The request sequence the service is expected to handle: a link created
   * for a scheme-less URL redirects to its `https://` form, each redirect
   * adds one click that stats then reports, and an unknown code is not found
   * and creates nothing.
   */
  method ClientScenario(draw: Entropy, now: Timestamp)
  {
    var store := new Store();
    NormalizeExamples();
    var created := store.Create("example.com", [draw], NoFault, now);
    assert FindFreeCode(map[], [draw], NoFault, 0) == Success(ShortCodeOf(draw));
    assert created.Success?;
    var code := created.value.shortCode;
    assert created.value.longURL == "https://example.com";
    assert created.value.clickCount == 0;

    var target := store.Redirect(code, false);
    assert target == Success("https://example.com");
    var stats := store.Stats(code, false);
    assert stats.Success? && stats.value.clickCount == 1;

    target := store.Redirect(code, false);
    stats := store.Stats(code, false);
    assert stats.Success? && stats.value.clickCount == 2;

    var unknown := "nosuch";
    if unknown != code {
      var missing := store.Redirect(unknown, false);
      assert missing == Failure(NotFound);
      assert unknown !in store.records;
    }
  }
}
