/**
 * The `urls` table as a value: records keyed by short code, and the outcome
 * of each table operation (create, redirect, stats) as a function of the
 * table before it. The store class in LinkStore is verified against these.
 */
module LinkTable {
  import opened Wrappers
  import opened ShortCode
  import opened Url

  /** Insertion time; the clock is outside the model and supplies it. */
  type Timestamp = int

  /** One row of `urls`. */
  datatype LinkRecord = LinkRecord(
    id: nat,
    shortCode: string,
    longURL: string,
    createdAt: Timestamp,
    clickCount: nat)

  /** The table, keyed by its unique `short_code` column. */
  type Table = map<string, LinkRecord>

  /** The outcomes the handlers report instead of a record or URL. */
  datatype Error =
    | UrlRequired     // 400 "URL is required"
    | CodeRequired    // 400 "Short code is required"
    | NotFound        // 404
    | DatabaseError   // 500 "Database error"
    | InsertFailed    // 500 "Failed to create short URL"
    | CodesExhausted  // no unused code among the candidates

  /** Where the storage engine fails during a create, if it does. */
  datatype Fault =
    | NoFault
    | QueryFailsAt(attempt: nat)  // the existence query of that attempt fails
    | InsertFails                 // the INSERT fails

  /**
   * The table's constraints: each record sits under its own short code,
   * which the redirect route accepts; each stored URL has a scheme; ids are
   * positive, below the next id and unique.
   */
  ghost predicate WellFormed(t: Table, nextId: nat) {
    && nextId >= 1
    && (forall c :: c in t ==> t[c].shortCode == c && MatchesRoute(c))
    && (forall c :: c in t ==> HasScheme(t[c].longURL))
    && (forall c :: c in t ==> 1 <= t[c].id < nextId)
    && (forall c, d :: c in t && d in t && t[c].id == t[d].id ==> c == d)
  }

  /**
   * The generate-until-unused search from attempt `attempt` on: the first
   * candidate whose code is not in the table, unless the existence query
   * fails first or the candidates run out.
   */
  function FindFreeCode(t: Table, draws: seq<Entropy>, fault: Fault, attempt: nat): (r: Result<string, Error>)
    decreases |draws| - attempt
    ensures r.Success? ==> r.value !in t && MatchesRoute(r.value)
    ensures r.Failure? ==> r.error == DatabaseError || r.error == CodesExhausted
    ensures r == Failure(DatabaseError) ==> fault.QueryFailsAt? && attempt <= fault.attempt < |draws|
  {
    if attempt >= |draws| then Failure(CodesExhausted)
    else if fault == QueryFailsAt(attempt) then Failure(DatabaseError)
    else if ShortCodeOf(draws[attempt]) !in t then
      Success(ShortCodeOf(draws[attempt]))
    else FindFreeCode(t, draws, fault, attempt + 1)
  }

  /**
   * A code the search returns is the first candidate code not in the table:
   * every candidate before it collided.
   */
  lemma {:induction false} FoundCodeIsFirstUnused(t: Table, draws: seq<Entropy>, fault: Fault, attempt: nat)
    returns (k: nat)
    requires FindFreeCode(t, draws, fault, attempt).Success?
    decreases |draws| - attempt
    ensures attempt <= k < |draws|
    ensures FindFreeCode(t, draws, fault, attempt).value == ShortCodeOf(draws[k])
    ensures forall j :: attempt <= j < k ==> ShortCodeOf(draws[j]) in t
  {
    if ShortCodeOf(draws[attempt]) !in t {
      k := attempt;
    } else {
      k := FoundCodeIsFirstUnused(t, draws, fault, attempt + 1);
    }
  }

  /** The search reports exhaustion only when every candidate collided. */
  lemma {:induction false} ExhaustedMeansAllTaken(t: Table, draws: seq<Entropy>, fault: Fault, attempt: nat)
    requires FindFreeCode(t, draws, fault, attempt) == Failure(CodesExhausted)
    decreases |draws| - attempt
    ensures forall k :: attempt <= k < |draws| ==> ShortCodeOf(draws[k]) in t
  {
    if attempt < |draws| {
      ExhaustedMeansAllTaken(t, draws, fault, attempt + 1);
    }
  }

  /**
   * A storage error is reported only for an attempt the search reached: every
   * candidate before the failing query collided.
   */
  lemma {:induction false} DatabaseErrorMeansReached(t: Table, draws: seq<Entropy>, fault: Fault, attempt: nat)
    requires FindFreeCode(t, draws, fault, attempt) == Failure(DatabaseError)
    decreases |draws| - attempt
    ensures fault.QueryFailsAt? && attempt <= fault.attempt < |draws|
    ensures forall j :: attempt <= j < fault.attempt ==> ShortCodeOf(draws[j]) in t
  {
    if fault != QueryFailsAt(attempt) {
      DatabaseErrorMeansReached(t, draws, fault, attempt + 1);
    }
  }

  /**
   * Conversely, when every candidate before attempt k collided and the query
   * of attempt k fails, the search reports a storage error.
   */
  lemma {:induction false} ReachedFailingQueryGivesDatabaseError(t: Table, draws: seq<Entropy>, attempt: nat, k: nat)
    requires attempt <= k < |draws|
    requires forall j :: attempt <= j < k ==> ShortCodeOf(draws[j]) in t
    decreases k - attempt
    ensures FindFreeCode(t, draws, QueryFailsAt(k), attempt) == Failure(DatabaseError)
  {
    if attempt < k {
      ReachedFailingQueryGivesDatabaseError(t, draws, attempt + 1, k);
    }
  }

  /**
   * Outcome of a create request: an empty URL is refused before the table is
   * touched; otherwise the new record carries the first unused candidate code,
   * the normalised URL, the next id and no clicks.
   */
  function CreateOutcome(t: Table, nextId: nat, url: string, draws: seq<Entropy>, fault: Fault, now: Timestamp)
    : (r: Result<LinkRecord, Error>)
    ensures r == Failure(UrlRequired) <==> url == ""
    ensures r.Success? ==>
              && r.value.shortCode !in t
              && MatchesRoute(r.value.shortCode)
              && r.value.longURL == NormalizeScheme(url)
              && r.value.id == nextId
              && r.value.createdAt == now
              && r.value.clickCount == 0
    ensures r.Success? ==> fault != InsertFails
    ensures url != "" ==>
              (r.Success? <==> FindFreeCode(t, draws, fault, 0).Success? && fault != InsertFails)
    ensures url != "" && r.Success? ==> r.value.shortCode == FindFreeCode(t, draws, fault, 0).value
    ensures url != "" && FindFreeCode(t, draws, fault, 0).Failure? ==>
              r == Failure(FindFreeCode(t, draws, fault, 0).error)
    ensures url != "" && FindFreeCode(t, draws, fault, 0).Success? && fault == InsertFails ==>
              r == Failure(InsertFailed)
  {
    if url == "" then Failure(UrlRequired)
    else
      match FindFreeCode(t, draws, fault, 0)
      case Failure(e) => Failure(e)
      case Success(code) =>
        if fault == InsertFails then Failure(InsertFailed)
        else Success(LinkRecord(nextId, code, NormalizeScheme(url), now, 0))
  }

  /**
   * The table after a create that returned `r`: a created record is stored
   * under its code, and every other row is kept as it was.
   */
  function AfterCreate(t: Table, r: Result<LinkRecord, Error>): (t': Table)
    ensures t'.Keys == if r.Success? then t.Keys + {r.value.shortCode} else t.Keys
    ensures r.Success? ==> t'[r.value.shortCode] == r.value
    ensures forall c :: c in t && (r.Failure? || c != r.value.shortCode) ==> t'[c] == t[c]
  {
    if r.Success? then t[r.value.shortCode := r.value] else t
  }

  /**
   * Inserting a record under an unused, route-shaped code, with a URL that
   * has a scheme and the next id, keeps every earlier record as it was, adds
   * exactly the one new record, whose id is above every existing id, and keeps
   * the table well formed.
   */
  lemma {:induction false} InsertKeepsWellFormed(t: Table, nextId: nat, rec: LinkRecord)
    requires WellFormed(t, nextId)
    requires rec.shortCode !in t && MatchesRoute(rec.shortCode)
    requires HasScheme(rec.longURL) && rec.id == nextId
    ensures var t' := t[rec.shortCode := rec];
            && WellFormed(t', nextId + 1)
            && t'.Keys == t.Keys + {rec.shortCode}
            && (forall c :: c in t ==> t'[c] == t[c] && t[c].id < rec.id)
  {
    var t' := t[rec.shortCode := rec];
    assert t'.Keys == t.Keys + {rec.shortCode};
    forall c, d | c in t' && d in t' && t'[c].id == t'[d].id
      ensures c == d
    {
      if c != rec.shortCode && d != rec.shortCode {
        assert t'[c] == t[c] && t'[d] == t[d];
      }
    }
  }

  /**
   * A create keeps the table well formed: a successful one inserts exactly
   * its new record, a failed one leaves the table alone.
   */
  lemma {:induction false} CreateKeepsWellFormed(t: Table, nextId: nat, url: string, draws: seq<Entropy>, fault: Fault, now: Timestamp)
    requires WellFormed(t, nextId)
    ensures var r := CreateOutcome(t, nextId, url, draws, fault, now);
            && (r.Failure? ==> AfterCreate(t, r) == t)
            && (r.Success? ==> WellFormed(AfterCreate(t, r), nextId + 1))
  {
    var r := CreateOutcome(t, nextId, url, draws, fault, now);
    if r.Success? {
      InsertKeepsWellFormed(t, nextId, r.value);
    }
  }

  /**
   * Two creates in a row, the second drawing possibly the same candidates as
   * the first, never issue the same code twice, and the second record's id
   * follows the first's.
   */
  lemma SuccessiveCreatesDiffer(
    t: Table, nextId: nat,
    url1: string, draws1: seq<Entropy>, fault1: Fault, now1: Timestamp,
    url2: string, draws2: seq<Entropy>, fault2: Fault, now2: Timestamp)
    requires WellFormed(t, nextId)
    requires CreateOutcome(t, nextId, url1, draws1, fault1, now1).Success?
    requires var t1 := AfterCreate(t, CreateOutcome(t, nextId, url1, draws1, fault1, now1));
             CreateOutcome(t1, nextId + 1, url2, draws2, fault2, now2).Success?
    ensures var r1 := CreateOutcome(t, nextId, url1, draws1, fault1, now1);
            var r2 := CreateOutcome(AfterCreate(t, r1), nextId + 1, url2, draws2, fault2, now2);
            r2.value.shortCode != r1.value.shortCode && r2.value.id == r1.value.id + 1
  {
  }

  /** The record a code names, unless the query fails or no record has it. */
  function Lookup(t: Table, code: string, queryFails: bool): (r: Result<LinkRecord, Error>)
    ensures r.Success? <==> !queryFails && code in t
    ensures r.Success? ==> r.value == t[code]
    ensures r.Failure? ==> r.error == (if queryFails then DatabaseError else NotFound)
  {
    if queryFails then Failure(DatabaseError)
    else if code in t then Success(t[code])
    else Failure(NotFound)
  }

  /**
   * Outcome of a redirect request: the stored URL of the code, or why there
   * is none.
   */
  function Redirect(t: Table, code: string, queryFails: bool): (r: Result<string, Error>)
    ensures r.Success? <==> !queryFails && code in t
    ensures r.Success? ==> r.value == t[code].longURL
    ensures r.Failure? ==> r.error == (if queryFails then DatabaseError else NotFound)
  {
    match Lookup(t, code, queryFails)
    case Success(rec) => Success(rec.longURL)
    case Failure(e) => Failure(e)
  }

  /**
   * The table after a redirect request: a found record gains one click; the
   * codes and every other row stay as they were.
   */
  function AfterRedirect(t: Table, code: string, queryFails: bool): (t': Table)
    ensures t'.Keys == t.Keys
    ensures forall c :: c in t && (queryFails || c != code) ==> t'[c] == t[c]
    ensures !queryFails && code in t ==> t'[code].clickCount == t[code].clickCount + 1
    ensures !queryFails && code in t ==> t'[code].(clickCount := t[code].clickCount) == t[code]
  {
    if !queryFails && code in t then t[code := t[code].(clickCount := t[code].clickCount + 1)]
    else t
  }

  /**
   * A redirect to a present code returns that record's URL and adds exactly
   * one click to it; no other record and no other field changes.
   */
  lemma RedirectHit(t: Table, code: string)
    requires code in t
    ensures Redirect(t, code, false) == Success(t[code].longURL)
    ensures var t' := AfterRedirect(t, code, false);
            && t'.Keys == t.Keys
            && t'[code].clickCount == t[code].clickCount + 1
            && t'[code] == t[code].(clickCount := t'[code].clickCount)
            && (forall c :: c in t && c != code ==> t'[c] == t[c])
  {
  }

  /**
   * A redirect to an absent code reports not-found, a failed query reports a
   * storage error (never not-found); neither changes the table.
   */
  lemma RedirectMiss(t: Table, code: string, queryFails: bool)
    requires queryFails || code !in t
    ensures Redirect(t, code, queryFails) == Failure(if queryFails then DatabaseError else NotFound)
    ensures AfterRedirect(t, code, queryFails) == t
  {
  }

  /** Redirects keep the table well formed. */
  lemma {:induction false} RedirectKeepsWellFormed(t: Table, nextId: nat, code: string, queryFails: bool)
    requires WellFormed(t, nextId)
    ensures WellFormed(AfterRedirect(t, code, queryFails), nextId)
  {
    var t' := AfterRedirect(t, code, queryFails);
    if !queryFails && code in t {
      assert t'.Keys == t.Keys;
      assert forall c :: c in t' ==> t'[c].id == t[c].id;
    }
  }

  /** The table after n successful redirects to the same code. */
  function RedirectTimes(t: Table, code: string, n: nat): Table
    decreases n
  {
    if n == 0 then t else AfterRedirect(RedirectTimes(t, code, n - 1), code, false)
  }

  /**
   * n sequential redirects to a present code add exactly n clicks to it and
   * change no other record.
   */
  lemma {:induction false} ClicksAccumulate(t: Table, code: string, n: nat)
    requires code in t
    ensures var t' := RedirectTimes(t, code, n);
            && t'.Keys == t.Keys
            && t'[code] == t[code].(clickCount := t[code].clickCount + n)
            && (forall c :: c in t && c != code ==> t'[c] == t[c])
  {
    if n > 0 {
      ClicksAccumulate(t, code, n - 1);
    }
  }

  /**
   * A newly created link redirects to the normalised URL it was created
   * with, and after two redirects its count is 2.
   */
  lemma {:induction false} CreateThenRedirect(t: Table, nextId: nat, url: string, draws: seq<Entropy>, now: Timestamp)
    requires WellFormed(t, nextId)
    requires CreateOutcome(t, nextId, url, draws, NoFault, now).Success?
    ensures var rec := CreateOutcome(t, nextId, url, draws, NoFault, now).value;
            var t1 := AfterCreate(t, Success(rec));
            && Redirect(t1, rec.shortCode, false) == Success(NormalizeScheme(url))
            && RedirectTimes(t1, rec.shortCode, 1)[rec.shortCode].clickCount == 1
            && RedirectTimes(t1, rec.shortCode, 2)[rec.shortCode].clickCount == 2
  {
    var rec := CreateOutcome(t, nextId, url, draws, NoFault, now).value;
    var t1 := AfterCreate(t, Success(rec));
    ClicksAccumulate(t1, rec.shortCode, 1);
    ClicksAccumulate(t1, rec.shortCode, 2);
  }
}
