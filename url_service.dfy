/** The URL-shortening service: normalisation, short-code allocation and the
    three operations on the table (shorten, resolve, stats). */
module Shortener {
  import opened Wrappers
  import opened UrlEntity
  import opened UrlRepository
  import opened ShortCode

  const DEFAULT_BASE_URL: string := "http://localhost:3001"
  const DEFAULT_SCHEME: string := "https://"
  const MAX_ATTEMPTS: nat := 10

  /** The two exceptions the service throws. */
  datatype ServiceError = NotFound | Conflict

  /** What the service returns for a mapping. */
  datatype UrlResponse = UrlResponse(
    id: nat,
    originalUrl: string,
    shortCode: string,
    shortUrl: string,
    clickCount: nat,
    createdAt: nat)

  /** `process.env.BASE_URL || default`: an unset or empty variable falls back
      to the default. */
  function BaseUrlFromEnv(env: Option<string>): (base: string)
    ensures base != []
    ensures env.Some? && env.value != [] ==> base == env.value
    ensures env.None? || env.value == [] ==> base == DEFAULT_BASE_URL
  {
    if env.Some? && env.value != [] then env.value else DEFAULT_BASE_URL
  }

  predicate HasScheme(url: string)
  {
    "http://" <= url || "https://" <= url
  }

  /** Prepend `https://` unless the URL already starts with `http://` or
      `https://` (case-sensitive, as `startsWith` is). */
  function NormalizeUrl(url: string): (r: string)
    ensures HasScheme(r)
    ensures r == url <==> HasScheme(url)
    ensures !HasScheme(url) ==> r == DEFAULT_SCHEME + url
  {
    if !("http://" <= url) && !("https://" <= url) then DEFAULT_SCHEME + url else url
  }

  /** Normalising an already normalised URL changes nothing. */
  lemma NormalizeUrlIdempotent(url: string)
    ensures NormalizeUrl(NormalizeUrl(url)) == NormalizeUrl(url)
  {
  }

  /** A URL without a scheme gets `https://` exactly once. */
  lemma NormalizeUrlExample()
    ensures NormalizeUrl("example.com/path") == "https://example.com/path"
    ensures NormalizeUrl("https://example.com/very-long-url") == "https://example.com/very-long-url"
  {
    assert "example.com/path"[0] != 'h';
    assert "https://" <= "https://example.com/very-long-url";
  }

  /** The short code a redirect request for `shortUrl` carries: the path after
      `baseUrl + "/"`. */
  function ShortCodeOfShortUrl(baseUrl: string, shortUrl: string): Option<string>
  {
    if baseUrl + "/" <= shortUrl then Some(shortUrl[|baseUrl| + 1..]) else None
  }

  /** The response copies the row's fields, and its `shortUrl` leads back to
      the row's short code. */
  function FormatUrlToResponseDto(baseUrl: string, u: Url): (r: UrlResponse)
    ensures r.id == u.id && r.originalUrl == u.originalUrl && r.shortCode == u.shortCode
    ensures r.clickCount == u.clickCount && r.createdAt == u.createdAt
    ensures ShortCodeOfShortUrl(baseUrl, r.shortUrl) == Some(u.shortCode)
  {
    var shortUrl := baseUrl + "/" + u.shortCode;
    assert (baseUrl + "/") + u.shortCode == shortUrl;
    UrlResponse(u.id, u.originalUrl, u.shortCode, shortUrl, u.clickCount, u.createdAt)
  }

  /** The random draws one allocation may consume: six per attempt. */
  predicate AllocationDraws(indices: seq<nat>)
  {
    |indices| == MAX_ATTEMPTS * SHORT_CODE_LENGTH && ValidIndices(indices)
  }

  /** The draws of one attempt. */
  function AttemptDraws(indices: seq<nat>, attempt: nat): (d: seq<nat>)
    requires AllocationDraws(indices) && attempt < MAX_ATTEMPTS
    ensures |d| == SHORT_CODE_LENGTH
  {
    indices[attempt * SHORT_CODE_LENGTH .. (attempt + 1) * SHORT_CODE_LENGTH]
  }

  /** Each attempt's draws are valid indices. */
  lemma AttemptDrawsValid(indices: seq<nat>, attempt: nat)
    requires AllocationDraws(indices) && attempt < MAX_ATTEMPTS
    ensures ValidIndices(AttemptDraws(indices, attempt))
  {
  }

  /** The candidate code of one attempt. */
  function Candidate(indices: seq<nat>, attempt: nat): string
    requires AllocationDraws(indices) && attempt < MAX_ATTEMPTS
  {
    AttemptDrawsValid(indices, attempt);
    CodeOf(AttemptDraws(indices, attempt))
  }

  /** The retry loop from `attempt` on: the first attempt whose candidate no
      row uses, or None once the attempts run out. */
  ghost function FirstFreeAttempt(urls: seq<Url>, indices: seq<nat>, attempt: nat): Option<nat>
    requires AllocationDraws(indices) && attempt <= MAX_ATTEMPTS
    decreases MAX_ATTEMPTS - attempt
  {
    if attempt == MAX_ATTEMPTS then None
    else if !InUse(urls, Candidate(indices, attempt)) then Some(attempt)
    else FirstFreeAttempt(urls, indices, attempt + 1)
  }

  /** One turn of the retry loop: the lookup of the candidate decides whether
      the loop stops here or moves on to the next attempt. */
  lemma FirstFreeAttemptStep(urls: seq<Url>, indices: seq<nat>, attempt: nat)
    requires AllocationDraws(indices) && attempt < MAX_ATTEMPTS
    ensures FindOne(urls, ShortCodeIs(Candidate(indices, attempt))).None? ==>
      FirstFreeAttempt(urls, indices, attempt) == Some(attempt)
    ensures FindOne(urls, ShortCodeIs(Candidate(indices, attempt))).Some? ==>
      FirstFreeAttempt(urls, indices, attempt) == FirstFreeAttempt(urls, indices, attempt + 1)
  {
    FindOneByCodeIffInUse(urls, Candidate(indices, attempt));
  }

  /** Every candidate from `from` up to `to` is already taken. */
  ghost predicate AllTaken(urls: seq<Url>, indices: seq<nat>, from: nat, to: nat)
    requires AllocationDraws(indices) && to <= MAX_ATTEMPTS
  {
    forall j :: from <= j < to ==> InUse(urls, Candidate(indices, j))
  }

  /** A taken candidate extends the run of taken ones below it. */
  lemma AllTakenExtend(urls: seq<Url>, indices: seq<nat>, attempt: nat, k: nat)
    requires AllocationDraws(indices) && attempt < k <= MAX_ATTEMPTS
    requires InUse(urls, Candidate(indices, attempt)) && AllTaken(urls, indices, attempt + 1, k)
    ensures AllTaken(urls, indices, attempt, k)
  {
  }

  /** The loop stops at attempt `k` exactly when the candidate of `k` is free
      and every candidate before it, from `attempt` on, is taken; it runs out
      exactly when every remaining candidate is taken. */
  lemma {:induction false} FirstFreeAttemptSpec(urls: seq<Url>, indices: seq<nat>, attempt: nat)
    requires AllocationDraws(indices) && attempt <= MAX_ATTEMPTS
    ensures match FirstFreeAttempt(urls, indices, attempt)
      case Some(k) =>
        attempt <= k < MAX_ATTEMPTS && !InUse(urls, Candidate(indices, k)) && AllTaken(urls, indices, attempt, k)
      case None => AllTaken(urls, indices, attempt, MAX_ATTEMPTS)
    decreases MAX_ATTEMPTS - attempt
  {
    if attempt < MAX_ATTEMPTS {
      if InUse(urls, Candidate(indices, attempt)) {
        FirstFreeAttemptSpec(urls, indices, attempt + 1);
        match FirstFreeAttempt(urls, indices, attempt + 1)
        case Some(k) => AllTakenExtend(urls, indices, attempt, k);
        case None => AllTakenExtend(urls, indices, attempt, MAX_ATTEMPTS);
      }
    }
  }

  /** Every candidate is a well-formed short code. */
  lemma CandidateIsShortCode(indices: seq<nat>, attempt: nat)
    requires AllocationDraws(indices) && attempt < MAX_ATTEMPTS
    ensures IsShortCode(Candidate(indices, attempt))
  {
    AttemptDrawsValid(indices, attempt);
    CodeOfIsShortCode(AttemptDraws(indices, attempt));
  }

  /** The outcome of the allocation: a well-formed code that no row uses, or
      Conflict exactly when all MAX_ATTEMPTS candidates are taken. */
  ghost function UniqueShortCode(urls: seq<Url>, indices: seq<nat>): (r: Result<string, ServiceError>)
    requires AllocationDraws(indices)
    ensures r.Ok? ==> IsShortCode(r.value) && !InUse(urls, r.value)
    ensures r.Err? <==> AllTaken(urls, indices, 0, MAX_ATTEMPTS)
    ensures r.Err? ==> r.error == Conflict
  {
    FirstFreeAttemptSpec(urls, indices, 0);
    match FirstFreeAttempt(urls, indices, 0)
    case Some(k) =>
      CandidateIsShortCode(indices, k);
      Ok(Candidate(indices, k))
    case None => Err(Conflict)
  }

  /** The table invariant: both unique indexes hold and every id is below the
      next one to be issued. */
  ghost predicate TableInvariant(urls: seq<Url>, nextId: nat)
  {
    && CodesUnique(urls)
    && IdsUnique(urls)
    && forall i :: 0 <= i < |urls| ==> urls[i].id < nextId
  }

  /** Appending a row with the next id and an unused code keeps the table
      invariant, and the table only grows. */
  lemma AppendKeepsInvariant(urls: seq<Url>, nextId: nat, row: Url)
    requires TableInvariant(urls, nextId)
    requires row.id == nextId && !InUse(urls, row.shortCode)
    ensures TableInvariant(urls + [row], nextId + 1) && Grows(urls, urls + [row])
    ensures InUse(urls + [row], row.shortCode)
  {
    var after := urls + [row];
    assert after[|urls|] == row;
    forall i, j | 0 <= i < j < |after|
      ensures after[i].shortCode != after[j].shortCode && after[i].id != after[j].id
    {
      if j == |urls| {
        assert after[i] == urls[i];
      }
    }
  }

  /** A bound strictly above every id in the table. */
  function IdBound(urls: seq<Url>): (b: nat)
    ensures forall i :: 0 <= i < |urls| ==> urls[i].id < b
  {
    if |urls| == 0 then 0
    else
      var rest := IdBound(urls[..|urls| - 1]);
      var last := urls[|urls| - 1].id + 1;
      if rest < last then last else rest
  }

  class UrlService {
    const baseUrl: string
    var urls: seq<Url>
    var nextId: nat

    ghost predicate Valid()
      reads this
    {
      TableInvariant(urls, nextId)
    }

    /** The service over an existing table that satisfies its unique indexes. */
    constructor (env: Option<string>, existing: seq<Url>)
      requires CodesUnique(existing) && IdsUnique(existing)
      ensures Valid()
      ensures baseUrl == BaseUrlFromEnv(env) && urls == existing
    {
      baseUrl := BaseUrlFromEnv(env);
      urls := existing;
      nextId := IdBound(existing);
    }

    /** Shorten `url`: return the first row already holding its normalised
        form, or else insert a row with a freshly allocated code and a zero
        counter. */
    method CreateShortUrl(url: string, indices: seq<nat>, now: nat) returns (r: Result<UrlResponse, ServiceError>)
      requires Valid() && AllocationDraws(indices)
      modifies this
      ensures Valid() && Grows(old(urls), urls)
      ensures r.Ok? ==> r.value.originalUrl == NormalizeUrl(url) && InUse(urls, r.value.shortCode)
      ensures r.Err? ==> r.error == Conflict && urls == old(urls) && nextId == old(nextId)
      ensures FindOne(old(urls), OriginalUrlIs(NormalizeUrl(url))).Some? ==>
        && r == Ok(FormatUrlToResponseDto(baseUrl, old(urls)[FindOne(old(urls), OriginalUrlIs(NormalizeUrl(url))).value]))
        && urls == old(urls) && nextId == old(nextId)
      ensures FindOne(old(urls), OriginalUrlIs(NormalizeUrl(url))).None? ==>
        var alloc := UniqueShortCode(old(urls), indices);
        && (alloc.Err? ==> r == Err(Conflict))
        && (alloc.Ok? ==>
              var row := Url(old(nextId), NormalizeUrl(url), alloc.value, 0, now);
              && urls == old(urls) + [row]
              && nextId == old(nextId) + 1
              && r == Ok(FormatUrlToResponseDto(baseUrl, row)))
    {
      var normalizedUrl := NormalizeUrl(url);
      var existing := FindOne(urls, OriginalUrlIs(normalizedUrl));
      if existing.Some? {
        assert Matches(urls[existing.value], OriginalUrlIs(normalizedUrl));
        return Ok(FormatUrlToResponseDto(baseUrl, urls[existing.value]));
      }
      var shortCode;
      ghost var lookups;
      shortCode, lookups := GenerateUniqueShortCode(indices);
      if shortCode.Err? {
        return Err(shortCode.error);
      }
      var row := Url(nextId, normalizedUrl, shortCode.value, 0, now);
      AppendKeepsInvariant(urls, nextId, row);
      urls := urls + [row];
      nextId := nextId + 1;
      return Ok(FormatUrlToResponseDto(baseUrl, row));
    }

    /** Resolve a short code for a redirect: NotFound if no row has it,
        otherwise its original URL, counting one click on that row. */
    method GetOriginalUrl(shortCode: string) returns (r: Result<string, ServiceError>)
      requires Valid()
      modifies this
      ensures Valid() && nextId == old(nextId) && Grows(old(urls), urls)
      ensures !InUse(old(urls), shortCode) ==> r == Err(NotFound) && urls == old(urls)
      ensures InUse(old(urls), shortCode) ==>
        exists i :: 0 <= i < |old(urls)| && old(urls)[i].shortCode == shortCode
          && r == Ok(old(urls)[i].originalUrl)
          && urls == old(urls)[i := old(urls)[i].(clickCount := old(urls)[i].clickCount + 1)]
    {
      var found := FindOne(urls, ShortCodeIs(shortCode));
      FindOneByCodeIffInUse(urls, shortCode);
      if found.None? {
        return Err(NotFound);
      }
      var i := found.value;
      var url := urls[i];
      IncrementByUniqueId(urls, i);
      IncrementClickCount(url.id);
      r := Ok(url.originalUrl);
      assert old(urls)[i].shortCode == shortCode && r == Ok(old(urls)[i].originalUrl)
        && urls == old(urls)[i := old(urls)[i].(clickCount := old(urls)[i].clickCount + 1)];
    }

    /** Statistics for a short code: NotFound if no row has it, otherwise the
        row's fields with its current counter; nothing is changed. */
    method GetUrlStats(shortCode: string) returns (r: Result<UrlResponse, ServiceError>)
      ensures r.Err? <==> !InUse(urls, shortCode)
      ensures r.Err? ==> r.error == NotFound
      ensures r.Ok? ==>
        exists i :: 0 <= i < |urls| && urls[i].shortCode == shortCode
          && r.value == FormatUrlToResponseDto(baseUrl, urls[i])
    {
      var found := FindOne(urls, ShortCodeIs(shortCode));
      FindOneByCodeIffInUse(urls, shortCode);
      if found.None? {
        return Err(NotFound);
      }
      assert urls[found.value].shortCode == shortCode;
      return Ok(FormatUrlToResponseDto(baseUrl, urls[found.value]));
    }

    /** Add one click to the row with this id. */
    method IncrementClickCount(id: nat)
      requires Valid()
      modifies this
      ensures Valid() && nextId == old(nextId) && Grows(old(urls), urls)
      ensures urls == IncrementById(old(urls), id)
    {
      IncrementKeepsMappings(urls, id);
      urls := IncrementById(urls, id);
    }

    /** Spell a code from six draws, one symbol per draw. */
    method GenerateShortCode(indices: seq<nat>) returns (code: string)
      requires ValidIndices(indices) && |indices| == SHORT_CODE_LENGTH
      ensures IsShortCode(code)
      ensures code == CodeOf(indices)
    {
      CodeOfSpellsAlphabet(indices);
      CodeOfIsShortCode(indices);
      code := "";
      for i := 0 to SHORT_CODE_LENGTH
        invariant code == CodeOf(indices[..i])
      {
        code := code + [BASE_62[indices[i]]];
      }
      assert indices[..SHORT_CODE_LENGTH] == indices;
    }

    /** Try up to MAX_ATTEMPTS candidates, one table lookup each, and return
        the first one no row uses; the table is only read. */
    method GenerateUniqueShortCode(indices: seq<nat>) returns (r: Result<string, ServiceError>, ghost lookups: nat)
      requires AllocationDraws(indices)
      ensures r == UniqueShortCode(urls, indices)
      ensures 1 <= lookups <= MAX_ATTEMPTS
      ensures FirstFreeAttempt(urls, indices, 0).Some? ==> lookups == FirstFreeAttempt(urls, indices, 0).value + 1
      ensures FirstFreeAttempt(urls, indices, 0).None? ==> lookups == MAX_ATTEMPTS
    {
      var attempts := 0;
      lookups := 0;
      while attempts < MAX_ATTEMPTS
        invariant attempts <= MAX_ATTEMPTS && lookups == attempts
        invariant FirstFreeAttempt(urls, indices, attempts) == FirstFreeAttempt(urls, indices, 0)
      {
        AttemptDrawsValid(indices, attempts);
        var shortCode := GenerateShortCode(AttemptDraws(indices, attempts));
        var existing := FindOne(urls, ShortCodeIs(shortCode));
        lookups := lookups + 1;
        FirstFreeAttemptStep(urls, indices, attempts);
        if existing.None? {
          r := Ok(shortCode);
          return;
        }
        attempts := attempts + 1;
      }
      r := Err(Conflict);
    }
  }
}
