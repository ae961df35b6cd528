/** Sequences of service calls, as a client of the service sees them. */
module Scenarios {
  import opened Wrappers
  import opened UrlEntity
  import opened UrlRepository
  import opened Shortener

  /** Shortening the same URL twice, or a spelling that normalises to the same
      URL, returns the same mapping and adds no second row. */
  method ShortenTwice(s: UrlService, first: string, second: string, indices1: seq<nat>, indices2: seq<nat>, now1: nat, now2: nat)
    returns (r1: Result<UrlResponse, ServiceError>, r2: Result<UrlResponse, ServiceError>)
    requires s.Valid() && AllocationDraws(indices1) && AllocationDraws(indices2)
    requires NormalizeUrl(first) == NormalizeUrl(second)
    modifies s
    ensures s.Valid()
    ensures r1.Ok? ==> r2 == r1
    ensures FindOne(old(s.urls), OriginalUrlIs(NormalizeUrl(first))).Some? ==> s.urls == old(s.urls)
    ensures r1.Ok? ==>
      |s.urls| == |old(s.urls)| + (if FindOne(old(s.urls), OriginalUrlIs(NormalizeUrl(first))).Some? then 0 else 1)
  {
    r1 := s.CreateShortUrl(first, indices1, now1);
    ghost var between := s.urls;
    r2 := s.CreateShortUrl(second, indices2, now2);
    assert r1.Ok? ==> s.urls == between;
  }

  /** A redirect counts exactly one click, as the statistics before and after
      show; an unknown code is NotFound for both and changes nothing. */
  method ResolveBetweenStats(s: UrlService, shortCode: string)
    returns (before: Result<UrlResponse, ServiceError>, target: Result<string, ServiceError>, after: Result<UrlResponse, ServiceError>)
    requires s.Valid()
    modifies s
    ensures s.Valid()
    ensures before.Err? ==> target == Err(NotFound) && after == before && s.urls == old(s.urls)
    ensures before.Ok? ==>
      && after.Ok?
      && target == Ok(before.value.originalUrl)
      && after.value.shortCode == before.value.shortCode
      && after.value.clickCount == before.value.clickCount + 1
  {
    before := s.GetUrlStats(shortCode);
    target := s.GetOriginalUrl(shortCode);
    after := s.GetUrlStats(shortCode);
  }
}
