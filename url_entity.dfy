/** The `urls` table: one row per mapping from a short code to an original URL. */
module UrlEntity {

  /** One row of the table. `id` stands for the database-generated uuid and
      `createdAt` for the creation timestamp; both are opaque values issued by
      the service. `updatedAt` is not modelled. */
  datatype Url = Url(
    id: nat,
    originalUrl: string,
    shortCode: string,
    clickCount: nat,
    createdAt: nat)

  /** The unique index on `shortCode`. */
  ghost predicate CodesUnique(urls: seq<Url>)
  {
    forall i, j :: 0 <= i < j < |urls| ==> urls[i].shortCode != urls[j].shortCode
  }

  /** The primary key. */
  ghost predicate IdsUnique(urls: seq<Url>)
  {
    forall i, j :: 0 <= i < j < |urls| ==> urls[i].id != urls[j].id
  }

  /** The same mapping: everything but the click counter agrees. */
  predicate SameMapping(a: Url, b: Url)
  {
    a.id == b.id && a.originalUrl == b.originalUrl && a.shortCode == b.shortCode && a.createdAt == b.createdAt
  }

  /** The lifecycle of the table: rows are only appended, never deleted, and of
      an existing row only the click counter changes, and only upwards. */
  ghost predicate Grows(before: seq<Url>, after: seq<Url>)
  {
    && |before| <= |after|
    && forall i :: 0 <= i < |before| ==>
         SameMapping(before[i], after[i]) && before[i].clickCount <= after[i].clickCount
  }
}
