/** The repository operations the service uses, over the table held as a
    sequence of rows in insertion order. */
module UrlRepository {
  import opened Wrappers
  import opened UrlEntity

  /** The `where` filters the service passes to `findOne`. */
  datatype Where = ShortCodeIs(code: string) | OriginalUrlIs(url: string)

  predicate Matches(u: Url, w: Where)
  {
    match w
    case ShortCodeIs(code) => u.shortCode == code
    case OriginalUrlIs(url) => u.originalUrl == url
  }

  /** Some row carries this short code. */
  ghost predicate InUse(urls: seq<Url>, code: string)
  {
    exists i :: 0 <= i < |urls| && urls[i].shortCode == code
  }

  /** `findOne({ where })`: the position of the first matching row, or None. */
  function FindOne(urls: seq<Url>, w: Where): (r: Option<nat>)
    ensures r.Some? ==> r.value < |urls| && Matches(urls[r.value], w)
    ensures r.Some? ==> forall j :: 0 <= j < r.value ==> !Matches(urls[j], w)
    ensures r.None? <==> forall j :: 0 <= j < |urls| ==> !Matches(urls[j], w)
  {
    if |urls| == 0 then None
    else if Matches(urls[0], w) then Some(0)
    else
      match FindOne(urls[1..], w)
      case None => None
      case Some(k) => Some(k + 1)
  }

  /** `increment({ id }, 'clickCount', 1)`: add one to the counter of every row
      with this id. */
  function IncrementById(urls: seq<Url>, id: nat): (r: seq<Url>)
  {
    seq(|urls|, i requires 0 <= i < |urls| =>
      if urls[i].id == id then urls[i].(clickCount := urls[i].clickCount + 1) else urls[i])
  }

  /** A row appended after the first match does not change what `findOne`
      returns; appended to a table without a match, it is what `findOne` finds
      next time if it matches. */
  lemma {:induction false} FindOneAfterAppend(urls: seq<Url>, u: Url, w: Where)
    ensures FindOne(urls + [u], w) ==
      if FindOne(urls, w).Some? then FindOne(urls, w)
      else if Matches(u, w) then Some(|urls|)
      else None
  {
    var s := urls + [u];
    if FindOne(urls, w).None? {
      if Matches(u, w) {
        assert Matches(s[|urls|], w);
      } else {
        assert forall j :: 0 <= j < |s| ==> !Matches(s[j], w) by {
          forall j | 0 <= j < |s| ensures !Matches(s[j], w) {
            if j < |urls| { assert s[j] == urls[j]; }
          }
        }
      }
    } else {
      var k := FindOne(urls, w).value;
      assert s[k] == urls[k];
      assert forall j :: 0 <= j < k ==> s[j] == urls[j];
    }
  }

  /** Looking a short code up finds a row exactly when some row uses it. */
  lemma FindOneByCodeIffInUse(urls: seq<Url>, code: string)
    ensures FindOne(urls, ShortCodeIs(code)).Some? <==> InUse(urls, code)
  {
    var r := FindOne(urls, ShortCodeIs(code));
    if r.Some? {
      assert urls[r.value].shortCode == code;
    } else {
      forall i | 0 <= i < |urls| ensures urls[i].shortCode != code {
        assert !Matches(urls[i], ShortCodeIs(code));
      }
    }
  }

  /** With the unique index, the row `findOne` returns for a short code is the
      only one carrying it. */
  lemma FindOneByUniqueCode(urls: seq<Url>, i: nat)
    requires CodesUnique(urls) && i < |urls|
    ensures FindOne(urls, ShortCodeIs(urls[i].shortCode)) == Some(i)
  {
    var r := FindOne(urls, ShortCodeIs(urls[i].shortCode));
    assert Matches(urls[i], ShortCodeIs(urls[i].shortCode));
  }

  /** With unique ids, the increment touches exactly the one row with that id,
      and in that row only the counter, which goes up by exactly one. */
  lemma IncrementByUniqueId(urls: seq<Url>, i: nat)
    requires IdsUnique(urls) && i < |urls|
    ensures IncrementById(urls, urls[i].id) == urls[i := urls[i].(clickCount := urls[i].clickCount + 1)]
  {
    var r := IncrementById(urls, urls[i].id);
    forall j | 0 <= j < |urls| && j != i ensures r[j] == urls[j] {
      assert urls[j].id != urls[i].id;
    }
  }

  /** The increment keeps every mapping, so the table still grows, and both
      unique indexes still hold. */
  lemma IncrementKeepsMappings(urls: seq<Url>, id: nat)
    ensures Grows(urls, IncrementById(urls, id))
    ensures CodesUnique(urls) ==> CodesUnique(IncrementById(urls, id))
    ensures IdsUnique(urls) ==> IdsUnique(IncrementById(urls, id))
  {
  }
}
