/** `CountryRepository`: queries on Countries and the country writes. */
module CountryRepository {
  import opened Entities
  import opened Store
  import opened Listing
  import opened Text

  predicate ByName(a: Country, b: Country) {
    StrLe(a.name, b.name)
  }

  /** `GetCountries`: every country exactly once, ordered by name. */
  function GetCountries(db: Db): (r: seq<Country>)
    requires Keyed(db)
    ensures |r| == |db.countries|
    ensures forall k | k in db.countries :: db.countries[k] in r
    ensures forall x | x in r :: x.id in db.countries && db.countries[x.id] == x
    ensures NoDuplicates(r)
    ensures Ordered(r, ByName)
  {
    KeyOrderIsTotal((c: Country) => c.name, ByName);
    SortBy(Rows(db.countries), ByName)
  }

  /** `GetCountry`: the country whose id is `countryId`, if there is one. */
  function GetCountry(db: Db, countryId: int): (r: Option<Country>)
    requires Keyed(db)
    ensures r.None? <==> forall k | k in db.countries :: db.countries[k].id != countryId
    ensures forall k | k in db.countries && db.countries[k].id == countryId :: r == Some(db.countries[k])
  {
    if countryId in db.countries then Some(db.countries[countryId]) else None
  }

  /** `GetCountryOfAnAuthor`: the country the author lives in; nothing for an unknown author. */
  function GetCountryOfAnAuthor(db: Db, authorId: int): (r: Option<Country>)
    requires Keyed(db)
    ensures authorId !in db.authors ==> r.None?
    ensures r.Some? <==> authorId in db.authors && db.authors[authorId].countryId in db.countries
    ensures r.Some? ==> r.value.id == db.authors[authorId].countryId && r.value.id in db.countries && db.countries[r.value.id] == r.value
  {
    if authorId in db.authors && db.authors[authorId].countryId in db.countries then
      Some(db.countries[db.authors[authorId].countryId])
    else
      None
  }

  /**
   * `GetAuthorsFromACountry`, as written: its filter compares the AUTHOR's
   * id with `countryId`, so it yields the author whose own key is
   * `countryId`, whatever country that author lives in.
   */
  function GetAuthorsFromACountry(db: Db, countryId: int): (r: seq<Author>)
    requires Keyed(db)
    ensures forall x :: x in r <==> countryId in db.authors && x == db.authors[countryId]
    ensures NoDuplicates(r)
  {
    Filter(Rows(db.authors), (a: Author) => a.id == countryId)
  }

  /** `CountryExists`: some stored country has id `countryId`. */
  function CountryExists(db: Db, countryId: int): (r: bool)
    requires Keyed(db)
    ensures r <==> countryId in db.countries
  {
    exists k | k in db.countries :: db.countries[k].id == countryId
  }

  /** `IsDuplicateCountryName`: another country has the same trimmed, upper-cased name. */
  function IsDuplicateCountryName(db: Db, countryId: int, name: string): (r: bool)
    requires Keyed(db)
    ensures r <==> exists k | k in db.countries && k != countryId :: Norm(db.countries[k].name) == Norm(name)
  {
    exists k | k in db.countries :: Norm(db.countries[k].name) == Norm(name) && db.countries[k].id != countryId
  }

  /** A name that differs from another country's only by padding or letter case is a duplicate. */
  lemma PaddedOrUpperCasedNameIsDuplicate(db: Db, countryId: int, other: int, pre: string, post: string)
    requires Keyed(db) && other in db.countries && other != countryId
    requires AllWhiteSpace(pre) && AllWhiteSpace(post)
    ensures IsDuplicateCountryName(db, countryId, pre + db.countries[other].name + post)
    ensures IsDuplicateCountryName(db, countryId, ToUpper(db.countries[other].name))
  {
    NormIgnoresPadding(pre, db.countries[other].name, post);
    NormIgnoresCase(db.countries[other].name);
  }

  /**
   * The authors-of-a-country query misses the authors who do live in the
   * country and reports an author who does not.
   */
  lemma AuthorsFromACountryIgnoresCountry()
    ensures var db := Db(map[1 := Country(1, "Ghana"), 2 := Country(2, "Peru")],
                         map[1 := Author(1, "Ada", "Mensah", 2)],
                         map[], map[], map[], map[], {}, {});
      Keyed(db) &&
      db.authors[1].countryId == 2 && GetAuthorsFromACountry(db, 2) == [] &&
      (forall k | k in db.authors :: db.authors[k].countryId != 1) && |GetAuthorsFromACountry(db, 1)| > 0
  {
    var db := Db(map[1 := Country(1, "Ghana"), 2 := Country(2, "Peru")],
                 map[1 := Author(1, "Ada", "Mensah", 2)],
                 map[], map[], map[], map[], {}, {});
    var one := GetAuthorsFromACountry(db, 1);
    assert db.authors[1] in one;
  }

  // -----------------------------------------------------------------------
  // Writes; `saved` is the outcome of `SaveChanges`.

  /** `CreateCountry`: adds the country under a fresh identity key. */
  method CreateCountry(ctx: BookDbContext, country: Country, newId: int, saved: bool) returns (ok: bool)
    requires ctx.Valid() && newId !in ctx.countries
    modifies ctx
    ensures ctx.Valid() && ok == saved
    ensures ctx.State() == if ok then old(ctx.State()).(countries := old(ctx.countries)[newId := country.(id := newId)])
                           else old(ctx.State())
  {
    ok := false;
    if saved {
      ctx.countries := ctx.countries[newId := country.(id := newId)];
      ok := Save(1);
    }
  }

  /** `UpdateCountry`: replaces the stored row; a key that is not stored makes the save fail. */
  method UpdateCountry(ctx: BookDbContext, country: Country, saved: bool) returns (ok: bool)
    requires ctx.Valid()
    modifies ctx
    ensures ctx.Valid() && ok == (saved && country.id in old(ctx.countries))
    ensures ctx.State() == if ok then old(ctx.State()).(countries := old(ctx.countries)[country.id := country])
                           else old(ctx.State())
  {
    ok := false;
    if saved && country.id in ctx.countries {
      ctx.countries := ctx.countries[country.id := country];
      ok := Save(1);
    }
  }

  /** `DeleteCountry`: removes the country's row and no other row. */
  method DeleteCountry(ctx: BookDbContext, country: Country, saved: bool) returns (ok: bool)
    requires ctx.Valid()
    modifies ctx
    ensures ctx.Valid() && ok == saved
    ensures ctx.State() == if ok then old(ctx.State()).(countries := old(ctx.countries) - {country.id})
                           else old(ctx.State())
  {
    ok := false;
    if saved {
      ctx.countries := ctx.countries - {country.id};
      ok := Save(1);
    }
  }
}
