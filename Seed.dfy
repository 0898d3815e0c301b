/**
 * The seed importer: `SeedService.executeSeed` empties the collection,
 * then stores one document per catalog entry, its `no` read from the
 * second-to-last `/`-separated segment of the entry's URL. The HTTP fetch
 * of the catalog is an input here: the list of entries, or a failure.
 */
module SeedModule {
  import opened Wrappers
  import opened Text
  import opened Persistence

  /** One entry of the catalog listing: `{ name, url }`. */
  datatype CatalogEntry = CatalogEntry(name: string, url: string)

  /** What the GET of the catalog produced. */
  datatype FetchResult = Fetched(results: seq<CatalogEntry>) | FetchFailed

  /** Why `executeSeed` failed: the fetch, or the first insert that was refused. */
  datatype SeedError = FetchError | InsertError(cause: DbError)

  const SeedExecuted := "Seed executed"

  /** The error the document model raises for a `no` that is not a number: it has no code. */
  const CastError := DbError(None, None)

  /**
   * The catalog ordinal: the second-to-last `/`-separated segment of `url`
   * read as a decimal number; None when there is no such segment or it is
   * not one (where `+segment` gives NaN).
   */
  function Ordinal(url: string): (r: Option<nat>)
    ensures '/' !in url ==> r.None?
  {
    var segments := Split(url, '/');
    if |segments| < 2 then
      None
    else if '/' !in url then
      // cannot happen: a URL without '/' is a single segment
      SplitWithoutSeparator(url, '/');
      assert false;
      None
    else
      var segment := segments[|segments| - 2];
      if IsDecimal(segment) then Some(DecimalValue(segment)) else None
  }

  /** A URL that ends in `/<n>/` gives the ordinal `n`, whatever precedes it. */
  lemma OrdinalOfUrl(prefix: string, n: nat)
    ensures Ordinal(prefix + "/" + Decimal(n) + "/") == Some(n)
  {
    var digits := Decimal(n);
    assert '/' !in digits by {
      forall i | 0 <= i < |digits| ensures digits[i] != '/' {
        assert IsDigit(digits[i]);
      }
    }
    calc {
      Split(prefix + "/" + digits + "/", '/');
      { assert prefix + "/" + digits + "/" == prefix + ['/'] + (digits + ['/'] + []); }
      Split(prefix + ['/'] + (digits + ['/'] + []), '/');
      { SplitAppend(prefix, digits + ['/'] + [], '/'); }
      Split(prefix, '/') + Split(digits + ['/'] + [], '/');
      { SplitAppend(digits, [], '/'); SplitWithoutSeparator(digits, '/'); }
      Split(prefix, '/') + [digits] + [[]];
    }
    DecimalRoundTrip(n);
  }

  /** The catalog's Pikachu entry gives ordinal 25. */
  lemma PikachuOrdinal()
    ensures Ordinal("https://pokeapi.co/api/v2/pokemon/25/") == Some(25)
  {
    assert Decimal(25) == "25";
    OrdinalOfUrl("https://pokeapi.co/api/v2/pokemon", 25);
    assert "https://pokeapi.co/api/v2/pokemon" + "/" + "25" + "/" == "https://pokeapi.co/api/v2/pokemon/25/";
  }

  // ---------------------------------------------------------------- the inserts, as a fold

  /** The collection after some inserts, and the first error one of them raised. */
  datatype SeedRun = SeedRun(docs: seq<Pokemon>, failure: Option<DbError>)

  /**
   * `model.create({ name, no })` for one entry, under the id `id`: stored
   * when the entry has an ordinal that, like its name, is not yet taken;
   * otherwise the cast error (no ordinal) or the duplicate-key error.
   */
  function InsertEntry(docs: seq<Pokemon>, e: CatalogEntry, id: string): (r: Result<seq<Pokemon>, DbError>)
    ensures r.Success? <==> Ordinal(e.url).Some? && Clash(docs, e.name, Ordinal(e.url).value) == None
    ensures r.Success? ==> r.value == docs + [Pokemon(id, e.name, Ordinal(e.url).value)]
    ensures r.Failure? ==> (r.error.code == Some(DuplicateKeyCode) <==> Ordinal(e.url).Some?)
  {
    match Ordinal(e.url)
    case None => Failure(CastError)
    case Some(no) =>
      match Clash(docs, e.name, no)
      case None => Success(docs + [Pokemon(id, e.name, no)])
      case Some(k) => Failure(DuplicateKey(k))
  }

  /**
   * One insert: a stored entry adds one document at the end; a refused one
   * leaves the documents as they are and is remembered if it is the first.
   */
  function Step(run: SeedRun, e: CatalogEntry, id: string): (r: SeedRun)
    ensures r.docs == run.docs || (|r.docs| == |run.docs| + 1 && r.docs[..|run.docs|] == run.docs)
    ensures run.failure.Some? ==> r.failure == run.failure
    ensures run.failure.None? ==> (r.failure.None? <==> |r.docs| == |run.docs| + 1)
  {
    match InsertEntry(run.docs, e, id)
    case Success(docs) => SeedRun(docs, run.failure)
    case Failure(err) => SeedRun(run.docs, if run.failure.None? then Some(err) else run.failure)
  }

  /**
   * Every entry inserted in catalog order into the emptied collection;
   * `ids[i]` is the id of entry `i`. No failure is recorded exactly when
   * every entry was stored.
   */
  function Run(entries: seq<CatalogEntry>, ids: seq<string>): (r: SeedRun)
    requires |ids| == |entries|
    ensures |r.docs| <= |entries|
    ensures r.failure.None? <==> |r.docs| == |entries|
    decreases |entries|
  {
    if entries == [] then SeedRun([], None)
    else
      var n := |entries| - 1;
      Step(Run(entries[..n], ids[..n]), entries[n], ids[n])
  }

  /** The fold over one more entry is one more step. */
  lemma RunExtend(entries: seq<CatalogEntry>, ids: seq<string>, i: nat)
    requires |ids| == |entries| && i < |entries|
    ensures Run(entries[..i + 1], ids[..i + 1]) == Step(Run(entries[..i], ids[..i]), entries[i], ids[i])
  {
    assert entries[..i + 1][..i] == entries[..i] && ids[..i + 1][..i] == ids[..i];
  }

  predicate DistinctIds(ids: seq<string>) {
    forall i, j :: 0 <= i < j < |ids| ==> ids[i] != ids[j]
  }

  /** Every stored document carries one of `ids`. */
  predicate IdsFrom(docs: seq<Pokemon>, ids: seq<string>) {
    forall d :: d in docs ==> d.id in ids
  }

  /** With distinct ids, the id of entry `i` is stored nowhere while only earlier entries are. */
  lemma NextIdFresh(docs: seq<Pokemon>, ids: seq<string>, i: nat)
    requires DistinctIds(ids) && i < |ids| && IdsFrom(docs, ids[..i])
    ensures !HasId(docs, ids[i])
  {
    forall k | 0 <= k < i ensures ids[..i][k] != ids[i] {
      assert ids[k] != ids[i];
    }
  }

  /** Storing the record of entry `i`, or nothing, keeps every id among those of entries `..i + 1`. */
  lemma IdsFromStep(docs: seq<Pokemon>, p: Pokemon, ids: seq<string>, i: nat)
    requires i < |ids| && IdsFrom(docs, ids[..i]) && p.id == ids[i]
    ensures IdsFrom(docs, ids[..i + 1])
    ensures IdsFrom(docs + [p], ids[..i + 1])
  {
    assert ids[..i + 1] == ids[..i] + [ids[i]];
  }

  /** Every entry has an ordinal, and no two entries share a name or an ordinal. */
  predicate WellFormedCatalog(entries: seq<CatalogEntry>) {
    (forall i :: 0 <= i < |entries| ==> Ordinal(entries[i].url).Some?) &&
    (forall i, j :: 0 <= i < j < |entries| ==>
      entries[i].name != entries[j].name && Ordinal(entries[i].url) != Ordinal(entries[j].url))
  }

  /** The documents a well-formed catalog should yield: entry `i` as `{ids[i], name, ordinal}`. */
  function Expected(entries: seq<CatalogEntry>, ids: seq<string>): (r: seq<Pokemon>)
    requires |ids| == |entries|
    requires forall i :: 0 <= i < |entries| ==> Ordinal(entries[i].url).Some?
    ensures |r| == |entries|
  {
    seq(|entries|, i requires 0 <= i < |entries| =>
      Pokemon(ids[i], entries[i].name, Ordinal(entries[i].url).value))
  }

  /**
   * A well-formed catalog is stored in full: one document per entry, under
   * the entry's own name (not lower-cased) and its ordinal, and no insert
   * fails.
   */
  lemma {:induction false} SeedStoresCatalog(entries: seq<CatalogEntry>, ids: seq<string>)
    requires |ids| == |entries| && WellFormedCatalog(entries)
    ensures Run(entries, ids) == SeedRun(Expected(entries, ids), None)
    decreases |entries|
  {
    if entries != [] {
      var n := |entries| - 1;
      WellFormedPrefix(entries, n);
      SeedStoresCatalog(entries[..n], ids[..n]);
      LastEntryFits(entries, ids);
    }
  }

  lemma WellFormedPrefix(entries: seq<CatalogEntry>, n: nat)
    requires WellFormedCatalog(entries) && n <= |entries|
    ensures WellFormedCatalog(entries[..n])
  {
  }

  /** The last entry of a well-formed catalog is inserted after the documents of the others. */
  lemma LastEntryFits(entries: seq<CatalogEntry>, ids: seq<string>)
    requires |ids| == |entries| && entries != [] && WellFormedCatalog(entries)
    ensures var n := |entries| - 1;
      WellFormedCatalog(entries[..n]) &&
      InsertEntry(Expected(entries[..n], ids[..n]), entries[n], ids[n]) == Success(Expected(entries, ids))
  {
    var n := |entries| - 1;
    WellFormedPrefix(entries, n);
    var before := Expected(entries[..n], ids[..n]);
    var e := entries[n];
    var no := Ordinal(e.url).value;
    forall d | d in before ensures d.name != e.name && d.no != no {
      var i :| 0 <= i < n && before[i] == d;
      assert entries[..n][i] == entries[i];
    }
    assert Clash(before, e.name, no) == None;
    assert Expected(entries, ids) == before + [Pokemon(ids[n], e.name, no)];
  }

  /** The `{name, no}` contents, ignoring generated ids. */
  function Contents(docs: seq<Pokemon>): (r: seq<(string, nat)>)
    ensures |r| == |docs|
  {
    seq(|docs|, i requires 0 <= i < |docs| => (docs[i].name, docs[i].no))
  }

  lemma ContentsAppend(docs: seq<Pokemon>, p: Pokemon)
    ensures Contents(docs + [p]) == Contents(docs) + [(p.name, p.no)]
  {
  }

  /** Whether an insert clashes depends only on the stored names and `no`s. */
  lemma ClashSeesContents(d1: seq<Pokemon>, d2: seq<Pokemon>, name: string, no: nat)
    requires Contents(d1) == Contents(d2)
    ensures Clash(d1, name, no) == Clash(d2, name, no)
  {
    SameKeysAt(d1, d2);
    SameKeysAt(d2, d1);
  }

  /** Every document of `d1` has a document with its name and `no` in `d2`. */
  lemma SameKeysAt(d1: seq<Pokemon>, d2: seq<Pokemon>)
    requires Contents(d1) == Contents(d2)
    ensures forall d :: d in d1 ==> exists e :: e in d2 && e.name == d.name && e.no == d.no
  {
    forall d | d in d1 ensures exists e :: e in d2 && e.name == d.name && e.no == d.no {
      var i :| 0 <= i < |d1| && d1[i] == d;
      assert Contents(d1)[i] == Contents(d2)[i];
      assert d2[i] in d2;
    }
  }

  /**
   * Two seeds against the same catalog store the same `{name, no}`
   * contents and fail (or not) the same way, whatever ids they generate.
   */
  lemma {:induction false} SeedIdempotent(entries: seq<CatalogEntry>, ids1: seq<string>, ids2: seq<string>)
    requires |ids1| == |entries| && |ids2| == |entries|
    ensures Contents(Run(entries, ids1).docs) == Contents(Run(entries, ids2).docs)
    ensures Run(entries, ids1).failure == Run(entries, ids2).failure
    decreases |entries|
  {
    if entries != [] {
      var n := |entries| - 1;
      SeedIdempotent(entries[..n], ids1[..n], ids2[..n]);
      var r1, r2 := Run(entries[..n], ids1[..n]), Run(entries[..n], ids2[..n]);
      var e := entries[n];
      match Ordinal(e.url)
      case None =>
      case Some(no) =>
        ClashSeesContents(r1.docs, r2.docs, e.name, no);
        if Clash(r1.docs, e.name, no) == None {
          ContentsAppend(r1.docs, Pokemon(ids1[n], e.name, no));
          ContentsAppend(r2.docs, Pokemon(ids2[n], e.name, no));
        }
    }
  }

  // ---------------------------------------------------------------- the service

  class SeedService {
    const db: PokemonCollection

    constructor (db: PokemonCollection)
      ensures this.db == db
    {
      this.db := db;
    }

    /**
     * One iteration of the `forEach`: `create({ name, no })` for the entry,
     * remembering the error if it is the first one.
     */
    method InsertOne(e: CatalogEntry, id: string, failure: Option<DbError>) returns (failure': Option<DbError>)
      requires db.Valid() && IsCanonicalId(id) && !HasId(db.docs, id)
      modifies db
      ensures db.Valid()
      ensures SeedRun(db.docs, failure') == Step(SeedRun(old(db.docs), failure), e, id)
      ensures db.docs == old(db.docs) || db.docs == old(db.docs) + [Pokemon(id, e.name, Ordinal(e.url).value)]
    {
      var ordinal := Ordinal(e.url);
      var outcome: Result<Pokemon, DbError>;
      if ordinal.None? {
        outcome := Failure(CastError);
      } else {
        outcome := db.Create(Pokemon(id, e.name, ordinal.value));
      }
      failure' := failure;
      if outcome.Failure? && failure.None? {
        failure' := Some(outcome.error);
      }
    }

    /** The `forEach` over the catalog, into the emptied collection; returns the first refusal. */
    method InsertAll(entries: seq<CatalogEntry>, ids: seq<string>) returns (failure: Option<DbError>)
      requires db.Valid() && db.docs == []
      requires |ids| == |entries| && DistinctIds(ids)
      requires forall k :: 0 <= k < |ids| ==> IsCanonicalId(ids[k])
      modifies db
      ensures db.Valid()
      ensures SeedRun(db.docs, failure) == Run(entries, ids)
    {
      failure := None;
      var i := 0;
      while i < |entries|
        invariant 0 <= i <= |entries|
        invariant db.Valid()
        invariant SeedRun(db.docs, failure) == Run(entries[..i], ids[..i])
        invariant IdsFrom(db.docs, ids[..i])
      {
        RunExtend(entries, ids, i);
        NextIdFresh(db.docs, ids, i);
        IdsFromStep(db.docs, Pokemon(ids[i], entries[i].name, Ordinal(entries[i].url).GetOr(0)), ids, i);
        failure := InsertOne(entries[i], ids[i], failure);
        i := i + 1;
      }
      assert entries[..i] == entries && ids[..i] == ids;
    }

    /**
     * `executeSeed`: deletes every document, then (unless the fetch
     * failed, which leaves the collection empty) inserts one document per
     * entry and returns "Seed executed", or the first refused insert.
     * `ids` are the ids the database generates for the entries.
     */
    method ExecuteSeed(fetched: FetchResult, ids: seq<string>) returns (r: Result<string, SeedError>)
      requires db.Valid()
      requires fetched.Fetched? ==> |ids| == |fetched.results| && DistinctIds(ids)
      requires forall k :: 0 <= k < |ids| ==> IsCanonicalId(ids[k])
      modifies db
      ensures db.Valid()
      ensures fetched.FetchFailed? ==> db.docs == [] && r == Failure(FetchError)
      ensures fetched.Fetched? ==>
        var run := Run(fetched.results, ids);
        db.docs == run.docs &&
        r == (if run.failure == None then Success(SeedExecuted) else Failure(InsertError(run.failure.value)))
    {
      db.DeleteMany();
      if fetched.FetchFailed? {
        return Failure(FetchError);
      }
      var failure := InsertAll(fetched.results, ids);
      if failure.Some? {
        return Failure(InsertError(failure.value));
      }
      r := Success(SeedExecuted);
    }
  }
}
