/**
 * The resource store: `PokemonService` over the shared collection, with the
 * ordered three-stage lookup, the sorted and windowed listing, and the
 * mapping of storage errors to the HTTP exceptions the service throws.
 */
module PokemonModule {
  import opened Wrappers
  import opened Text
  import opened Persistence

  // ---------------------------------------------------------------- errors

  datatype BadRequestReason =
    | AlreadyExists(keyValue: Option<DupKey>)  // "Pokemon already exists {keyValue}"
    | PokemonNotFound                          // "Pokemon not found", thrown by remove

  /** The exceptions the service throws, by HTTP status. */
  datatype ServiceError =
    | BadRequest(reason: BadRequestReason)  // 400
    | NotFound                              // 404, "Pokemon not found"
    | InternalServerError                   // 500, "Cannot create pokemon - Please check console logs"

  /**
   * `handleExeptions`: the exception it throws for a storage error (it
   * never returns normally). Code 11000 is a duplicate key.
   */
  function HandleExceptions(e: DbError): (r: ServiceError)
    ensures r.BadRequest? <==> e.code == Some(DuplicateKeyCode)
    ensures r.BadRequest? ==> r.reason == AlreadyExists(e.keyValue)
    ensures !r.BadRequest? ==> r == InternalServerError
  {
    if e.code == Some(DuplicateKeyCode) then BadRequest(AlreadyExists(e.keyValue))
    else InternalServerError
  }

  // ---------------------------------------------------------------- inputs

  /** `CreatePokemonDto`; `create` overwrites its `name` with the lower-case form. */
  class CreatePokemonDto {
    var name: string
    var no: int

    constructor (name: string, no: int)
      ensures this.name == name && this.no == no
    {
      this.name := name;
      this.no := no;
    }
  }

  /** `UpdatePokemonDto`: every field optional; `update` lower-cases a given `name` in place. */
  class UpdatePokemonDto {
    var name: Option<string>
    var no: Option<int>

    constructor (name: Option<string>, no: Option<int>)
      ensures this.name == name && this.no == no
    {
      this.name := name;
      this.no := no;
    }
  }

  /** `PaginationDto`: both fields optional. */
  datatype PaginationDto = PaginationDto(limit: Option<nat>, offset: Option<nat>)

  // ---------------------------------------------------------------- lookup

  /** The first document (in stored order) that `matches`. */
  function First(docs: seq<Pokemon>, matches: Pokemon -> bool): (r: Option<Pokemon>)
    ensures r.Some? ==> r.value in docs && matches(r.value)
    ensures r.Some? ==> exists k :: 0 <= k < |docs| && docs[k] == r.value && forall j :: 0 <= j < k ==> !matches(docs[j])
    ensures r.None? <==> forall d :: d in docs ==> !matches(d)
    decreases |docs|
  {
    if docs == [] then None
    else if matches(docs[0]) then Some(docs[0])
    else
      var r := First(docs[1..], matches);
      assert r.Some? ==> exists k :: 0 <= k < |docs| && docs[k] == r.value && forall j :: 0 <= j < k ==> !matches(docs[j]) by {
        if r.Some? {
          var k :| 0 <= k < |docs[1..]| && docs[1..][k] == r.value && forall j :: 0 <= j < k ==> !matches(docs[1..][j]);
          assert docs[k + 1] == r.value;
          assert forall j :: 0 <= j < k + 1 ==> !matches(docs[j]) by {
            forall j | 0 <= j < k + 1 ensures !matches(docs[j]) {
              if j > 0 {
                assert docs[j] == docs[1..][j - 1];
              }
            }
          }
        }
      }
      r
  }

  /** Stage one of `findOne`: a numeric term names a `no`; the decimal text of a document's `no` always names it. */
  predicate MatchesNo(term: string, d: Pokemon): (b: bool)
    ensures term == Decimal(d.no) ==> b
  {
    DecimalRoundTrip(d.no);
    IsDecimal(term) && d.no == DecimalValue(term)
  }

  /** Stage two: a term that is a valid object id names an id, its hex digits in either case; only canonical ids match. */
  predicate MatchesId(term: string, d: Pokemon): (b: bool)
    ensures b ==> IsCanonicalId(d.id)
  {
    ObjectIdSpellings(term);
    IsValidObjectId(term) && d.id == ToLower(term)
  }

  /** Stage three: the lower-cased, trimmed term names a name; only a lower-case name without surrounding white space can match. */
  predicate MatchesName(term: string, d: Pokemon): (b: bool)
    ensures b ==> Trimmed(d.name) && forall i :: 0 <= i < |d.name| ==> !IsUpper(d.name[i])
  {
    TrimKeepsLower(ToLower(term));
    d.name == Trim(ToLower(term))
  }

  // ---------------------------------------------------------------- listing

  predicate SortedByNo(s: seq<Pokemon>) {
    forall i, j :: 0 <= i < j < |s| ==> s[i].no <= s[j].no
  }

  predicate StrictlySortedByNo(s: seq<Pokemon>) {
    forall i, j :: 0 <= i < j < |s| ==> s[i].no < s[j].no
  }

  predicate NosDistinct(s: seq<Pokemon>) {
    forall i, j :: 0 <= i < j < |s| ==> s[i].no != s[j].no
  }

  /** How many documents have a `no` below `n`: the rank a document with `no == n` takes in ascending order. */
  function CountBelow(s: seq<Pokemon>, n: nat): nat
    decreases |s|
  {
    if s == [] then 0 else (if s[0].no < n then 1 else 0) + CountBelow(s[1..], n)
  }

  function InsertByNo(x: Pokemon, s: seq<Pokemon>): (r: seq<Pokemon>)
    requires SortedByNo(s)
    ensures SortedByNo(r)
    ensures |r| == |s| + 1
    ensures multiset(r) == multiset(s) + multiset{x}
    decreases |s|
  {
    if s == [] then [x]
    else if x.no <= s[0].no then [x] + s
    else
      var rest := InsertByNo(x, s[1..]);
      assert s == [s[0]] + s[1..];
      InsertedAbove(x, s, rest);
      [s[0]] + rest
  }

  /** Every element of `rest` (the insertion into the tail) is at or above the head of `s`. */
  lemma InsertedAbove(x: Pokemon, s: seq<Pokemon>, rest: seq<Pokemon>)
    requires SortedByNo(s) && s != [] && x.no > s[0].no
    requires multiset(rest) == multiset(s[1..]) + multiset{x}
    ensures forall d :: d in rest ==> s[0].no <= d.no
  {
    forall d | d in rest ensures s[0].no <= d.no {
      assert d in multiset(rest);
      if d != x {
        assert d in s[1..];
      }
    }
  }

  /** Inserting a `no` that is not yet present keeps an ascending sequence strictly ascending. */
  lemma {:induction false} InsertByNoStrict(x: Pokemon, s: seq<Pokemon>)
    requires StrictlySortedByNo(s)
    requires forall d :: d in s ==> d.no != x.no
    ensures StrictlySortedByNo(InsertByNo(x, s))
    decreases |s|
  {
    if s != [] && x.no > s[0].no {
      StrictTail(s);
      InsertByNoStrict(x, s[1..]);
      var rest := InsertByNo(x, s[1..]);
      forall d | d in rest ensures s[0].no < d.no {
        assert d in multiset(rest);
        if d != x {
          assert d in s[1..];
        }
      }
      StrictCons(s[0], rest);
    } else if s != [] {
      assert s[0] in s;
      StrictCons(x, s);
    }
  }

  lemma StrictTail(s: seq<Pokemon>)
    requires StrictlySortedByNo(s) && s != []
    ensures StrictlySortedByNo(s[1..])
  {
    forall i, j | 0 <= i < j < |s| - 1 ensures s[1..][i].no < s[1..][j].no {
      assert s[1..][i] == s[i + 1] && s[1..][j] == s[j + 1];
    }
  }

  lemma StrictCons(h: Pokemon, s: seq<Pokemon>)
    requires StrictlySortedByNo(s)
    requires forall d :: d in s ==> h.no < d.no
    ensures StrictlySortedByNo([h] + s)
  {
    forall i, j | 0 <= i < j < |s| + 1 ensures ([h] + s)[i].no < ([h] + s)[j].no {
      assert ([h] + s)[j] == s[j - 1];
      if i > 0 {
        assert ([h] + s)[i] == s[i - 1];
      } else {
        assert s[j - 1] in s;
      }
    }
  }

  /** The documents in ascending order of `no` (the order `.sort({ no: 1 })` asks for). */
  function SortByNo(s: seq<Pokemon>): (r: seq<Pokemon>)
    ensures SortedByNo(r)
    ensures |r| == |s|
    ensures multiset(r) == multiset(s)
    decreases |s|
  {
    if s == [] then []
    else
      assert s == [s[0]] + s[1..];
      InsertByNo(s[0], SortByNo(s[1..]))
  }

  /** Sorting documents whose `no`s are distinct gives a strictly ascending sequence. */
  lemma {:induction false} SortByNoStrict(s: seq<Pokemon>)
    requires NosDistinct(s)
    ensures StrictlySortedByNo(SortByNo(s))
    decreases |s|
  {
    if s != [] {
      var rest := SortByNo(s[1..]);
      assert s == [s[0]] + s[1..];
      assert NosDistinct(s[1..]) by {
        forall i, j | 0 <= i < j < |s| - 1 ensures s[1..][i].no != s[1..][j].no {
          assert s[1..][i] == s[i + 1] && s[1..][j] == s[j + 1];
        }
      }
      forall d | d in rest ensures d.no != s[0].no {
        assert d in multiset(s[1..]);
        var k :| 0 <= k < |s[1..]| && s[1..][k] == d;
        assert s[k + 1] == d;
      }
      SortByNoStrict(s[1..]);
      InsertByNoStrict(s[0], rest);
    }
  }

  lemma {:induction false} CountBelowInsert(x: Pokemon, s: seq<Pokemon>, n: nat)
    requires SortedByNo(s)
    ensures CountBelow(InsertByNo(x, s), n) == (if x.no < n then 1 else 0) + CountBelow(s, n)
    decreases |s|
  {
    if s != [] && x.no > s[0].no {
      CountBelowInsert(x, s[1..], n);
      assert ([s[0]] + InsertByNo(x, s[1..]))[1..] == InsertByNo(x, s[1..]);
    } else if s != [] {
      assert ([x] + s)[1..] == s;
    }
  }

  /** Sorting does not change how many documents lie below a given `no`. */
  lemma {:induction false} CountBelowSort(s: seq<Pokemon>, n: nat)
    ensures CountBelow(SortByNo(s), n) == CountBelow(s, n)
    decreases |s|
  {
    if s != [] {
      CountBelowSort(s[1..], n);
      CountBelowInsert(s[0], SortByNo(s[1..]), n);
    }
  }

  lemma {:induction false} CountBelowNone(s: seq<Pokemon>, n: nat)
    requires forall d :: d in s ==> d.no >= n
    ensures CountBelow(s, n) == 0
    decreases |s|
  {
    if s != [] {
      assert s[0] in s;
      CountBelowNone(s[1..], n);
    }
  }

  /** In a strictly ascending sequence the element at position `k` has exactly `k` elements below it. */
  lemma {:induction false} RankInStrictlySorted(s: seq<Pokemon>, k: nat)
    requires StrictlySortedByNo(s) && k < |s|
    ensures CountBelow(s, s[k].no) == k
    decreases |s|
  {
    assert StrictlySortedByNo(s[1..]) by {
      forall i, j | 0 <= i < j < |s| - 1 ensures s[1..][i].no < s[1..][j].no {
        assert s[1..][i] == s[i + 1] && s[1..][j] == s[j + 1];
      }
    }
    if k == 0 {
      forall d | d in s[1..] ensures d.no >= s[0].no {
        var m :| 0 <= m < |s[1..]| && s[1..][m] == d;
        assert s[m + 1] == d;
      }
      CountBelowNone(s[1..], s[0].no);
    } else {
      RankInStrictlySorted(s[1..], k - 1);
      assert s[1..][k - 1] == s[k];
    }
  }

  /** The window `.skip(offset).limit(limit)` keeps; a `limit` of 0 means no limit, as in MongoDB. */
  function Page(s: seq<Pokemon>, offset: nat, limit: nat): (r: seq<Pokemon>)
    ensures |r| == PageSize(|s|, offset, limit)
    ensures forall i :: 0 <= i < |r| ==> offset + i < |s| && r[i] == s[offset + i]
  {
    var start := if offset <= |s| then offset else |s|;
    var end := if limit == 0 || start + limit > |s| then |s| else start + limit;
    s[start..end]
  }

  /** The number of documents a page holds: what is left after `offset`, capped at a non-zero `limit`. */
  function PageSize(n: nat, offset: nat, limit: nat): (k: nat)
    ensures k <= n
    ensures limit > 0 ==> k <= limit
    ensures offset >= n ==> k == 0
    ensures offset < n && (limit == 0 || limit >= n - offset) ==> k == n - offset
    ensures offset < n && 0 < limit < n - offset ==> k == limit
  {
    if offset >= n then 0
    else if limit == 0 || limit >= n - offset then n - offset
    else limit
  }

  // ---------------------------------------------------------------- the service

  class PokemonService {
    const db: PokemonCollection
    var defaultLimit: nat

    ghost predicate Valid()
      reads this, db
    {
      db.Valid()
    }

    /** `defaultLimit` comes from the `defaultLimit` configuration entry (6 unless set). */
    constructor (db: PokemonCollection, defaultLimit: nat)
      ensures this.db == db && this.defaultLimit == defaultLimit
    {
      this.db := db;
      this.defaultLimit := defaultLimit;
    }

    /**
     * `findAll`: the collection in ascending `no`, skipping `offset`
     * (default 0) and keeping at most `limit` (default `defaultLimit`).
     * The document at position `i` of the page is the one with exactly
     * `offset + i` documents below it.
     */
    function FindAll(p: PaginationDto): (r: seq<Pokemon>)
      reads this, db
      ensures SortedByNo(r)
      ensures forall d :: d in r ==> d in db.docs
      ensures |r| == PageSize(|db.docs|, p.offset.GetOr(0), p.limit.GetOr(defaultLimit))
      ensures NosDistinct(db.docs) ==>
        forall i :: 0 <= i < |r| ==> CountBelow(db.docs, r[i].no) == p.offset.GetOr(0) + i
    {
      var limit := p.limit.GetOr(defaultLimit);
      var offset := p.offset.GetOr(0);
      PageOfSorted(db.docs, offset, limit);
      Page(SortByNo(db.docs), offset, limit)
    }

    /**
     * `findOne`: by `no` when the term is numeric, else (or when that found
     * nothing) by id when the term is a valid object id, else by the
     * lower-cased, trimmed name; NotFound when every stage fails.
     */
    function FindOne(term: string): (r: Result<Pokemon, ServiceError>)
      reads this, db
      ensures r.Success? ==> r.value in db.docs
      ensures r.Failure? ==> r.error == NotFound
      ensures (exists d :: d in db.docs && MatchesNo(term, d)) ==> r.Success? && MatchesNo(term, r.value)
      ensures (forall d :: d in db.docs ==> !MatchesNo(term, d)) && (exists d :: d in db.docs && MatchesId(term, d)) ==>
        r.Success? && MatchesId(term, r.value)
      ensures ((forall d :: d in db.docs ==> !MatchesNo(term, d) && !MatchesId(term, d)) &&
               (exists d :: d in db.docs && MatchesName(term, d))) ==>
        r.Success? && MatchesName(term, r.value)
      ensures r.Failure? <==>
        forall d :: d in db.docs ==> !MatchesNo(term, d) && !MatchesId(term, d) && !MatchesName(term, d)
    {
      var byNo := if IsDecimal(term) then First(db.docs, d => MatchesNo(term, d)) else None;
      var byId := if byNo.None? && IsValidObjectId(term) then First(db.docs, d => MatchesId(term, d)) else byNo;
      var byName := if byId.None? then First(db.docs, d => MatchesName(term, d)) else byId;
      if byName.Some? then Success(byName.value) else Failure(NotFound)
    }

    /**
     * `create`: lower-cases `dto.name` in place, then inserts
     * `{name, no}` under the new id; a name or `no` already stored is a
     * duplicate key, thrown as BadRequest, and nothing is stored.
     */
    method Create(dto: CreatePokemonDto, newId: string) returns (r: Result<Pokemon, ServiceError>)
      requires Valid()
      requires |dto.name| >= 1 && dto.no >= 1
      requires IsCanonicalId(newId) && !HasId(db.docs, newId)
      modifies db, dto
      ensures Valid()
      ensures dto.name == ToLower(old(dto.name)) && dto.no == old(dto.no)
      ensures match Clash(old(db.docs), ToLower(old(dto.name)), old(dto.no))
        case None =>
          r == Success(Pokemon(newId, ToLower(old(dto.name)), old(dto.no))) &&
          db.docs == old(db.docs) + [r.value]
        case Some(k) =>
          r == Failure(BadRequest(AlreadyExists(Some(k)))) && db.docs == old(db.docs)
    {
      dto.name := ToLower(dto.name);
      var created := db.Create(Pokemon(newId, dto.name, dto.no));
      match created {
        case Success(p) => r := Success(p);
        case Failure(e) => r := Failure(HandleExceptions(e));
      }
    }

    /**
     * `update`: resolves `term` with `findOne` (its NotFound propagates and
     * nothing changes); otherwise lower-cases a given `dto.name` in place and
     * stores the found document with the given fields overriding. A name or
     * `no` held by another document is thrown as BadRequest and nothing is
     * stored.
     */
    method Update(term: string, dto: UpdatePokemonDto) returns (r: Result<Pokemon, ServiceError>)
      requires Valid()
      requires dto.name.Some? ==> |dto.name.value| >= 1
      requires dto.no.Some? ==> dto.no.value >= 1
      modifies db, dto
      ensures Valid()
      ensures dto.no == old(dto.no)
      ensures old(FindOne(term)).Failure? ==>
        r == Failure(NotFound) && db.docs == old(db.docs) && dto.name == old(dto.name)
      ensures old(FindOne(term)).Success? ==>
        var found := old(FindOne(term)).value;
        var name := if old(dto.name).Some? then ToLower(old(dto.name).value) else found.name;
        var merged := Pokemon(found.id, name, old(dto.no).GetOr(found.no));
        dto.name == (if old(dto.name).Some? then Some(name) else None) &&
        match Clash(Without(old(db.docs), found.id), merged.name, merged.no)
        case None => r == Success(merged) && db.docs == Replace(old(db.docs), merged)
        case Some(k) => r == Failure(BadRequest(AlreadyExists(Some(k)))) && db.docs == old(db.docs)
    {
      var lookup := FindOne(term);
      if lookup.Failure? {
        return Failure(lookup.error);
      }
      var pokemon := lookup.value;
      if dto.name.Some? {
        dto.name := Some(ToLower(dto.name.value));
      }
      var merged := Pokemon(pokemon.id, dto.name.GetOr(pokemon.name), dto.no.GetOr(pokemon.no));
      var failed := db.UpdateOne(merged);
      match failed {
        case None => r := Success(merged);
        case Some(e) => r := Failure(HandleExceptions(e));
      }
    }

    /**
     * `remove`: deletes the document with this id (its hex digits in
     * either case, as the database casts them) and returns the id as
     * given; when none is deleted it throws BadRequest("Pokemon not found").
     */
    method Remove(id: string) returns (r: Result<string, ServiceError>)
      requires Valid()
      modifies db
      ensures Valid()
      ensures HasId(old(db.docs), ToLower(id)) ==>
        r == Success(id) && db.docs == Without(old(db.docs), ToLower(id)) && |db.docs| == |old(db.docs)| - 1
      ensures !HasId(old(db.docs), ToLower(id)) ==>
        r == Failure(BadRequest(PokemonNotFound)) && db.docs == old(db.docs)
    {
      var deletedCount := db.DeleteOne(ToLower(id));
      if deletedCount == 0 {
        return Failure(BadRequest(PokemonNotFound));
      }
      r := Success(id);
    }
  }

  /** A page of the sorted documents is ascending, holds only stored documents and, for distinct `no`s, holds them by rank. */
  lemma PageOfSorted(docs: seq<Pokemon>, offset: nat, limit: nat)
    ensures var page := Page(SortByNo(docs), offset, limit);
      SortedByNo(page) &&
      (forall d :: d in page ==> d in docs) &&
      (NosDistinct(docs) ==> forall i :: 0 <= i < |page| ==> CountBelow(docs, page[i].no) == offset + i)
  {
    PageSorted(docs, offset, limit);
    PageStored(docs, offset, limit);
    if NosDistinct(docs) {
      PageByRank(docs, offset, limit);
    }
  }

  lemma PageSorted(docs: seq<Pokemon>, offset: nat, limit: nat)
    ensures SortedByNo(Page(SortByNo(docs), offset, limit))
  {
    var sorted := SortByNo(docs);
    var page := Page(sorted, offset, limit);
    forall i, j | 0 <= i < j < |page| ensures page[i].no <= page[j].no {
      assert page[i] == sorted[offset + i] && page[j] == sorted[offset + j];
    }
  }

  lemma PageStored(docs: seq<Pokemon>, offset: nat, limit: nat)
    ensures forall d :: d in Page(SortByNo(docs), offset, limit) ==> d in docs
  {
    var sorted := SortByNo(docs);
    var page := Page(sorted, offset, limit);
    forall d | d in page ensures d in docs {
      var i :| 0 <= i < |page| && page[i] == d;
      assert sorted[offset + i] == d;
      assert d in multiset(sorted);
    }
  }

  lemma PageByRank(docs: seq<Pokemon>, offset: nat, limit: nat)
    requires NosDistinct(docs)
    ensures var page := Page(SortByNo(docs), offset, limit);
      forall i :: 0 <= i < |page| ==> CountBelow(docs, page[i].no) == offset + i
  {
    var page := Page(SortByNo(docs), offset, limit);
    forall i | 0 <= i < |page| ensures CountBelow(docs, page[i].no) == offset + i {
      RankOfSorted(docs, offset + i);
    }
  }

  /** The `k`-th document in ascending order has exactly `k` documents below it. */
  lemma RankOfSorted(docs: seq<Pokemon>, k: nat)
    requires NosDistinct(docs) && k < |docs|
    ensures CountBelow(docs, SortByNo(docs)[k].no) == k
  {
    SortByNoStrict(docs);
    RankInStrictlySorted(SortByNo(docs), k);
    CountBelowSort(docs, SortByNo(docs)[k].no);
  }

  // ---------------------------------------------------------------- lookup after create

  /** A stored document is found by the decimal text of its `no`. */
  lemma FindOneByNo(s: PokemonService, p: Pokemon)
    requires s.Valid() && p in s.db.docs
    ensures s.FindOne(Decimal(p.no)) == Success(p)
  {
    DecimalRoundTrip(p.no);
    assert MatchesNo(Decimal(p.no), p);
    var q := s.FindOne(Decimal(p.no)).value;
    SameKeySameDoc(s.db.docs, p, q);
  }

  /**
   * A stored document is found by its id, written with its hex digits in
   * either case, unless that term is also a decimal number that some
   * document has as its `no` (the numeric stage wins).
   */
  lemma FindOneById(s: PokemonService, p: Pokemon, term: string)
    requires s.Valid() && p in s.db.docs && ToLower(term) == p.id
    requires IsDecimal(term) ==> forall d :: d in s.db.docs ==> d.no != DecimalValue(term)
    ensures s.FindOne(term) == Success(p)
  {
    ObjectIdSpellings(term);
    assert MatchesId(term, p);
    var q := s.FindOne(term).value;
    SameKeySameDoc(s.db.docs, p, q);
  }

  /**
   * A stored lower-case name without surrounding white space finds its
   * document, unless the name is numeric and names some `no`, or is a
   * valid object id that names some id.
   */
  lemma FindOneByName(s: PokemonService, p: Pokemon)
    requires s.Valid() && p in s.db.docs
    requires forall i :: 0 <= i < |p.name| ==> !IsUpper(p.name[i])
    requires Trimmed(p.name)
    requires IsDecimal(p.name) ==> forall d :: d in s.db.docs ==> d.no != DecimalValue(p.name)
    requires IsValidObjectId(p.name) ==> !HasId(s.db.docs, p.name)
    ensures s.FindOne(p.name) == Success(p)
  {
    NameStageReached(s.db.docs, p);
    FoundByName(s, p.name, p);
  }

  /** When the number and id stages match nothing, `findOne` returns the stored record whose name the term gives. */
  lemma FoundByName(s: PokemonService, term: string, p: Pokemon)
    requires s.Valid() && p in s.db.docs && MatchesName(term, p)
    requires forall d :: d in s.db.docs ==> !MatchesNo(term, d) && !MatchesId(term, d)
    ensures s.FindOne(term) == Success(p)
  {
    var r := s.FindOne(term);
    SameKeySameDoc(s.db.docs, p, r.value);
  }

  /** For such a name the number and id stages match nothing, and the name stage matches `p`. */
  lemma NameStageReached(docs: seq<Pokemon>, p: Pokemon)
    requires p in docs
    requires forall i :: 0 <= i < |p.name| ==> !IsUpper(p.name[i])
    requires Trimmed(p.name)
    requires IsDecimal(p.name) ==> forall d :: d in docs ==> d.no != DecimalValue(p.name)
    requires IsValidObjectId(p.name) ==> !HasId(docs, p.name)
    ensures forall d :: d in docs ==> !MatchesNo(p.name, d) && !MatchesId(p.name, d)
    ensures MatchesName(p.name, p)
  {
    ToLowerOfLower(p.name);
    TrimOfTrimmed(p.name);
    forall d | d in docs ensures !MatchesNo(p.name, d) && !MatchesId(p.name, d) {
      if IsValidObjectId(p.name) {
        assert d.id != p.name;
      }
    }
  }
}
