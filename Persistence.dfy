/**
 * The "pokemon" collection as the services see it through the document
 * model: records `{id, name, no}` with unique indexes on `id`, `name` and
 * `no`. An insert or update that would repeat a `name` or a `no` is refused
 * with the duplicate-key error (code 11000) and changes nothing.
 */
module Persistence {
  import opened Wrappers
  import opened Text

  /** One stored document. `id` is the document id in its 24-hex-digit text form. */
  datatype Pokemon = Pokemon(id: string, name: string, no: nat)

  predicate IsHexDigit(c: char) {
    '0' <= c <= '9' || 'a' <= c <= 'f' || 'A' <= c <= 'F'
  }

  /**
   * Stand-in for `isValidObjectId`: 24 hexadecimal digits, in either case.
   * Both spellings cast to the same object id.
   */
  predicate IsValidObjectId(s: string) {
    |s| == 24 && forall i :: 0 <= i < |s| ==> IsHexDigit(s[i])
  }

  /** The text form the database gives an id it generates: 24 lower-case hexadecimal digits. */
  predicate IsCanonicalId(s: string) {
    IsValidObjectId(s) && forall i :: 0 <= i < |s| ==> !IsUpper(s[i])
  }

  /**
   * A string is a valid object id exactly when its lower-case form is,
   * and that form is then the id's text form.
   */
  lemma ObjectIdSpellings(s: string)
    ensures IsValidObjectId(s) <==> IsValidObjectId(ToLower(s))
    ensures IsValidObjectId(s) ==> IsCanonicalId(ToLower(s))
  {
    var t := ToLower(s);
    if IsValidObjectId(t) {
      forall i | 0 <= i < |s| ensures IsHexDigit(s[i]) {
        if IsUpper(s[i]) {
          assert t[i] as int == s[i] as int + 32;
          assert 'a' <= t[i] <= 'f';
        }
      }
    }
  }

  /** The key a duplicate-key error reports (its `keyValue`). */
  datatype DupKey = NameKey(name: string) | NoKey(no: nat)

  /** An error raised by the document model: `code` is absent for validation and cast errors. */
  datatype DbError = DbError(code: Option<int>, keyValue: Option<DupKey>)

  const DuplicateKeyCode := 11000

  /** Every id, every name and every `no` occurs at most once. */
  predicate Unique(docs: seq<Pokemon>) {
    forall i, j :: 0 <= i < j < |docs| ==>
      docs[i].id != docs[j].id && docs[i].name != docs[j].name && docs[i].no != docs[j].no
  }

  predicate HasId(docs: seq<Pokemon>, id: string) {
    exists d :: d in docs && d.id == id
  }

  /** Two stored documents that agree on one key are the same document. */
  lemma SameKeySameDoc(docs: seq<Pokemon>, p: Pokemon, q: Pokemon)
    requires Unique(docs) && p in docs && q in docs
    requires p.id == q.id || p.name == q.name || p.no == q.no
    ensures p == q
  {
  }

  lemma UniqueTail(docs: seq<Pokemon>)
    requires Unique(docs) && docs != []
    ensures Unique(docs[1..])
  {
  }

  /** Putting in front a document whose keys differ from every document's keeps the keys unique. */
  lemma UniqueCons(x: Pokemon, rest: seq<Pokemon>)
    requires Unique(rest)
    requires forall d :: d in rest ==> d.id != x.id && d.name != x.name && d.no != x.no
    ensures Unique([x] + rest)
  {
  }

  /**
   * The unique index a document with this `name` and `no` would violate:
   * the name index is consulted before the `no` index.
   */
  function Clash(docs: seq<Pokemon>, name: string, no: nat): (r: Option<DupKey>)
    ensures r == None <==> forall d :: d in docs ==> d.name != name && d.no != no
    ensures r == Some(NameKey(name)) <==> exists d :: d in docs && d.name == name
    ensures r == Some(NoKey(no)) <==>
      (forall d :: d in docs ==> d.name != name) && exists d :: d in docs && d.no == no
  {
    if exists d :: d in docs && d.name == name then Some(NameKey(name))
    else if exists d :: d in docs && d.no == no then Some(NoKey(no))
    else None
  }

  function DuplicateKey(k: DupKey): (e: DbError)
    ensures e.code == Some(DuplicateKeyCode) && e.keyValue == Some(k)
  {
    DbError(Some(DuplicateKeyCode), Some(k))
  }

  /** The documents other than the one with `id`, in their stored order. */
  function Without(docs: seq<Pokemon>, id: string): (r: seq<Pokemon>)
    ensures forall d :: d in r <==> d in docs && d.id != id
    ensures |r| <= |docs|
    decreases |docs|
  {
    if docs == [] then []
    else if docs[0].id == id then Without(docs[1..], id)
    else [docs[0]] + Without(docs[1..], id)
  }

  /** Removing an id that is stored once takes exactly one document away and keeps the rest unique. */
  lemma {:induction false} WithoutPresent(docs: seq<Pokemon>, id: string)
    requires Unique(docs) && HasId(docs, id)
    ensures |Without(docs, id)| == |docs| - 1
    ensures Unique(Without(docs, id))
    decreases |docs|
  {
    UniqueTail(docs);
    if docs[0].id == id {
      WithoutAbsent(docs[1..], id);
    } else {
      assert HasId(docs[1..], id) by {
        var d :| d in docs && d.id == id;
        assert d != docs[0];
      }
      WithoutPresent(docs[1..], id);
      forall d | d in Without(docs[1..], id)
        ensures d.id != docs[0].id && d.name != docs[0].name && d.no != docs[0].no
      {
        var k :| 1 <= k < |docs| && docs[k] == d;
      }
      UniqueCons(docs[0], Without(docs[1..], id));
    }
  }

  /** Removing an id that is not stored changes nothing. */
  lemma {:induction false} WithoutAbsent(docs: seq<Pokemon>, id: string)
    requires !HasId(docs, id)
    ensures Without(docs, id) == docs
    decreases |docs|
  {
    if docs != [] {
      assert docs[0] in docs;
      assert !HasId(docs[1..], id) by {
        forall d | d in docs[1..] ensures d.id != id {
          assert d in docs;
        }
      }
      WithoutAbsent(docs[1..], id);
      assert [docs[0]] + docs[1..] == docs;
    }
  }

  /** `docs` with the document carrying `p.id` replaced by `p`. */
  function Replace(docs: seq<Pokemon>, p: Pokemon): (r: seq<Pokemon>)
    ensures |r| == |docs|
    ensures forall i :: 0 <= i < |r| ==> r[i] == if docs[i].id == p.id then p else docs[i]
    ensures HasId(docs, p.id) ==> p in r
    ensures forall d :: d in r ==> d == p || (d in docs && d.id != p.id)
  {
    seq(|docs|, i requires 0 <= i < |docs| => if docs[i].id == p.id then p else docs[i])
  }

  /** Replacing a stored document by one whose keys clash with no other document keeps the keys unique. */
  lemma ReplaceKeepsUnique(docs: seq<Pokemon>, p: Pokemon)
    requires Unique(docs) && HasId(docs, p.id)
    requires Clash(Without(docs, p.id), p.name, p.no) == None
    ensures Unique(Replace(docs, p))
  {
  }

  /**
   * The collection as a mutable object: the services share one instance,
   * as they share the injected model.
   */
  class PokemonCollection {
    var docs: seq<Pokemon>

    /** Keys are unique and every id is in its text form. */
    ghost predicate Valid()
      reads this
    {
      Unique(docs) && forall d :: d in docs ==> IsCanonicalId(d.id)
    }

    constructor ()
      ensures Valid() && docs == []
    {
      docs := [];
    }

    /** `model.create(doc)`: appends `p`, or fails with the duplicate key and changes nothing. */
    method Create(p: Pokemon) returns (r: Result<Pokemon, DbError>)
      requires Valid() && IsCanonicalId(p.id) && !HasId(docs, p.id)
      modifies this
      ensures Valid()
      ensures match Clash(old(docs), p.name, p.no)
        case None => r == Success(p) && docs == old(docs) + [p]
        case Some(k) => r == Failure(DuplicateKey(k)) && docs == old(docs)
    {
      var clash := Clash(docs, p.name, p.no);
      if clash.Some? {
        return Failure(DuplicateKey(clash.value));
      }
      docs := docs + [p];
      r := Success(p);
    }

    /** `doc.updateOne(fields)`: the stored document with `p.id` becomes `p` unless another document holds its name or `no`. */
    method UpdateOne(p: Pokemon) returns (r: Option<DbError>)
      requires Valid() && HasId(docs, p.id)
      modifies this
      ensures Valid()
      ensures match Clash(Without(old(docs), p.id), p.name, p.no)
        case None => r == None && docs == Replace(old(docs), p)
        case Some(k) => r == Some(DuplicateKey(k)) && docs == old(docs)
    {
      var clash := Clash(Without(docs, p.id), p.name, p.no);
      if clash.Some? {
        return Some(DuplicateKey(clash.value));
      }
      ReplaceKeepsUnique(docs, p);
      docs := Replace(docs, p);
      r := None;
    }

    /** `model.deleteOne({_id: id})`: returns the deleted count. */
    method DeleteOne(id: string) returns (deletedCount: nat)
      requires Valid()
      modifies this
      ensures Valid()
      ensures deletedCount == if HasId(old(docs), id) then 1 else 0
      ensures docs == Without(old(docs), id)
      ensures |docs| == |old(docs)| - deletedCount
      ensures deletedCount == 0 ==> docs == old(docs)
    {
      if HasId(docs, id) {
        WithoutPresent(docs, id);
        deletedCount := 1;
      } else {
        WithoutAbsent(docs, id);
        deletedCount := 0;
      }
      docs := Without(docs, id);
    }

    /** `model.deleteMany({})`. */
    method DeleteMany()
      modifies this
      ensures Valid() && docs == []
    {
      docs := [];
    }
  }
}
