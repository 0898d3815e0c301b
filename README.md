# Pokedex CRUD backend — a Dafny model of its two services

The repository is a small REST backend over one document collection,
"pokemon", whose documents are `{id, name, no}`. This project models its two
services, with the collection held in memory:

- `PokemonService` (src/pokemon/pokemon.service.ts), the resource store:
  `create`, the paginated `findAll`, the three-stage `findOne`, `update`,
  `remove`, and `handleExeptions`, which turns storage errors into HTTP
  exceptions.
- `SeedService.executeSeed` (src/seed/seed.service.ts), the importer:
  it purges the collection, reads each catalog entry's ordinal from its URL,
  and inserts one document per entry.

Files:

- `Wrappers.dfy`: `Option` and `Result`. A thrown exception becomes a `Failure` value.
- `Text.dfy`: the string operations the services use. These are
  `toLowerCase` (ASCII letters), `trim`, decimal reading and rendering, and
  `split`/`join` on one separator.
- `Persistence.dfy`: the collection, modelled as class `PokemonCollection`
  with a `seq` field. Both services share one instance, as they share the
  injected model. The unique indexes on `id`, `name` and `no` come from the
  duplicate-key handling (code 11000) at src/pokemon/pokemon.service.ts:106.
  A refused insert or update reports the clashing key and changes nothing.
- `PokemonService.dfy` (module `PokemonModule`): class `PokemonService`.
  `Create`, `Update` and `Remove` are methods that change the collection.
  `FindAll` and `FindOne` are functions that read it. Lemmas cover sorting,
  paging and lookup after insertion.
- `Seed.dfy` (module `SeedModule`): the URL-to-ordinal parse, the inserts as
  a fold (`Run`), class `SeedService` with `ExecuteSeed`, and lemmas about
  the catalog contents and about running the seed twice.

Modelling assumptions:

- The entity, update-DTO and pagination-DTO files are not part of this model.
  The entity shape and the uniqueness of `name` and of `no` are inferred
  from the duplicate-key handling. The update DTO is taken to be the create
  DTO with every field optional. Its constraints (non-empty `name`, `no >= 1`)
  become `Update`'s requires. The create-DTO constraints at
  src/pokemon/dto/create-pokemon.dto.ts:3-10 become `Create`'s requires.
- `isValidObjectId` is stood in for by `IsValidObjectId`: exactly 24
  hexadecimal digits, in either case. Stored ids are kept in their
  canonical lower-case form (`IsCanonicalId`), as the database renders
  object ids. A term or an id passed to `remove` matches a stored id when
  its lower-cased text equals it, so the hex digits may be written in
  either case. New document ids are inputs. `Create` receives one
  canonical id that is not stored. `ExecuteSeed` receives pairwise distinct
  canonical ids, one per catalog entry.
- A term counts as numeric (`!isNaN(+term)`) only when it is a non-empty
  string of decimal digits.
- `findAll` follows MongoDB's cursor rules. Sorting comes before skip and
  limit, whatever order the calls are chained in. A limit of 0 means no limit.
- When a document clashes on both indexes, the duplicate-key error names
  `name`. Which index the database checks first is not visible in the source.
- The seed's concurrent creates (`forEach(async …)` and `Promise.all`) are
  modelled as a sequential fold in catalog order. Every entry is tried.
  A refused entry is skipped and nothing is rolled back. The call fails with
  the first refusal in catalog order. A second-to-last URL segment that is
  not a number gives the document model's cast error, which has no code.

Behaviour the model keeps as the code has it:

- `remove` of an absent id throws BadRequest ("Pokemon not found")
  (src/pokemon/pokemon.service.ts:100-101).
- `create` and `update` lower-case names but never trim them when storing.
  Only the lookup term of `findOne` is trimmed
  (src/pokemon/pokemon.service.ts:29, 66, 78).
- The seed stores catalog names exactly as given, without lower-casing
  (src/seed/seed.service.ts:21, 26).
- The seed inserts one document per entry with `create`, not with a single
  bulk insert (src/seed/seed.service.ts:26).

## Model

| member | source | states |
|---|---|---|
| `PokemonModule.PokemonService.constructor` | src/pokemon/pokemon.service.ts:18-26 | the service works on the given collection and keeps the configured default page size |
| `PokemonModule.PokemonService.Create` | src/pokemon/pokemon.service.ts:28-36 | the DTO's name is lower-cased in place; with no clash, the new document `{newId, lower-cased name, no}` (`newId` a canonical id not yet stored) is appended and returned; with a stored name or `no`, BadRequest(AlreadyExists(key)) is thrown and the collection is unchanged; uniqueness is kept |
| `PokemonModule.PokemonService.FindAll` | src/pokemon/pokemon.service.ts:38-48 | with `limit` defaulting to `defaultLimit` and `offset` to 0: the page is ascending by `no`, holds only stored documents, has the size left after `offset` capped by `limit`, and (distinct `no`s) its i-th document has exactly `offset + i` documents below it |
| `PokemonModule.PokemonService.FindOne` | src/pokemon/pokemon.service.ts:50-73 | a `no` match wins whenever one exists; an id match is used only if no `no` match exists and the term is a valid object id; otherwise a name match on the lower-cased trimmed term; NotFound exactly when no stage matches; a result is always a stored document |
| `PokemonModule.PokemonService.Update` | src/pokemon/pokemon.service.ts:75-89 | an unresolved term gives NotFound and changes nothing; otherwise a given name is lower-cased in the DTO, and the found document with the given fields overriding replaces it and is returned, with absent fields keeping their values; a name or `no` held by another document gives BadRequest and no change |
| `PokemonModule.PokemonService.Remove` | src/pokemon/pokemon.service.ts:91-103 | ids are matched with their hex digits in either case; a stored id: exactly that document goes, the rest stay in order, the size drops by one, and the id is returned; an absent id: BadRequest(PokemonNotFound) and no change |
| `PokemonModule.HandleExceptions` | src/pokemon/pokemon.service.ts:105-115 | code 11000 maps to BadRequest carrying the error's key, and only code 11000 does; every other error maps to InternalServerError (there is no normal return) |
| `PokemonModule.First` | src/pokemon/pokemon.service.ts:53-67 | a lookup returns a stored matching document with no matching document before it, and nothing exactly when no document matches |
| `PokemonModule.MatchesNo` | src/pokemon/pokemon.service.ts:52-55 | the number stage matches a document by its `no`, and the decimal text of a document's `no` always matches it |
| `PokemonModule.MatchesId` | src/pokemon/pokemon.service.ts:59-60 | the id stage matches only documents whose id is a canonical object id |
| `PokemonModule.MatchesName` | src/pokemon/pokemon.service.ts:64-67 | the name stage matches only names that are lower-case and have no surrounding white space |
| `Persistence.ObjectIdSpellings` | src/pokemon/pokemon.service.ts:59 | a term is a valid object id exactly when its lower-cased text is, and then that text is a canonical id |
| `PokemonModule.FoundByName` | src/pokemon/pokemon.service.ts:64-72 | when the number and id stages match nothing, `findOne` returns the stored document whose name the term gives |
| `PokemonModule.FindOneByNo` | src/pokemon/pokemon.service.ts:52-56 | every stored document is found by the decimal text of its `no` |
| `PokemonModule.FindOneById` | src/pokemon/pokemon.service.ts:58-61 | a stored document is found by any term that lower-cases to its id (its hex digits in either case), unless that term is also a decimal number that some document has as its `no` |
| `PokemonModule.FindOneByName` | src/pokemon/pokemon.service.ts:63-68 | a stored lower-case name with no surrounding white space finds its document, unless the name is taken first by the number stage or the id stage |
| `PokemonModule.SortByNo` | src/pokemon/pokemon.service.ts:44-46 | the result is ascending by `no` and is a permutation of the collection |
| `PokemonModule.SortByNoStrict` | src/pokemon/pokemon.service.ts:44-46 | documents with distinct `no`s sort into a strictly ascending sequence |
| `PokemonModule.CountBelowSort` | src/pokemon/pokemon.service.ts:44-46 | sorting keeps the number of documents below any `no` |
| `PokemonModule.RankInStrictlySorted` | src/pokemon/pokemon.service.ts:42-46 | in a strictly ascending sequence, position k has exactly k documents below it |
| `PokemonModule.Page` | src/pokemon/pokemon.service.ts:42-43 | the window holds the sorted documents from `offset` on, in order, with `PageSize` of them |
| `PokemonModule.PageSize` | src/pokemon/pokemon.service.ts:42-43 | the page size is at most the collection, at most a non-zero limit, zero past the end, everything left when the limit does not bite, and exactly the limit when it does |
| `PokemonModule.PageSorted` | src/pokemon/pokemon.service.ts:40-46 | a page of the sorted collection is ascending by `no` |
| `PokemonModule.PageStored` | src/pokemon/pokemon.service.ts:40-46 | a page of the sorted collection holds only stored documents |
| `PokemonModule.PageByRank` | src/pokemon/pokemon.service.ts:40-46 | with distinct `no`s, the i-th document of a page has exactly `offset + i` documents below it |
| `PokemonModule.RankOfSorted` | src/pokemon/pokemon.service.ts:44-46 | with distinct `no`s, the k-th document in ascending order has exactly k documents below it |
| `PokemonModule.PageOfSorted` | src/pokemon/pokemon.service.ts:40-47 | a page of the sorted collection is ascending, holds only stored documents, and holds them by rank |
| `Persistence.PokemonCollection.Create` | src/pokemon/pokemon.service.ts:31 | insert under the unique indexes: it appends when no name or `no` clashes; otherwise it raises the 11000 error with the clashing key and changes nothing |
| `Persistence.PokemonCollection.UpdateOne` | src/pokemon/pokemon.service.ts:84 | the document is replaced when no other document holds the new name or `no`; otherwise a duplicate-key error and no change |
| `Persistence.PokemonCollection.DeleteOne` | src/pokemon/pokemon.service.ts:99-100 | the deleted count is 1 when the id is stored and 0 otherwise; exactly the documents with that id are removed |
| `Persistence.PokemonCollection.DeleteMany` | src/seed/seed.service.ts:16 | afterwards the collection is empty |
| `Persistence.Clash` | src/pokemon/pokemon.service.ts:106-109 | None exactly when no stored document has the name or the `no`; otherwise it names the clashing key, name first |
| `Persistence.Without` | src/pokemon/pokemon.service.ts:99 | the collection after `deleteOne({ _id: id })` holds exactly the documents whose id is not `id`, and is no larger |
| `Persistence.Replace` | src/pokemon/pokemon.service.ts:84 | the collection after `updateOne`: the same size and order, the document with the updated id replaced, the updated document present when that id is stored, and nothing else new |
| `Persistence.WithoutPresent` | src/pokemon/pokemon.service.ts:99-102 | deleting a stored id removes exactly one document and keeps the keys unique |
| `Persistence.WithoutAbsent` | src/pokemon/pokemon.service.ts:99-101 | deleting an id that is not stored changes nothing |
| `Persistence.ReplaceKeepsUnique` | src/pokemon/pokemon.service.ts:84 | an update that clashes with no other document keeps every key unique |
| `SeedModule.SeedService.ExecuteSeed` | src/seed/seed.service.ts:15-33 | the collection is purged first; a failed fetch leaves it empty and fails; otherwise the collection is exactly the fold of inserts over the catalog, and the result is "Seed executed" exactly when no insert was refused |
| `SeedModule.SeedService.constructor` | src/seed/seed.service.ts:10-12 | the seed works on the collection it is given (the injected model `PokemonService` shares) |
| `SeedModule.SeedService.InsertAll` | src/seed/seed.service.ts:20-30 | starting from the emptied collection with distinct ids, one insert per entry in catalog order leaves exactly the fold `Run`'s collection and first refusal |
| `SeedModule.SeedService.InsertOne` | src/seed/seed.service.ts:22-26 | one entry's insert: the collection and the first refusal become those of one `Step`, and the collection is unchanged or grows by that entry's document |
| `SeedModule.Ordinal` | src/seed/seed.service.ts:22-23 | the ordinal is read from the second-to-last `/` segment; a URL without `/` has none |
| `SeedModule.InsertEntry` | src/seed/seed.service.ts:26 | `create({ name, no })` succeeds exactly when the URL has an ordinal and no stored name or `no` clashes, appending `{id, name, no}`; a refusal carries code 11000 exactly when the ordinal was read, the cast error otherwise |
| `SeedModule.Step` | src/seed/seed.service.ts:21-30 | one entry leaves the collection unchanged or grows it by one document at the end; a refusal already recorded is kept; otherwise a refusal is recorded exactly when nothing was stored |
| `SeedModule.Run` | src/seed/seed.service.ts:20-30 | the collection after all entries holds at most one document per entry, and no refusal is recorded exactly when every entry was stored |
| `SeedModule.RunExtend` | src/seed/seed.service.ts:21-30 | the fold over one more entry is one more step |
| `SeedModule.OrdinalOfUrl` | src/seed/seed.service.ts:22-23 | a URL ending in `/<n>/` gives ordinal `n`, whatever comes before it |
| `SeedModule.PikachuOrdinal` | src/seed/seed.service.ts:22-23 | `https://pokeapi.co/api/v2/pokemon/25/` gives ordinal 25 |
| `SeedModule.SeedStoresCatalog` | src/seed/seed.service.ts:20-32 | for a catalog with ordinals and distinct names and ordinals, no insert fails; the collection holds one document per entry, in order, with the entry's name as given and its ordinal, so its size equals the catalog's |
| `SeedModule.SeedIdempotent` | src/seed/seed.service.ts:16-30 | two runs over the same catalog give the same `{name, no}` contents and the same failure, whatever ids are generated |
| `SeedModule.ClashSeesContents` | src/seed/seed.service.ts:26 | whether an insert is refused depends only on the stored names and `no`s |
| `Text.ToLower` | src/pokemon/pokemon.service.ts:29 | same length; no upper-case letter remains; each upper-case ASCII letter is shifted to lower case and every other character is kept |
| `Text.Trim` | src/pokemon/pokemon.service.ts:66 | the result has no surrounding white space and is what remains of the term between leading and trailing white space |
| `Text.TrimKeepsLower` | src/pokemon/pokemon.service.ts:66 | trimming a lower-cased term keeps it free of upper-case letters |
| `Text.TrimOfTrimmed` | src/pokemon/pokemon.service.ts:66 | trimming a string without surrounding white space returns it unchanged |
| `Text.Decimal` | src/pokemon/pokemon.service.ts:52-54 | the digit text a caller sends to look up a `no` is a non-empty digit string, with a leading zero only for 0 |
| `Text.DecimalValue` | src/pokemon/pokemon.service.ts:52 | the number a digit term denotes (`+term`) is 0 exactly when every digit is `0` |
| `Text.DecimalRoundTrip` | src/pokemon/pokemon.service.ts:52-54 | reading back the decimal rendering of n gives n |
| `Text.Split` | src/seed/seed.service.ts:22 | there is at least one piece, and no piece contains the separator |
| `Text.JoinSplit` | src/seed/seed.service.ts:22 | joining the pieces with the separator restores the string |
| `Text.SplitAppend` | src/seed/seed.service.ts:22 | splitting `a + sep + b` gives the pieces of `a` followed by the pieces of `b` |

## Left out

- HTTP fetch of the catalog (src/seed/seed.service.ts:17-19): an input, either the entries or `FetchFailed`. No network and no page-size query string.
- Framework wiring: the bootstrap in src/main.ts, module wiring, static files and the database connection in src/app.module.ts, and the Joi environment schema. The default page size (6 in the schema) is a constructor parameter.
- Request validation by decorators: only the constraints survive, as requires on `Create` and `Update`.
- Document id generation and the full `isValidObjectId` rules: ids are inputs, and validity is the 24-hex-digit stand-in.
- Mongoose's cast error for a malformed id in `remove`: any id that matches no document gives BadRequest.
- Storage faults other than duplicate keys (network, timeouts): the in-memory collection raises none. `HandleExceptions` still maps every other code to InternalServerError.
- JavaScript number coercion: `""`, `" "`, `"0x1A"`, `"1e2"` and signed or fractional terms are numeric in the source but not here. An empty URL segment is 0 in the source and a cast error here.
- Full Unicode `toLowerCase` and the Unicode space separators in `trim`: only ASCII letters and the common white-space characters are modelled.
- `select('-__v')`: the model's documents have no version field.
- The exact text of the exception messages, including `JSON.stringify(error.keyValue)`: the key is carried as data.
- `console.log` output.
- Concurrency: interleaving of the seed's concurrent creates, and races between concurrent requests or seeds.
