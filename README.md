# Movie store

A model of the in-memory movie store behind a small HTTP CRUD service. The
service keeps one process-wide, ordered slice of `Movie` records. Its handlers
read and change that slice directly: list, get by id, create, update by id and
delete by id. Every lookup scans the slice front to back and stops at the first
record whose id matches (`break`). Ids are supplied by callers and are never
checked for uniqueness, so the first match wins.

- `movies.dfy`, module `Movies`, holds the records. `Director` is a value.
  `Movie` holds its director as an `Option`, which stands in for the nil-able
  pointer. The module also has the pure specification of the store:
  - `FirstIndex`, the index where a scan stops;
  - `Find`, what get-by-id answers;
  - `UpdateFirst` and `RemoveFirst`, the new contents after an update or a
    delete;
  - the lemmas that relate these definitions to one another and to `Count`,
    the number of records that carry an id.
- `store.dfy`, module `Store`, holds the class `MovieStore`. Its field
  `movies: seq<Movie>` is the slice. Each handler's scan is a method with a
  `while` loop and its invariants, and each method is proved against the
  functions above. The four client methods at the end replay request sequences
  using only the class's contracts: a create after the seed, two records with
  the same id, an update of "1", and deleting "1" twice.

A handler's JSON answer becomes a `Reply`: `Ok(movie)` carries the movie in
the answer, and `InvalidId` is the `{"message":"Invalid Id"}` body. Update
answers with the patch it was given, not the stored record. Create always
answers with the record it appended.

## Model

| member | source | states |
|---|---|---|
| `Movies.FirstIndex` | main.go:171-177 | The scan stops at an index whose record carries the id, and no earlier record carries it. It finds nothing exactly when no record carries the id. |
| `Movies.Find` | main.go:169-192 | Get-by-id answers InvalidId exactly when no record carries the id. Otherwise it answers with a record of the store that carries that id. |
| `Movies.FirstIndexIs` | main.go:171-176 | If index i is the first record with the id, the scan stops at i and get-by-id answers with that record. Together with `Find`, this pins get-by-id to the lowest matching index. |
| `Movies.FindAfterAppend` | main.go:152 | After an append, get-by-id answers as before for any id already present. For any other id it finds the new record only if that record carries the id. So a duplicate created later never shadows an earlier one. |
| `Movies.UpdateFirstAt` | main.go:113-122 | A missing id leaves the contents unchanged. Otherwise exactly the first matching position is replaced by the stored record patched with the patch's title, ISBN and director, with its own id kept. Length and every other position stay the same. |
| `Movies.UpdateKeepsIds` | main.go:117-120 | An update never changes the sequence of ids. |
| `Movies.FindAfterUpdate` | main.go:112-123 | After an update, get-by-id on the updated id finds the patched record. Every other id finds what it found before. |
| `Movies.RemoveFirstAt` | main.go:75-83 | A missing id leaves the contents unchanged. Otherwise the contents become the records before the first match followed by the records after it: the length drops by one and the order is kept. |
| `Movies.FindAfterRemoveOther` | main.go:75-83 | Deleting one id does not change what get-by-id answers for any other id. |
| `Movies.CountAfterRemove` | main.go:75-83 | A delete lowers the number of records that carry the id by exactly one, or leaves it at zero. |
| `Movies.CountZeroIffInvalid` | main.go:169-178 | Get-by-id answers InvalidId if and only if no record carries the id. |
| `Movies.DeleteUniqueThenGone` | main.go:75-83 | After deleting an id that occurred once, get-by-id for it answers InvalidId, and a second delete changes nothing. |
| `Store.MovieStore.constructor` | main.go:26-45 | The store starts as exactly two records: id "1" ("Inception", ISBN "12345", Christopher Nolan), then id "2" ("RRR", ISBN "2", SS Rajamouli). |
| `Store.MovieStore.List` | main.go:196-201 | Listing answers with the whole sequence, in order, and changes nothing. |
| `Store.MovieStore.GetById` | main.go:166-193 | The scan's answer equals `Find` on the current contents: the first record with the id, or InvalidId. Nothing is modified. |
| `Store.MovieStore.Create` | main.go:147-163 | The new contents are the old contents followed by the given record, unchanged whatever its id. The answer is that record. |
| `Store.MovieStore.UpdateById` | main.go:107-144 | The new contents are `UpdateFirst` of the old contents. The answer is the patch as passed in when the id was present, and InvalidId when it was not. |
| `Store.MovieStore.DeleteById` | main.go:70-104 | The new contents are `RemoveFirst` of the old contents. The answer is the removed record, that is the first match, or InvalidId with nothing changed. |

## Left out

- HTTP routing and path-parameter extraction (main.go:47-56): the id is a plain `string` parameter.
- JSON decoding of request bodies (main.go:110, 149): the decoded record is a parameter. A malformed body decodes to Go's zero `Movie` without any error, which corresponds to passing `ZeroMovie`. The store handles it like any other record.
- JSON encoding of answers, the message texts ("Movie created", "Movie updated", "Movie deleted", "Invalid Id") and the always-200 status (main.go:86-102, 126-142, 155-162, 181-192, 199-200): an answer is a `Reply` value or the returned record.
- The welcome text, the start-up message, the `Fetching movies...` line and `http.ListenAndServe` on port 8080 (main.go:59-66, 198): these are I/O only.
- Concurrency: the handlers run concurrently on the unsynchronised slice. Each operation is modelled as atomic and sequential, and the data race is not modelled.
- Pointer aliasing of `*Director`: an update stores the patch's pointer (main.go:119). The model treats a director as an immutable value, so sharing that pointer is not modelled.
- Slice aliasing: `append(movies[:idx], movies[idx+1:]...)` shifts elements within the same backing array (main.go:80). The model replaces the `seq` with its spliced value. A reader still holding the old slice header cannot be observed here.
