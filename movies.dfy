/**
 The records held by the movie service and the pure specification of its
 in-memory store: an ordered sequence of Movie values in which every lookup
 scans front to back and the first record whose id matches wins.
 */
module Movies {

  datatype Option<+T> = None | Some(value: T)

  /** A director: a value compared field by field, with no identity of its own. */
  datatype Director = Director(firstName: string, lastName: string)

  /** A movie record. `director` is None where the service holds a nil pointer. */
  datatype Movie = Movie(id: string, isbn: string, title: string, director: Option<Director>)

  /** What a handler answers about an id: a record, or the "Invalid Id" message. */
  datatype Reply = Ok(movie: Movie) | InvalidId

  /** The zero value of a Movie: what a handler holds before its scan finds anything. */
  const ZeroMovie: Movie := Movie("", "", "", None)

  /** The record the store is declared with. */
  const Inception: Movie := Movie("1", "12345", "Inception", Some(Director("Christopher", "Nolan")))

  /** The record appended to the store at start-up. */
  const Rrr: Movie := Movie("2", "2", "RRR", Some(Director("Rajamouli", "SS")))

  /** Position `i` holds the first record of `s` whose id is `id`. */
  predicate IsFirstMatch(s: seq<Movie>, id: string, i: nat) {
    i < |s| && s[i].id == id && forall j :: 0 <= j < i ==> s[j].id != id
  }

  /** The index a front-to-back scan for `id` stops at, if any. */
  function FirstIndex(s: seq<Movie>, id: string): (r: Option<nat>)
    ensures r.Some? ==> IsFirstMatch(s, id, r.value)
    ensures r.None? <==> forall j :: 0 <= j < |s| ==> s[j].id != id
  {
    if s == [] then None
    else if s[0].id == id then Some(0)
    else match FirstIndex(s[1..], id)
      case None => None
      case Some(i) => Some(i + 1)
  }

  /** Get by id: the first record with that id, or InvalidId. */
  function Find(s: seq<Movie>, id: string): (r: Reply)
    ensures r.InvalidId? <==> forall j :: 0 <= j < |s| ==> s[j].id != id
    ensures r.Ok? ==> r.movie.id == id && r.movie in s
  {
    match FirstIndex(s, id)
    case None => InvalidId
    case Some(i) => Ok(s[i])
  }

  /** How many records of `s` carry the id `id`. */
  function Count(s: seq<Movie>, id: string): nat {
    if s == [] then 0 else (if s[0].id == id then 1 else 0) + Count(s[1..], id)
  }

  /** The ids of `s`, in order. */
  function Ids(s: seq<Movie>): seq<string> {
    seq(|s|, i requires 0 <= i < |s| => s[i].id)
  }

  /** A stored record after an update: title, ISBN and director come from the patch, the id stays. */
  function Patched(stored: Movie, patch: Movie): Movie {
    stored.(title := patch.title, isbn := patch.isbn, director := patch.director)
  }

  /** Update by id: the first record with that id is patched, everything else stays. */
  function UpdateFirst(s: seq<Movie>, id: string, patch: Movie): seq<Movie> {
    if s == [] then []
    else if s[0].id == id then [Patched(s[0], patch)] + s[1..]
    else [s[0]] + UpdateFirst(s[1..], id, patch)
  }

  /** Delete by id: the first record with that id is dropped, the rest close up in order. */
  function RemoveFirst(s: seq<Movie>, id: string): seq<Movie> {
    if s == [] then []
    else if s[0].id == id then s[1..]
    else [s[0]] + RemoveFirst(s[1..], id)
  }

  /** A scan that reaches index `i` having seen no other match stops there. */
  lemma FirstIndexIs(s: seq<Movie>, id: string, i: nat)
    requires IsFirstMatch(s, id, i)
    ensures FirstIndex(s, id) == Some(i)
    ensures Find(s, id) == Ok(s[i])
  {
  }

  /** Delete removes exactly the element at the first match; a missing id changes nothing. */
  lemma {:induction false} RemoveFirstAt(s: seq<Movie>, id: string)
    ensures FirstIndex(s, id).None? ==> RemoveFirst(s, id) == s
    ensures FirstIndex(s, id).Some? ==>
      var i := FirstIndex(s, id).value;
      RemoveFirst(s, id) == s[..i] + s[i + 1..] && |RemoveFirst(s, id)| == |s| - 1
  {
    if s != [] && s[0].id != id {
      var t := s[1..];
      RemoveFirstAt(t, id);
      assert RemoveFirst(s, id) == [s[0]] + RemoveFirst(t, id);
      match FirstIndex(t, id)
      case None =>
        assert [s[0]] + t == s;
      case Some(k) =>
        assert FirstIndex(s, id) == Some(k + 1);
        assert [s[0]] + t[..k] == s[..k + 1];
        assert t[k + 1..] == s[k + 2..];
        assert ([s[0]] + t[..k]) + t[k + 1..] == [s[0]] + (t[..k] + t[k + 1..]);
    }
  }

  /** Update patches exactly the element at the first match; length and all else stay. */
  lemma {:induction false} UpdateFirstAt(s: seq<Movie>, id: string, patch: Movie)
    ensures FirstIndex(s, id).None? ==> UpdateFirst(s, id, patch) == s
    ensures FirstIndex(s, id).Some? ==>
      var i := FirstIndex(s, id).value;
      UpdateFirst(s, id, patch) == s[i := Patched(s[i], patch)]
  {
    if s != [] && s[0].id != id {
      UpdateFirstAt(s[1..], id, patch);
      match FirstIndex(s[1..], id)
      case None =>
        assert [s[0]] + s[1..] == s;
      case Some(k) =>
        assert [s[0]] + s[1..][k := Patched(s[1..][k], patch)] == s[k + 1 := Patched(s[k + 1], patch)];
    }
  }

  /** An update never changes any stored id, nor their order. */
  lemma UpdateKeepsIds(s: seq<Movie>, id: string, patch: Movie)
    ensures Ids(UpdateFirst(s, id, patch)) == Ids(s)
  {
    UpdateFirstAt(s, id, patch);
  }

  /** After an update, get-by-id of the key finds the patched record; every other key finds what it did before. */
  lemma {:induction false} FindAfterUpdate(s: seq<Movie>, id: string, patch: Movie, key: string)
    ensures Find(UpdateFirst(s, id, patch), key) ==
      if key == id && Find(s, id).Ok? then Ok(Patched(Find(s, id).movie, patch)) else Find(s, key)
  {
    if s != [] {
      var t := UpdateFirst(s, id, patch);
      if s[0].id == id {
        assert t[0] == Patched(s[0], patch) && t[1..] == s[1..];
      } else {
        FindAfterUpdate(s[1..], id, patch, key);
        assert t[0] == s[0] && t[1..] == UpdateFirst(s[1..], id, patch);
      }
    }
  }

  /** Deleting one id does not change what get-by-id finds for any other id. */
  lemma {:induction false} FindAfterRemoveOther(s: seq<Movie>, id: string, key: string)
    requires key != id
    ensures Find(RemoveFirst(s, id), key) == Find(s, key)
  {
    if s != [] {
      var t := RemoveFirst(s, id);
      if s[0].id != id {
        FindAfterRemoveOther(s[1..], id, key);
        assert t[0] == s[0] && t[1..] == RemoveFirst(s[1..], id);
      }
    }
  }

  /** A successful delete lowers the number of records with that id by exactly one. */
  lemma {:induction false} CountAfterRemove(s: seq<Movie>, id: string)
    ensures Count(RemoveFirst(s, id), id) == if Count(s, id) == 0 then 0 else Count(s, id) - 1
  {
    if s != [] && s[0].id != id {
      CountAfterRemove(s[1..], id);
      var t := RemoveFirst(s, id);
      assert t[0] == s[0] && t[1..] == RemoveFirst(s[1..], id);
    }
  }

  /** Get-by-id reports InvalidId exactly when no record carries the id. */
  lemma {:induction false} CountZeroIffInvalid(s: seq<Movie>, id: string)
    ensures Count(s, id) == 0 <==> Find(s, id) == InvalidId
  {
    if s != [] {
      CountZeroIffInvalid(s[1..], id);
      if s[0].id != id {
        assert forall j :: 0 < j < |s| ==> s[j] == s[1..][j - 1];
      }
    }
  }

  /**
   Deleting an id that occurred exactly once leaves no record with it: get-by-id
   then reports InvalidId and a second delete changes nothing.
   */
  lemma DeleteUniqueThenGone(s: seq<Movie>, id: string)
    requires Count(s, id) == 1
    ensures Find(RemoveFirst(s, id), id) == InvalidId
    ensures RemoveFirst(RemoveFirst(s, id), id) == RemoveFirst(s, id)
  {
    var t := RemoveFirst(s, id);
    CountAfterRemove(s, id);
    CountZeroIffInvalid(t, id);
    RemoveFirstAt(t, id);
  }

  /**
   Create appends: get-by-id after it finds what it found before, and only for
   an id no earlier record carries does it find the new one (first match wins).
   */
  lemma {:induction false} FindAfterAppend(s: seq<Movie>, m: Movie, key: string)
    ensures Find(s + [m], key) ==
      if Find(s, key).Ok? then Find(s, key) else if m.id == key then Ok(m) else InvalidId
  {
    if s != [] {
      FindAfterAppend(s[1..], m, key);
      assert (s + [m])[0] == s[0] && (s + [m])[1..] == s[1..] + [m];
    }
  }
}
