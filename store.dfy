/**
 The process-wide `movies` slice and the four operations the HTTP handlers
 perform on it, each a front-to-back scan that stops at the first record
 whose id matches. Routing, JSON and the server itself are not modelled:
 the id and the decoded body arrive as plain parameters, and a handler's
 answer is returned as a value.
 */
module Store {
  import opened Movies

  class MovieStore {
    /** The records, in insertion order; ids are not required to be unique. */
    var movies: seq<Movie>

    /** The store as the process starts: declared with one record, a second appended before serving. */
    constructor ()
      ensures movies == [Inception, Rrr]
    {
      movies := [Inception];
      movies := movies + [Rrr];
    }

    /** List: every record, in order. */
    method List() returns (r: seq<Movie>)
      ensures r == movies
    {
      r := movies;
    }

    /** Get by id: the first record with that id, or InvalidId; the store is only read. */
    method GetById(id: string) returns (r: Reply)
      ensures r == Find(movies, id)
    {
      var found := false;
      var movie := ZeroMovie;
      var idx := 0;
      while idx < |movies|
        invariant idx <= |movies| && !found
        invariant forall j :: 0 <= j < idx ==> movies[j].id != id
      {
        var item := movies[idx];
        if item.id == id {
          found := true;
          movie := item;
          break;
        }
        idx := idx + 1;
      }
      if found {
        FirstIndexIs(movies, id, idx);
        r := Ok(movie);
      } else {
        r := InvalidId;
      }
    }

    /** Create: append the record exactly as given, whatever its id, and answer with it. */
    method Create(m: Movie) returns (r: Movie)
      modifies this
      ensures movies == old(movies) + [m]
      ensures r == m
    {
      movies := movies + [m];
      r := m;
    }

    /**
     Update by id: the first record with that id takes the patch's title, ISBN
     and director and keeps its own id; the answer carries the patch itself.
     */
    method UpdateById(id: string, patch: Movie) returns (r: Reply)
      modifies this
      ensures movies == UpdateFirst(old(movies), id, patch)
      ensures r == if Find(old(movies), id).Ok? then Ok(patch) else InvalidId
    {
      var found := false;
      var idx := 0;
      while idx < |movies|
        invariant idx <= |movies| && !found && movies == old(movies)
        invariant forall j :: 0 <= j < idx ==> movies[j].id != id
      {
        var item := movies[idx];
        if item.id == id {
          found := true;
          item := item.(title := patch.title, isbn := patch.isbn, director := patch.director);
          FirstIndexIs(movies, id, idx);
          movies := movies[idx := item];
          break;
        }
        idx := idx + 1;
      }
      UpdateFirstAt(old(movies), id, patch);
      if found {
        r := Ok(patch);
      } else {
        r := InvalidId;
      }
    }

    /**
     Delete by id: the first record with that id is removed, the ones after it
     move down one place, and the answer carries the removed record.
     */
    method DeleteById(id: string) returns (r: Reply)
      modifies this
      ensures movies == RemoveFirst(old(movies), id)
      ensures r == Find(old(movies), id)
    {
      var found := false;
      var movie := ZeroMovie;
      var idx := 0;
      while idx < |movies|
        invariant idx <= |movies| && !found && movies == old(movies)
        invariant forall j :: 0 <= j < idx ==> movies[j].id != id
      {
        var item := movies[idx];
        if item.id == id {
          found := true;
          movie := item;
          FirstIndexIs(movies, id, idx);
          movies := movies[..idx] + movies[idx + 1..];
          break;
        }
        idx := idx + 1;
      }
      RemoveFirstAt(old(movies), id);
      if found {
        r := Ok(movie);
      } else {
        r := InvalidId;
      }
    }
  }

  /** A create after the seed is listed last and found by its id. */
  method CreateAfterSeed() {
    var store := new MovieStore();
    var dune := Movie("3", "9", "Dune", Some(Director("Denis", "V")));
    var created := store.Create(dune);
    FindAfterAppend([Inception, Rrr], dune, "3");
    var all := store.List();
    assert all == [Inception, Rrr, dune];
    var got := store.GetById("3");
    assert got == Ok(dune);
  }

  /** Of two records created with the same id, get-by-id finds the first. */
  method DuplicateIds() {
    var store := new MovieStore();
    var first := Movie("x", "a", "First", None);
    var second := Movie("x", "b", "Second", None);
    var created := store.Create(first);
    assert Find([Inception, Rrr], "x") == InvalidId;
    FindAfterAppend([Inception, Rrr], first, "x");
    assert [Inception, Rrr] + [first] == [Inception, Rrr, first];
    created := store.Create(second);
    FindAfterAppend([Inception, Rrr, first], second, "x");
    var got := store.GetById("x");
    assert got == Ok(first);
  }

  /** An update of "1" answers with the patch; the stored record keeps id "1". */
  method UpdateThenGet() {
    var store := new MovieStore();
    var patch := Movie("", "999", "Inception 2", None);
    var updated := store.UpdateById("1", patch);
    assert updated == Ok(patch);
    FindAfterUpdate([Inception, Rrr], "1", patch, "1");
    var got := store.GetById("1");
    assert got == Ok(Movie("1", "999", "Inception 2", None));
  }

  /** After "1" is deleted it is not found, and deleting it again answers InvalidId. */
  method DeleteTwice() {
    var store := new MovieStore();
    var deleted := store.DeleteById("1");
    assert deleted == Ok(Inception);
    assert store.movies == [Rrr];
    var got := store.GetById("1");
    assert got == InvalidId;
    deleted := store.DeleteById("1");
    assert deleted == InvalidId;
  }
}
