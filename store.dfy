/** The module state of the catalog store (`gamesData`, `currentCategory`)
    and the operations that read or replace it. The filtering queries are
    the functions of `Catalog` applied to `gamesData`. */
module GameStore {
  import opened Catalog
  import opened FisherYates

  /** The `limit` of `getFeaturedGames` when the caller passes none. */
  const DefaultFeaturedLimit := 8

  /** What `getFeaturedGames(limit)` returns for the shuffle given by
      `picks`: `min(limit, |games|)` records for a non-negative limit, each
      taken from the catalog and no record more often than it is there. */
  lemma FeaturedSelection(games: seq<Game>, picks: seq<nat>, limit: int)
    requires ValidPicks(picks, |games|)
    ensures limit >= 0 ==> |Slice(Shuffled(games, picks), limit)| == Min(limit, |games|)
    ensures multiset(Slice(Shuffled(games, picks), limit)) <= multiset(games)
    ensures forall g :: g in Slice(Shuffled(games, picks), limit) ==> g in games
  {
    var t := Shuffled(games, picks);
    var r := Slice(t, limit);
    ShuffledPermutes(games, picks);
    assert t == r + t[|r|..];
    assert multiset(t) == multiset(r) + multiset(t[|r|..]);
    forall g | g in r ensures g in games {
      assert g in multiset(r);
      assert multiset(r)[g] <= multiset(games)[g];
      assert g in multiset(games);
    }
  }

  class Store {
    var gamesData: seq<Game>
    var currentCategory: string

    /** The state at page load: empty catalog, category `"all"`. */
    constructor ()
      ensures gamesData == [] && currentCategory == "all"
    {
      gamesData := [];
      currentCategory := "all";
    }

    /** `loadGamesData`, with the fetched and parsed catalog as `response`
        (`None` when the request or the parsing fails). On success the
        catalog is replaced and returned; on failure `[]` is returned and
        the catalog is left as it was. */
    method Load(response: Option<seq<Game>>) returns (loaded: seq<Game>)
      modifies this`gamesData
      ensures response.Some? ==> gamesData == response.value && loaded == response.value
      ensures response.None? ==> gamesData == old(gamesData) && loaded == []
    {
      match response
      case Some(games) =>
        gamesData := games;
        loaded := gamesData;
      case None =>
        loaded := [];
    }

    /** `getAllGames`: a new array with the catalog in stored order. */
    method GetAll() returns (copy: array<Game>)
      ensures fresh(copy)
      ensures copy[..] == gamesData
    {
      var data := gamesData;
      copy := new Game[|data|](i requires 0 <= i < |data| => data[i]);
      assert copy[..] == data;
    }

    /** `getFeaturedGames(limit)`: shuffles a fresh copy of the catalog and
        keeps its first `limit` records. The store itself is not modified. */
    method GetFeatured(limit: int) returns (featured: seq<Game>, ghost picks: seq<nat>)
      ensures ValidPicks(picks, |gamesData|)
      ensures featured == Slice(Shuffled(gamesData, picks), limit)
      ensures limit >= 0 ==> |featured| == Min(limit, |gamesData|)
      ensures multiset(featured) <= multiset(gamesData)
      ensures forall g :: g in featured ==> g in gamesData
    {
      var data := gamesData;
      var shuffled := new Game[|data|](i requires 0 <= i < |data| => data[i]);
      assert shuffled[..] == data;
      picks := Shuffle(shuffled);
      featured := Slice(shuffled[..], limit);
      FeaturedSelection(data, picks, limit);
    }

    /** `getFeaturedGames()` with the default limit. */
    method GetFeaturedDefault() returns (featured: seq<Game>, ghost picks: seq<nat>)
      ensures ValidPicks(picks, |gamesData|)
      ensures featured == Slice(Shuffled(gamesData, picks), DefaultFeaturedLimit)
      ensures |featured| == Min(8, |gamesData|)
    {
      featured, picks := GetFeatured(DefaultFeaturedLimit);
    }

    method SetCurrentCategory(category: string)
      modifies this`currentCategory
      ensures currentCategory == category
    {
      currentCategory := category;
    }

    method GetCurrentCategory() returns (category: string)
      ensures category == currentCategory
    {
      category := currentCategory;
    }
  }
}
