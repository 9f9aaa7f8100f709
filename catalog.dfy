/** The game records and the read-only queries of the catalog store. Every
    query is a function of the store's current `gamesData` sequence. */
module Catalog {
  import opened Strings

  datatype Option<T> = None | Some(value: T)

  /** A record identifier as it appears in the catalog: a number or a
      string. Distinct constructors never compare equal, as with `===`. */
  datatype Id = NumberId(n: int) | StringId(s: string)

  /** One catalog record; `image` and `embed` are not read by the store. */
  datatype Game = Game(
    id: Id,
    title: string,
    description: string,
    category: string,
    tags: seq<string>,
    rating: real)

  function Min(a: int, b: int): int { if a <= b then a else b }
  function Max(a: int, b: int): int { if a >= b then a else b }

  // ---------------------------------------------------------------------
  // Filtering

  /** The predicates the store passes to `Array.prototype.filter`. */
  datatype Criterion =
    | InCategory(category: string)
    | WithTag(tag: string)
    | MatchingTerm(term: string)
    | RelatedTo(category: string, id: Id)

  predicate Keeps(c: Criterion, g: Game) {
    match c
    case InCategory(cat) => g.category == cat
    case WithTag(tag) => tag in g.tags
    case MatchingTerm(q) => Matches(g, q)
    case RelatedTo(cat, id) => g.category == cat && g.id != id
  }

  /** `games.filter(g => Keeps(c, g))`. */
  function Select(games: seq<Game>, c: Criterion): (r: seq<Game>)
    ensures |r| <= |games|
    decreases |games|
  {
    if games == [] then []
    else (if Keeps(c, games[0]) then [games[0]] else []) + Select(games[1..], c)
  }

  /** `Select` keeps exactly the records that satisfy the criterion. */
  lemma {:induction false} SelectMembers(games: seq<Game>, c: Criterion)
    ensures forall g :: g in Select(games, c) <==> g in games && Keeps(c, g)
    decreases |games|
  {
    if games != [] {
      SelectMembers(games[1..], c);
      assert forall g :: g in games <==> g == games[0] || g in games[1..];
    }
  }

  /** `ix` lists, in increasing order, exactly the positions of `s` whose
      record satisfies `c`, and `r` holds the records at those positions. */
  ghost predicate IsSelection(r: seq<Game>, s: seq<Game>, c: Criterion, ix: seq<int>) {
    && |ix| == |r|
    && (forall k :: 0 <= k < |ix| ==> 0 <= ix[k] < |s| && r[k] == s[ix[k]])
    && (forall k, l :: 0 <= k < l < |ix| ==> ix[k] < ix[l])
    && (forall i :: 0 <= i < |s| ==> (Keeps(c, s[i]) <==> i in ix))
  }

  /** `r` is the order-preserving subsequence of `s` of the records that
      satisfy `c`. */
  ghost predicate SelectionOf(r: seq<Game>, s: seq<Game>, c: Criterion) {
    exists ix :: IsSelection(r, s, c, ix)
  }

  ghost function Shift(ix: seq<int>, d: int): (r: seq<int>)
    ensures |r| == |ix|
    ensures forall k :: 0 <= k < |ix| ==> r[k] == ix[k] + d
  {
    seq(|ix|, k requires 0 <= k < |ix| => ix[k] + d)
  }

  lemma ShiftIn(ix: seq<int>, d: int, i: int)
    ensures i in Shift(ix, d) <==> i - d in ix
  {
    var r := Shift(ix, d);
    if i in r {
      var k :| 0 <= k < |r| && r[k] == i;
      assert ix[k] == i - d;
    }
    if i - d in ix {
      var k :| 0 <= k < |ix| && ix[k] == i - d;
      assert r[k] == i;
    }
  }

  /** The positions `Select` keeps. */
  ghost function Positions(s: seq<Game>, c: Criterion): seq<int>
    decreases |s|
  {
    if s == [] then []
    else (if Keeps(c, s[0]) then [0] else []) + Shift(Positions(s[1..], c), 1)
  }

  lemma {:induction false} SelectPositions(s: seq<Game>, c: Criterion)
    ensures IsSelection(Select(s, c), s, c, Positions(s, c))
    decreases |s|
  {
    if s != [] {
      SelectPositions(s[1..], c);
      var rest, ix' := Select(s[1..], c), Positions(s[1..], c);
      var sh := Shift(ix', 1);
      var head: seq<Game> := if Keeps(c, s[0]) then [s[0]] else [];
      var h: seq<int> := if Keeps(c, s[0]) then [0] else [];
      ShiftedSelection(s, c, rest, ix', head, h);
    }
  }

  /** The inductive step of `SelectPositions`: prepending the verdict on
      `s[0]` to a selection of `s[1..]`, one conjunct of `IsSelection` at a
      time. */
  lemma ShiftedSelection(s: seq<Game>, c: Criterion, rest: seq<Game>, ix': seq<int>,
                         head: seq<Game>, h: seq<int>)
    requires s != [] && IsSelection(rest, s[1..], c, ix')
    requires head == (if Keeps(c, s[0]) then [s[0]] else [])
    requires h == (if Keeps(c, s[0]) then [0] else [])
    ensures IsSelection(head + rest, s, c, h + Shift(ix', 1))
  {
    ShiftedIncreasing(s, c, rest, ix', head, h);
    ShiftedPicks(s, c, rest, ix', head, h);
    ShiftedKept(s, c, rest, ix', head, h);
  }

  lemma ShiftedIncreasing(s: seq<Game>, c: Criterion, rest: seq<Game>, ix': seq<int>,
                         head: seq<Game>, h: seq<int>)
    requires s != [] && IsSelection(rest, s[1..], c, ix')
    requires head == (if Keeps(c, s[0]) then [s[0]] else [])
    requires h == (if Keeps(c, s[0]) then [0] else [])
    ensures var ix := h + Shift(ix', 1);
            forall k, l :: 0 <= k < l < |ix| ==> ix[k] < ix[l]
  {
  }

  lemma ShiftedPicks(s: seq<Game>, c: Criterion, rest: seq<Game>, ix': seq<int>,
                         head: seq<Game>, h: seq<int>)
    requires s != [] && IsSelection(rest, s[1..], c, ix')
    requires head == (if Keeps(c, s[0]) then [s[0]] else [])
    requires h == (if Keeps(c, s[0]) then [0] else [])
    ensures var ix := h + Shift(ix', 1);
            |ix| == |head + rest| &&
            forall k :: 0 <= k < |ix| ==> 0 <= ix[k] < |s| && (head + rest)[k] == s[ix[k]]
  {
  }

  lemma ShiftedKept(s: seq<Game>, c: Criterion, rest: seq<Game>, ix': seq<int>,
                         head: seq<Game>, h: seq<int>)
    requires s != [] && IsSelection(rest, s[1..], c, ix')
    requires head == (if Keeps(c, s[0]) then [s[0]] else [])
    requires h == (if Keeps(c, s[0]) then [0] else [])
    ensures forall i :: 0 <= i < |s| ==> (Keeps(c, s[i]) <==> i in h + Shift(ix', 1))
  {
  }

  lemma {:induction false} SelectionUnique(r: seq<Game>, s: seq<Game>, c: Criterion, ix: seq<int>)
    requires IsSelection(r, s, c, ix)
    ensures r == Select(s, c)
    decreases |s|
  {
    if s == [] {
      PositionsBelow(ix, |s|);
    } else if Keeps(c, s[0]) {
      DropKept(r, s, c, ix);
      SelectionUnique(r[1..], s[1..], c, Shift(ix[1..], -1));
      SelectKept(r, s, c);
    } else {
      DropSkipped(r, s, c, ix);
      SelectionUnique(r, s[1..], c, Shift(ix, -1));
      SelectSkipped(r, s, c);
    }
  }

  lemma SelectKept(r: seq<Game>, s: seq<Game>, c: Criterion)
    requires s != [] && Keeps(c, s[0])
    requires r != [] && r[0] == s[0] && r[1..] == Select(s[1..], c)
    ensures r == Select(s, c)
  {
    assert r == [s[0]] + r[1..];
  }

  lemma SelectSkipped(r: seq<Game>, s: seq<Game>, c: Criterion)
    requires s != [] && !Keeps(c, s[0]) && r == Select(s[1..], c)
    ensures r == Select(s, c)
  {
  }

  /** A selection that keeps `s[0]` starts with it; the rest is a selection
      of `s[1..]`. */
  lemma DropKept(r: seq<Game>, s: seq<Game>, c: Criterion, ix: seq<int>)
    requires IsSelection(r, s, c, ix) && s != [] && Keeps(c, s[0])
    ensures r != [] && r[0] == s[0]
    ensures IsSelection(r[1..], s[1..], c, Shift(ix[1..], -1))
  {
    assert 0 in ix;
    ZeroFirst(ix, |s|);
    forall i | 0 < i < |s|
      ensures Keeps(c, s[i]) <==> i in ix[1..]
    {
      assert i in ix <==> i in ix[1..] by {
        assert ix == [ix[0]] + ix[1..];
      }
    }
    UnshiftedSelection(r[1..], s, c, ix[1..]);
  }

  /** A selection that skips `s[0]` is a selection of `s[1..]`. */
  lemma DropSkipped(r: seq<Game>, s: seq<Game>, c: Criterion, ix: seq<int>)
    requires IsSelection(r, s, c, ix) && s != [] && !Keeps(c, s[0])
    ensures IsSelection(r, s[1..], c, Shift(ix, -1))
  {
    assert 0 !in ix;
    forall k | 0 <= k < |ix|
      ensures 0 < ix[k]
    {
      assert ix[k] in ix;
    }
    UnshiftedSelection(r, s, c, ix);
  }

  /** Positions below `n` exist only when `n` is positive. */
  lemma PositionsBelow(ix: seq<int>, n: int)
    requires forall k :: 0 <= k < |ix| ==> 0 <= ix[k] < n
    ensures ix != [] ==> n > 0
  {
    if ix != [] {
      assert 0 <= ix[0] < n;
    }
  }

  /** An increasing sequence of naturals that contains 0 starts with it. */
  lemma ZeroFirst(ix: seq<int>, n: int)
    requires forall k :: 0 <= k < |ix| ==> 0 <= ix[k] < n
    requires forall k, l :: 0 <= k < l < |ix| ==> ix[k] < ix[l]
    requires 0 in ix
    ensures |ix| > 0 && ix[0] == 0
  {
  }

  /** The step back of `SelectionUnique`: positions that skip `s[0]` index
      a selection of `s[1..]` once shifted down. */
  lemma UnshiftedSelection(r: seq<Game>, s: seq<Game>, c: Criterion, ix: seq<int>)
    requires s != [] && |ix| == |r|
    requires forall k :: 0 <= k < |ix| ==> 0 < ix[k] < |s| && r[k] == s[ix[k]]
    requires forall k, l :: 0 <= k < l < |ix| ==> ix[k] < ix[l]
    requires forall i :: 0 < i < |s| ==> (Keeps(c, s[i]) <==> i in ix)
    ensures IsSelection(r, s[1..], c, Shift(ix, -1))
  {
    UnshiftedPicks(r, s, c, ix);
    UnshiftedKept(r, s, c, ix);
  }

  lemma UnshiftedPicks(r: seq<Game>, s: seq<Game>, c: Criterion, ix: seq<int>)
    requires s != [] && |ix| == |r|
    requires forall k :: 0 <= k < |ix| ==> 0 < ix[k] < |s| && r[k] == s[ix[k]]
    requires forall k, l :: 0 <= k < l < |ix| ==> ix[k] < ix[l]
    requires forall i :: 0 < i < |s| ==> (Keeps(c, s[i]) <==> i in ix)
    ensures var ix' := Shift(ix, -1);
            |ix'| == |r|
            && (forall k :: 0 <= k < |ix'| ==> 0 <= ix'[k] < |s| - 1 && r[k] == s[1..][ix'[k]])
            && (forall k, l :: 0 <= k < l < |ix'| ==> ix'[k] < ix'[l])
  {
  }

  lemma UnshiftedKept(r: seq<Game>, s: seq<Game>, c: Criterion, ix: seq<int>)
    requires s != [] && |ix| == |r|
    requires forall k :: 0 <= k < |ix| ==> 0 < ix[k] < |s| && r[k] == s[ix[k]]
    requires forall k, l :: 0 <= k < l < |ix| ==> ix[k] < ix[l]
    requires forall i :: 0 < i < |s| ==> (Keeps(c, s[i]) <==> i in ix)
    ensures forall i :: 0 <= i < |s| - 1 ==> (Keeps(c, s[1..][i]) <==> i in Shift(ix, -1))
  {
    forall i | 0 <= i < |s| - 1
      ensures Keeps(c, s[1..][i]) <==> i in Shift(ix, -1)
    {
      assert s[1..][i] == s[i + 1];
      ShiftIn(ix, -1, i);
    }
  }

  /** `Select` computes the order-preserving subsequence, and nothing else
      is one. */
  lemma SelectExactly(s: seq<Game>, c: Criterion, r: seq<Game>)
    ensures r == Select(s, c) <==> SelectionOf(r, s, c)
  {
    SelectPositions(s, c);
    if SelectionOf(r, s, c) {
      var ix :| IsSelection(r, s, c, ix);
      SelectionUnique(r, s, c, ix);
    }
  }

  /** `games.slice(0, end)`: a negative `end` counts from the back. */
  function Slice<T>(s: seq<T>, end: int): (r: seq<T>)
    ensures r <= s
    ensures end >= 0 ==> |r| == Min(end, |s|)
    ensures end < 0 ==> |r| == Max(|s| + end, 0)
  {
    if end >= 0 then s[..Min(end, |s|)] else s[..Max(|s| + end, 0)]
  }

  // ---------------------------------------------------------------------
  // getGamesByCategory

  function GamesByCategory(games: seq<Game>, category: string): (r: seq<Game>)
    ensures category == "all" ==> r == games
    ensures category != "all" ==>
              forall g :: g in r <==> g in games && g.category == category
  {
    SelectMembers(games, InCategory(category));
    if category == "all" then games else Select(games, InCategory(category))
  }

  /** For a category other than `"all"` the result is exactly the records of
      that category, in catalog order. */
  lemma CategoryInOrder(games: seq<Game>, category: string, r: seq<Game>)
    requires category != "all"
    ensures r == GamesByCategory(games, category) <==> SelectionOf(r, games, InCategory(category))
  {
    SelectExactly(games, InCategory(category), r);
  }

  /** A category no record has yields nothing. */
  lemma AbsentCategory(games: seq<Game>, category: string)
    requires category != "all"
    requires forall g :: g in games ==> g.category != category
    ensures GamesByCategory(games, category) == []
  {
    SelectNone(games, InCategory(category));
  }

  /** A criterion no record satisfies selects nothing. */
  lemma {:induction false} SelectNone(games: seq<Game>, c: Criterion)
    requires forall g :: g in games ==> !Keeps(c, g)
    ensures Select(games, c) == []
    decreases |games|
  {
    if games != [] {
      assert games[0] in games;
      assert forall g :: g in games[1..] ==> g in games;
      SelectNone(games[1..], c);
    }
  }

  // ---------------------------------------------------------------------
  // getGameById

  /** `games.find(g => g.id === id)`. */
  function GameById(games: seq<Game>, id: Id): (r: Option<Game>)
    ensures r.None? <==> forall g :: g in games ==> g.id != id
    ensures r.Some? ==> r.value in games && r.value.id == id
    decreases |games|
  {
    if games == [] then None
    else if games[0].id == id then Some(games[0])
    else
      var r := GameById(games[1..], id);
      assert forall g :: g in games <==> g == games[0] || g in games[1..];
      r
  }

  /** The record found is the first one with that id. */
  lemma {:induction false} GameByIdFirst(games: seq<Game>, id: Id, i: int)
    requires 0 <= i < |games| && games[i].id == id
    requires forall j :: 0 <= j < i ==> games[j].id != id
    ensures GameById(games, id) == Some(games[i])
    decreases i
  {
    if i > 0 {
      GameByIdFirst(games[1..], id, i - 1);
    }
  }

  predicate UniqueIds(games: seq<Game>) {
    forall i, j :: 0 <= i < j < |games| ==> games[i].id != games[j].id
  }

  /** In a catalog with unique ids, looking up a record's id finds it. */
  lemma GameByIdUnique(games: seq<Game>, i: int)
    requires UniqueIds(games) && 0 <= i < |games|
    ensures GameById(games, games[i].id) == Some(games[i])
  {
    GameByIdFirst(games, games[i].id, i);
  }

  // ---------------------------------------------------------------------
  // searchGames

  /** `tags.some(tag => tag.toLowerCase().includes(q))`. */
  predicate SomeContains(tags: seq<string>, q: string)
    ensures SomeContains(tags, q) ==> tags != []
    ensures q == [] ==> (SomeContains(tags, q) <==> tags != [])
    decreases |tags|
  {
    tags != [] && (Contains(Lower(tags[0]), q) || SomeContains(tags[1..], q))
  }

  lemma {:induction false} SomeContainsIff(tags: seq<string>, q: string)
    ensures SomeContains(tags, q) <==> exists tag :: tag in tags && Contains(Lower(tag), q)
    decreases |tags|
  {
    if tags != [] {
      SomeContainsIff(tags[1..], q);
      assert forall tag :: tag in tags <==> tag == tags[0] || tag in tags[1..];
    }
  }

  /** The filter of `searchGames` for an already normalised term `q`. */
  predicate Matches(g: Game, q: string)
    ensures q == [] ==> Matches(g, q)
  {
    || Contains(Lower(g.title), q)
    || Contains(Lower(g.description), q)
    || SomeContains(g.tags, q)
    || Contains(Lower(g.category), q)
  }

  function SearchableFields(g: Game): seq<string> {
    [g.title, g.description] + g.tags + [g.category]
  }

  /** Reference meaning of a match: `q` occurs in the lower-cased form of
      one of the searchable fields. */
  ghost predicate MentionsTerm(g: Game, q: string) {
    exists f, i :: f in SearchableFields(g) && OccursAt(Lower(f), q, i)
  }

  lemma MatchesIffMentions(g: Game, q: string)
    ensures Matches(g, q) <==> MentionsTerm(g, q)
  {
    var fs := SearchableFields(g);
    forall f | f in fs
      ensures Contains(Lower(f), q) <==> exists i :: OccursAt(Lower(f), q, i)
    {
      ContainsIff(Lower(f), q);
    }
    assert forall f :: f in fs <==> f == g.title || f == g.description || f in g.tags || f == g.category;
    SomeContainsIff(g.tags, q);
    if Matches(g, q) {
      if Contains(Lower(g.title), q) {
        assert g.title in fs;
      } else if Contains(Lower(g.description), q) {
        assert g.description in fs;
      } else if Contains(Lower(g.category), q) {
        assert g.category in fs;
      } else {
        var tag :| tag in g.tags && Contains(Lower(tag), q);
        assert tag in fs;
      }
    }
  }

  /** The normalised search term: `term.toLowerCase().trim()`. */
  function SearchKey(term: string): (r: string)
    ensures r == [] <==> AllSpace(term)
    ensures |r| <= |term|
  {
    LowerKeepsSpaces(term);
    TrimSpec(Lower(term));
    assert AllSpace(Lower(term)) <==> AllSpace(term);
    Trim(Lower(term))
  }

  /** `searchGames(term)`; `None` stands for a missing term. */
  function SearchGames(games: seq<Game>, term: Option<string>): (r: seq<Game>)
    ensures term.None? || AllSpace(term.value) ==> r == games
    ensures forall g :: g in r ==> g in games
  {
    if term.None? then games
    else
      TrimSpec(term.value);
      if Trim(term.value) == [] then games
      else
        SelectMembers(games, MatchingTerm(SearchKey(term.value)));
        Select(games, MatchingTerm(SearchKey(term.value)))
  }

  /** For a term that is not blank, the result is exactly the records one of
      whose searchable fields contains the normalised term, in catalog
      order. */
  lemma SearchSpec(games: seq<Game>, term: string)
    requires !AllSpace(term)
    ensures forall g :: g in SearchGames(games, Some(term)) <==>
              g in games && MentionsTerm(g, SearchKey(term))
    ensures SelectionOf(SearchGames(games, Some(term)), games, MatchingTerm(SearchKey(term)))
  {
    TrimSpec(term);
    var r := SearchGames(games, Some(term));
    forall g ensures Matches(g, SearchKey(term)) <==> MentionsTerm(g, SearchKey(term)) {
      MatchesIffMentions(g, SearchKey(term));
    }
    SelectMembers(games, MatchingTerm(SearchKey(term)));
    SelectExactly(games, MatchingTerm(SearchKey(term)), r);
  }

  /** Search ignores letter case and surrounding white space of the term. */
  lemma SearchNormalised(games: seq<Game>, t1: string, t2: string)
    requires Lower(Trim(t1)) == Lower(Trim(t2))
    ensures SearchGames(games, Some(t1)) == SearchGames(games, Some(t2))
  {
    LowerTrimCommute(t1);
    LowerTrimCommute(t2);
    assert |Trim(t1)| == |Lower(Trim(t1))|;
    assert |Trim(t2)| == |Lower(Trim(t2))|;
  }

  // ---------------------------------------------------------------------
  // getRelatedGames

  /** The `limit` of `getRelatedGames` when the caller passes none. */
  const DefaultRelatedLimit := 4

  /** `getRelatedGames(gameId, limit)`. */
  function RelatedGames(games: seq<Game>, gameId: Id, limit: int): (r: seq<Game>)
    ensures GameById(games, gameId).None? ==> r == []
    ensures forall g :: g in r ==> g in games && g.id != gameId
    ensures limit >= 0 ==> |r| <= limit
  {
    match GameById(games, gameId)
    case None => []
    case Some(game) =>
      var all := Select(games, RelatedTo(game.category, gameId));
      var r := Slice(all, limit);
      SelectMembers(games, RelatedTo(game.category, gameId));
      assert forall g :: g in r ==> g in all;
      r
  }

  /** `getRelatedGames(gameId)` with the default limit. */
  function RelatedGamesDefault(games: seq<Game>, gameId: Id): (r: seq<Game>)
    ensures r == RelatedGames(games, gameId, DefaultRelatedLimit)
    ensures |r| <= 4
  {
    RelatedGames(games, gameId, DefaultRelatedLimit)
  }

  /** For a known id: the result never holds the game and shares its
      category; for a non-negative limit it is the first `min(limit, k)` of
      the `k` same-category records with another id, in catalog order. */
  lemma RelatedSpec(games: seq<Game>, gameId: Id, limit: int, game: Game)
    requires GameById(games, gameId) == Some(game)
    ensures game !in RelatedGames(games, gameId, limit)
    ensures forall g :: g in RelatedGames(games, gameId, limit) ==> g.category == game.category
    ensures limit >= 0 ==>
              exists rest :: SelectionOf(RelatedGames(games, gameId, limit) + rest, games,
                                         RelatedTo(game.category, gameId))
                          && (|RelatedGames(games, gameId, limit)| == limit || rest == [])
  {
    var c := RelatedTo(game.category, gameId);
    var all := Select(games, c);
    var r := RelatedGames(games, gameId, limit);
    assert r == Slice(all, limit);
    if limit >= 0 {
      SlicedSelection(games, c, limit);
    }
    SelectMembers(games, c);
    assert forall g :: g in r ==> g in all;
  }

  /** A non-negative slice of a selection is the start of a selection: of
      length `limit` unless the whole selection fits. */
  lemma SlicedSelection(s: seq<Game>, c: Criterion, limit: int)
    requires limit >= 0
    ensures exists rest :: SelectionOf(Slice(Select(s, c), limit) + rest, s, c)
                        && (|Slice(Select(s, c), limit)| == limit || rest == [])
  {
    var all := Select(s, c);
    var r := Slice(all, limit);
    var rest := all[|r|..];
    assert r + rest == all;
    SelectExactly(s, c, all);
  }

  // ---------------------------------------------------------------------
  // getGamesByTag

  /** `games.filter(g => g.tags.includes(tag))`. */
  function GamesByTag(games: seq<Game>, tag: string): (r: seq<Game>)
    ensures forall g :: g in r <==> g in games && tag in g.tags
  {
    SelectMembers(games, WithTag(tag));
    Select(games, WithTag(tag))
  }

  /** The result is exactly the records listing `tag`, in catalog order. */
  lemma TagInOrder(games: seq<Game>, tag: string, r: seq<Game>)
    ensures r == GamesByTag(games, tag) <==> SelectionOf(r, games, WithTag(tag))
  {
    SelectExactly(games, WithTag(tag), r);
  }
}
