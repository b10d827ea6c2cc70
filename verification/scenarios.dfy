/** Concrete inputs that show how the recommender behaves at its edges. */
module Scenarios {
  import Ranking
  import Normalize
  import opened CoPreference

  /** One user who loves two movies; nobody else rates anything. */
  const OneFan: seq<Rating> := [Rating(1, 10, 5.0), Rating(1, 20, 5.0)]

  const TwoMovies: seq<Movie> := [Movie(10, "Heat", "Action|Crime"), Movie(20, "Up", "Animation")]

  lemma OneFanHighRows(movies: set<int>)
    requires 10 in movies && 20 in movies
    ensures HighOn(OneFan, {10}) == [OneFan[0]]
    ensures HighOn(OneFan, movies) == OneFan
    ensures HighBy(OneFan, {1}) == OneFan
  {
    assert OneFan[1..] == [OneFan[1]];
    assert OneFan[1..][1..] == [];
  }

  lemma OneFanCandidates()
    ensures Fans(OneFan, 10) == {1}
    ensures FanRows(OneFan, 10) == OneFan
    ensures Candidates(OneFan, 10) == {10, 20}
  {
    OneFanHighRows({10, 20});
    assert [OneFan[0]][1..] == [];
    assert Fans(OneFan, 10) == {1};
    assert OneFan[1..] == [OneFan[1]];
    assert MovieIds(OneFan) == {10, 20};
    assert Count(OneFan, 10) == 1 && Count(OneFan, 20) == 1;
  }

  lemma OneFanScores()
    ensures ScoreTable(OneFan, 10) == map[10 := 1.0, 20 := 1.0]
  {
    OneFanCandidates();
    OneFanHighRows({10, 20});
    assert BaseRows(OneFan, 10) == OneFan;
    assert OneFan[1..] == [OneFan[1]];
    assert Baseline(OneFan, 10) == {1};
    assert FanCount(OneFan, 10, 10) == 1 && AllCount(OneFan, 10, 10) == 1;
    assert FanCount(OneFan, 10, 20) == 1 && AllCount(OneFan, 10, 20) == 1;
  }

  lemma HeatGenres()
    ensures Normalize.CleanGenres("Action|Crime") == "Action, Crime"
  {
    var a, b := "Action", "Crime";
    assert a + "|" + b == "Action|Crime";
    assert a + ", " + b == "Action, Crime";
    assert '|' !in a && '|' !in b;
    Normalize.CleanGenresReplacesPipes(a + "|" + b);
    ReplaceAfterPrefix(a, b, '|', ", ");
    Normalize.ReplaceWithoutSep(b, '|', ", ");
  }

  lemma HeatRow()
    ensures Describe(TwoMovies[0], 1.0) == Row(1.0, "Heat", "Action, Crime")
  {
    HeatGenres();
  }

  /** The merge finds only the first of two catalog movies. */
  lemma MatchesFirstOfTwo(catalog: seq<Movie>, id: int, score: real)
    requires |catalog| == 2 && catalog[0].movieId == id && catalog[1].movieId != id
    ensures Matches(catalog, id, score) == [Describe(catalog[0], score)]
  {
    var rest := catalog[1..];
    assert rest[0] == catalog[1] && rest[1..] == [];
    assert Matches(rest, id, score) == [];
  }

  lemma HeatRows()
    ensures Matches(TwoMovies, 10, 1.0) == [Row(1.0, "Heat", "Action, Crime")]
  {
    HeatRow();
    MatchesFirstOfTwo(TwoMovies, 10, 1.0);
  }

  /** Replacement runs through a separator-free prefix unchanged. */
  lemma {:induction false} ReplaceAfterPrefix(a: string, b: string, sep: char, glue: string)
    requires sep !in a
    ensures Normalize.Replace(a + [sep] + b, sep, glue) == a + glue + Normalize.Replace(b, sep, glue)
  {
    var s := a + [sep] + b;
    if |a| == 0 {
      assert s == [sep] + b;
      assert s[1..] == b;
    } else {
      ReplaceAfterPrefix(a[1..], b, sep, glue);
      assert s[0] == a[0] && s[1..] == a[1..] + [sep] + b;
      assert a == [a[0]] + a[1..];
    }
  }

  lemma TiedRanking()
    ensures Ranking.IsRanking(map[10 := 1.0, 20 := 1.0], [20, 10])
  {
  }

  lemma MergeOne(scores: map<int, real>, catalog: seq<Movie>, id: int)
    requires id in scores
    ensures Merge([id], scores, catalog) == Matches(catalog, id, scores[id])
  {
    assert [id][1..] == [];
  }

  /** Both movies score 1, so the sort may put the other movie first, and
      the positional drop then returns the anchor as its own recommendation. */
  lemma AnchorCanBeRecommended()
    ensures Ranking.IsRanking(ScoreTable(OneFan, 10), [20, 10])
    ensures Recommend(OneFan, TwoMovies, 10, [20, 10]) == [Row(1.0, "Heat", "Action, Crime")]
  {
    OneFanScores();
    TiedRanking();
    var scores := ScoreTable(OneFan, 10);
    assert Window([20, 10]) == [10];
    assert Recommend(OneFan, TwoMovies, 10, [20, 10]) == Merge([10], scores, TwoMovies);
    MergeOne(scores, TwoMovies, 10);
    HeatRows();
  }
}
