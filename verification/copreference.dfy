/** The co-preference recommender behind the `/recommend` endpoint.

    Given an anchor movie, the fans are the users who rated it above 4. Every
    movie the fans rated above 4 is counted (one per rating row); the movies
    whose count exceeds a tenth of the number of fans become candidates. The
    baseline is every user with a rating above 4 for any candidate, and each
    candidate's count among those rows, divided by the size of the baseline,
    is its general popularity. A candidate's score is its fan ratio over its
    general popularity. Candidates are sorted by score, the first row is
    dropped, the next ten are kept and joined with the catalog. */
module CoPreference {
  import Normalize
  import Ranking

  /** One row of the ratings table; the timestamp column is never read. */
  datatype Rating = Rating(userId: int, movieId: int, rating: real)

  /** One row of the movie catalog as loaded: the genre field is still pipe-delimited. */
  datatype Movie = Movie(movieId: int, title: string, genres: string)

  /** One record of the endpoint's answer. */
  datatype Row = Row(score: real, title: string, genres: string)

  /** A rating counts as high when it is strictly above 4. */
  const HighRating: real := 4.0

  predicate IsHigh(r: Rating) {
    r.rating > HighRating
  }

  // ---------------------------------------------------------------------------
  // Table operations

  /** The rows rated high by one of `users`, in table order. */
  function HighBy(rows: seq<Rating>, users: set<int>): (r: seq<Rating>)
    ensures |r| <= |rows|
    ensures forall x :: x in r <==> x in rows && x.userId in users && IsHigh(x)
  {
    if |rows| == 0 then []
    else if rows[0].userId in users && IsHigh(rows[0]) then [rows[0]] + HighBy(rows[1..], users)
    else HighBy(rows[1..], users)
  }

  /** The rows rated high for one of `movies`, in table order. */
  function HighOn(rows: seq<Rating>, movies: set<int>): (r: seq<Rating>)
    ensures |r| <= |rows|
    ensures forall x :: x in r <==> x in rows && x.movieId in movies && IsHigh(x)
  {
    if |rows| == 0 then []
    else if rows[0].movieId in movies && IsHigh(rows[0]) then [rows[0]] + HighOn(rows[1..], movies)
    else HighOn(rows[1..], movies)
  }

  /** The distinct user ids of `rows` (`.unique()` on the userId column). */
  function Users(rows: seq<Rating>): (us: set<int>)
    ensures |us| <= |rows|
    ensures forall x :: x in rows ==> x.userId in us
  {
    if |rows| == 0 then {}
    else
      var rest := Users(rows[1..]);
      assert |{rows[0].userId} + rest| <= 1 + |rest|;
      {rows[0].userId} + rest
  }

  /** The distinct movie ids of `rows`. */
  function MovieIds(rows: seq<Rating>): (ms: set<int>)
    ensures forall x :: x in rows ==> x.movieId in ms
  {
    if |rows| == 0 then {}
    else {rows[0].movieId} + MovieIds(rows[1..])
  }

  /** A row behind each distinct user id. */
  lemma {:induction false} UserRow(rows: seq<Rating>, u: int) returns (x: Rating)
    requires u in Users(rows)
    ensures x in rows && x.userId == u
  {
    if rows[0].userId == u {
      x := rows[0];
    } else {
      x := UserRow(rows[1..], u);
    }
  }

  /** A row behind each distinct movie id. */
  lemma {:induction false} MovieRow(rows: seq<Rating>, m: int) returns (x: Rating)
    requires m in MovieIds(rows)
    ensures x in rows && x.movieId == m
  {
    if rows[0].movieId == m {
      x := rows[0];
    } else {
      x := MovieRow(rows[1..], m);
    }
  }

  /** How many rows are about movie `m` (`value_counts()` on the movieId column). */
  function Count(rows: seq<Rating>, m: int): nat
  {
    if |rows| == 0 then 0
    else (if rows[0].movieId == m then 1 else 0) + Count(rows[1..], m)
  }

  /** How many rows rate movie `m` high. */
  function HighCount(rows: seq<Rating>, m: int): nat
  {
    if |rows| == 0 then 0
    else (if rows[0].movieId == m && IsHigh(rows[0]) then 1 else 0) + HighCount(rows[1..], m)
  }

  // ---------------------------------------------------------------------------
  // The pipeline

  /** The fans: distinct users with a high rating for the anchor. */
  function Fans(ratings: seq<Rating>, anchor: int): set<int>
  {
    Users(HighOn(ratings, {anchor}))
  }

  /** The high ratings given by fans, to any movie. */
  function FanRows(ratings: seq<Rating>, anchor: int): seq<Rating>
  {
    HighBy(ratings, Fans(ratings, anchor))
  }

  /** How many of the fans' high ratings are for `m`. */
  function FanCount(ratings: seq<Rating>, anchor: int, m: int): nat
  {
    Count(FanRows(ratings, anchor), m)
  }

  /** The movies among the fans' high ratings whose share is above the 0.1
      floor; `count / |fans| > 0.1` is compared exactly as `10 * count > |fans|`. */
  function Candidates(ratings: seq<Rating>, anchor: int): set<int>
  {
    var rows := FanRows(ratings, anchor);
    set m | m in MovieIds(rows) && 10 * Count(rows, m) > |Fans(ratings, anchor)|
  }

  /** Every high rating, by anyone, of a candidate. */
  function BaseRows(ratings: seq<Rating>, anchor: int): seq<Rating>
  {
    HighOn(ratings, Candidates(ratings, anchor))
  }

  /** The baseline population: distinct users among the candidates' high ratings. */
  function Baseline(ratings: seq<Rating>, anchor: int): set<int>
  {
    Users(BaseRows(ratings, anchor))
  }

  /** How many of the candidates' high ratings are for `m`. */
  function AllCount(ratings: seq<Rating>, anchor: int, m: int): nat
  {
    Count(BaseRows(ratings, anchor), m)
  }

  /** `n / d` as an exact fraction. */
  function Ratio(n: nat, d: nat): (q: real)
    requires d > 0
    ensures n > 0 ==> q > 0.0
  {
    n as real / d as real
  }

  /** The lift of a candidate: its share among the fans' high ratings over
      its share among the baseline's. Both denominators are non-zero and the
      result is positive for every candidate. */
  function Score(ratings: seq<Rating>, anchor: int, m: int): (s: real)
    requires m in Candidates(ratings, anchor)
    ensures s > 0.0
  {
    ScoreDefined(ratings, anchor, m);
    var simRatio := Ratio(FanCount(ratings, anchor, m), |Fans(ratings, anchor)|);
    var allRatio := Ratio(AllCount(ratings, anchor, m), |Baseline(ratings, anchor)|);
    simRatio / allRatio
  }

  /** The score column, indexed by candidate id. */
  function ScoreTable(ratings: seq<Rating>, anchor: int): (t: map<int, real>)
    ensures t.Keys == Candidates(ratings, anchor)
    ensures forall m :: m in t ==> t[m] > 0.0
  {
    map m | m in Candidates(ratings, anchor) :: Score(ratings, anchor, m)
  }

  /** Rows 1 to 10 of the ranking (`iloc[1:11]`): the top row is always dropped. */
  function Window(ranked: seq<int>): (w: seq<int>)
    ensures |w| <= 10
    ensures |ranked| > 0 ==> |w| == if |ranked| - 1 < 10 then |ranked| - 1 else 10
    ensures forall i :: 0 <= i < |w| ==> i + 1 < |ranked| && w[i] == ranked[i + 1]
  {
    if |ranked| <= 1 then [] else ranked[1..if |ranked| < 11 then |ranked| else 11]
  }

  /** The answer record for one catalog movie; genres are shown as clean_genres leaves them. */
  function Describe(movie: Movie, score: real): Row
  {
    Row(score, movie.title, Normalize.CleanGenres(movie.genres))
  }

  /** The inner merge for one id: a record per catalog movie with that id, in catalog order. */
  function Matches(catalog: seq<Movie>, id: int, score: real): seq<Row>
  {
    if |catalog| == 0 then []
    else (if catalog[0].movieId == id then [Describe(catalog[0], score)] else [])
         + Matches(catalog[1..], id, score)
  }

  /** The inner merge of ranked ids with the catalog, in the order of the ids. */
  function Merge(ids: seq<int>, scores: map<int, real>, catalog: seq<Movie>): seq<Row>
    requires forall i :: 0 <= i < |ids| ==> ids[i] in scores
  {
    if |ids| == 0 then []
    else Matches(catalog, ids[0], scores[ids[0]]) + Merge(ids[1..], scores, catalog)
  }

  /** The ids the catalog lists. */
  function CatalogIds(catalog: seq<Movie>): set<int>
  {
    set i | 0 <= i < |catalog| :: catalog[i].movieId
  }

  /** The catalog lists each id at most once. */
  predicate UniqueIds(catalog: seq<Movie>) {
    forall i, j :: 0 <= i < j < |catalog| ==> catalog[i].movieId != catalog[j].movieId
  }

  /** The `/recommend` answer for `anchor`, where `ranked` is the order the
      sort produced (any order by non-increasing score). With no fans there is
      nothing to rank and the answer is empty rather than an error; with a
      catalog that lists each id once, the answer has at most ten records. */
  function Recommend(ratings: seq<Rating>, catalog: seq<Movie>, anchor: int, ranked: seq<int>): (rows: seq<Row>)
    requires Ranking.IsRanking(ScoreTable(ratings, anchor), ranked)
    ensures Fans(ratings, anchor) == {} ==> rows == []
    ensures UniqueIds(catalog) ==> |rows| <= 10
  {
    var scores := ScoreTable(ratings, anchor);
    var rows := Merge(Window(ranked), scores, catalog);
    if Fans(ratings, anchor) == {} then
      NoFansNoCandidates(ratings, anchor);
      Ranking.EmptyRanking(scores, ranked);
      rows
    else if UniqueIds(catalog) then
      MergeUnique(Window(ranked), scores, catalog);
      rows
    else
      rows
  }

  // ---------------------------------------------------------------------------
  // Counting facts

  lemma {:induction false} CountPositiveIffPresent(rows: seq<Rating>, m: int)
    ensures Count(rows, m) > 0 <==> m in MovieIds(rows)
  {
    if |rows| > 0 {
      CountPositiveIffPresent(rows[1..], m);
      assert rows[0] in rows;
      if rows[0].movieId != m && m in MovieIds(rows) {
        assert m in MovieIds(rows[1..]);
      }
    }
  }

  /** Restricting the high ratings to a set of movies keeps every high rating
      of a movie in that set. */
  lemma {:induction false} CountHighOn(rows: seq<Rating>, movies: set<int>, m: int)
    requires m in movies
    ensures Count(HighOn(rows, movies), m) == HighCount(rows, m)
  {
    if |rows| > 0 {
      CountHighOn(rows[1..], movies, m);
    }
  }

  /** The high ratings of a set of users never outnumber all high ratings of a
      movie, and match them when every high rater of the movie is in the set. */
  lemma {:induction false} CountHighBy(rows: seq<Rating>, users: set<int>, m: int)
    ensures Count(HighBy(rows, users), m) <= HighCount(rows, m)
    ensures (forall x :: x in rows && x.movieId == m && IsHigh(x) ==> x.userId in users)
            ==> Count(HighBy(rows, users), m) == HighCount(rows, m)
  {
    if |rows| > 0 {
      assert forall x :: x in rows[1..] ==> x in rows;
      CountHighBy(rows[1..], users, m);
    }
  }

  lemma {:induction false} CountOfOneMovie(rows: seq<Rating>, m: int)
    requires forall i :: 0 <= i < |rows| ==> rows[i].movieId == m
    ensures Count(rows, m) == |rows|
  {
    if |rows| > 0 {
      CountOfOneMovie(rows[1..], m);
    }
  }

  /** Every high rating of the anchor is a fan's, so the fans' count for the
      anchor is all of its high ratings, which is at least the number of fans. */
  lemma AnchorFanCount(ratings: seq<Rating>, anchor: int)
    ensures FanCount(ratings, anchor, anchor) == HighCount(ratings, anchor)
    ensures FanCount(ratings, anchor, anchor) >= |Fans(ratings, anchor)|
  {
    var anchorRows := HighOn(ratings, {anchor});
    CountHighBy(ratings, Fans(ratings, anchor), anchor);
    CountHighOn(ratings, {anchor}, anchor);
    assert forall i :: 0 <= i < |anchorRows| ==> anchorRows[i] in anchorRows;
    CountOfOneMovie(anchorRows, anchor);
  }

  // ---------------------------------------------------------------------------
  // Properties of the pipeline

  /** A movie is a candidate exactly when more than a tenth of the fan count
      is its count among the fans' high ratings. */
  lemma CandidatesExact(ratings: seq<Rating>, anchor: int, m: int)
    ensures m in Candidates(ratings, anchor) <==> 10 * FanCount(ratings, anchor, m) > |Fans(ratings, anchor)|
  {
    CountPositiveIffPresent(FanRows(ratings, anchor), m);
  }

  /** With no fans the fans' high ratings are empty, so nothing is a
      candidate and the score table is empty. */
  lemma NoFansNoCandidates(ratings: seq<Rating>, anchor: int)
    requires Fans(ratings, anchor) == {}
    ensures Candidates(ratings, anchor) == {}
    ensures ScoreTable(ratings, anchor) == map[]
  {
    var rows := FanRows(ratings, anchor);
    assert rows == [] || rows[0].userId in Fans(ratings, anchor);
  }

  /** The fans are exactly the users with a rating above 4 for the anchor. */
  lemma FansExact(ratings: seq<Rating>, anchor: int, u: int)
    ensures u in Fans(ratings, anchor)
            <==> exists x :: x in ratings && x.movieId == anchor && IsHigh(x) && x.userId == u
  {
    if u in Fans(ratings, anchor) {
      var x := UserRow(HighOn(ratings, {anchor}), u);
      assert x in ratings && x.movieId == anchor && IsHigh(x);
    }
  }

  /** The baseline is exactly the users with a rating above 4 for some candidate. */
  lemma BaselineExact(ratings: seq<Rating>, anchor: int, u: int)
    ensures u in Baseline(ratings, anchor)
            <==> exists x :: x in ratings && x.movieId in Candidates(ratings, anchor) && IsHigh(x) && x.userId == u
  {
    if u in Baseline(ratings, anchor) {
      var x := UserRow(BaseRows(ratings, anchor), u);
      assert x in ratings && x.movieId in Candidates(ratings, anchor) && IsHigh(x);
    }
  }

  /** Once someone is a fan, the anchor is a candidate. */
  lemma AnchorIsCandidate(ratings: seq<Rating>, anchor: int)
    requires Fans(ratings, anchor) != {}
    ensures anchor in Candidates(ratings, anchor)
  {
    AnchorFanCount(ratings, anchor);
    CandidatesExact(ratings, anchor, anchor);
  }

  /** Only a movie some fan rated high can be a candidate, so a candidate
      means there are fans. */
  lemma CandidateHasFans(ratings: seq<Rating>, anchor: int, m: int)
    requires m in Candidates(ratings, anchor)
    ensures Fans(ratings, anchor) != {}
  {
    var rows := FanRows(ratings, anchor);
    var x := MovieRow(rows, m);
    assert x.userId in Fans(ratings, anchor);
  }

  /** Every fan rated the anchor high, and the anchor is a candidate, so
      every fan is in the baseline. */
  lemma FansInBaseline(ratings: seq<Rating>, anchor: int)
    requires anchor in Candidates(ratings, anchor)
    ensures Fans(ratings, anchor) <= Baseline(ratings, anchor)
    ensures |Fans(ratings, anchor)| <= |Baseline(ratings, anchor)|
  {
    var fans := Fans(ratings, anchor);
    var base := Baseline(ratings, anchor);
    forall u | u in fans ensures u in base {
      var x := UserRow(HighOn(ratings, {anchor}), u);
      assert x in BaseRows(ratings, anchor);
    }
    SubsetCard(fans, base);
  }

  /** A candidate's count among everyone is all its high ratings, and its
      count among the fans is at most that. */
  lemma CandidateCountsOrdered(ratings: seq<Rating>, anchor: int, m: int)
    requires m in Candidates(ratings, anchor)
    ensures FanCount(ratings, anchor, m) <= AllCount(ratings, anchor, m)
    ensures AllCount(ratings, anchor, m) == HighCount(ratings, m)
  {
    CountHighBy(ratings, Fans(ratings, anchor), m);
    CountHighOn(ratings, Candidates(ratings, anchor), m);
  }

  /** For a candidate: there are fans, every fan belongs to the baseline, and
      the candidate's count among everyone is at least its count among the
      fans, which is positive. */
  lemma CandidateCounts(ratings: seq<Rating>, anchor: int, m: int)
    requires m in Candidates(ratings, anchor)
    ensures Fans(ratings, anchor) != {}
    ensures Fans(ratings, anchor) <= Baseline(ratings, anchor)
    ensures |Baseline(ratings, anchor)| >= |Fans(ratings, anchor)| > 0
    ensures 0 < FanCount(ratings, anchor, m) <= AllCount(ratings, anchor, m)
    ensures AllCount(ratings, anchor, m) == HighCount(ratings, m)
  {
    CandidateHasFans(ratings, anchor, m);
    AnchorIsCandidate(ratings, anchor);
    FansInBaseline(ratings, anchor);
    CandidatesExact(ratings, anchor, m);
    CandidateCountsOrdered(ratings, anchor, m);
  }

  lemma SubsetCard(a: set<int>, b: set<int>)
    requires a <= b
    ensures |a| <= |b|
  {
    assert b == a + (b - a);
  }

  /** What the score's two divisions need. */
  lemma ScoreDefined(ratings: seq<Rating>, anchor: int, m: int)
    requires m in Candidates(ratings, anchor)
    ensures |Fans(ratings, anchor)| > 0 && |Baseline(ratings, anchor)| > 0
    ensures FanCount(ratings, anchor, m) > 0 && AllCount(ratings, anchor, m) > 0
  {
    CandidateCounts(ratings, anchor, m);
  }

  /** The anchor's score is the baseline size over the fan count; no
      candidate scores higher, and a candidate ties with the anchor exactly
      when all its high ratings come from fans. */
  lemma AnchorScoreIsMaximal(ratings: seq<Rating>, anchor: int, m: int)
    requires m in Candidates(ratings, anchor)
    ensures anchor in Candidates(ratings, anchor)
    ensures Score(ratings, anchor, anchor) == |Baseline(ratings, anchor)| as real / |Fans(ratings, anchor)| as real
    ensures Score(ratings, anchor, m) <= Score(ratings, anchor, anchor)
    ensures Score(ratings, anchor, m) == Score(ratings, anchor, anchor)
            <==> FanCount(ratings, anchor, m) == AllCount(ratings, anchor, m)
  {
    CandidateCounts(ratings, anchor, m);
    AnchorIsCandidate(ratings, anchor);
    CandidateCounts(ratings, anchor, anchor);
    AnchorFanCount(ratings, anchor);
    var fans := |Fans(ratings, anchor)| as real;
    var base := |Baseline(ratings, anchor)| as real;
    var f := FanCount(ratings, anchor, m) as real;
    var a := AllCount(ratings, anchor, m) as real;
    var a0 := AllCount(ratings, anchor, anchor) as real;
    assert FanCount(ratings, anchor, anchor) == AllCount(ratings, anchor, anchor);
    Lift(f, a, fans, base);
    Lift(a0, a0, fans, base);
  }

  /** The score as a lift: the share of the candidate's high ratings that
      come from fans, scaled by how much larger the baseline is than the fans. */
  lemma ScoreIsLift(ratings: seq<Rating>, anchor: int, m: int)
    requires m in Candidates(ratings, anchor)
    ensures var f, a := FanCount(ratings, anchor, m) as real, AllCount(ratings, anchor, m) as real;
            var n, b := |Fans(ratings, anchor)| as real, |Baseline(ratings, anchor)| as real;
            a > 0.0 && n > 0.0 && Score(ratings, anchor, m) == (f / a) * (b / n)
  {
    ScoreDefined(ratings, anchor, m);
    CandidateCountsOrdered(ratings, anchor, m);
    var f, a := FanCount(ratings, anchor, m) as real, AllCount(ratings, anchor, m) as real;
    var n, b := |Fans(ratings, anchor)| as real, |Baseline(ratings, anchor)| as real;
    assert Score(ratings, anchor, m) == (f / n) / (a / b);
    Lift(f, a, n, b);
  }

  /** `(f / n) / (a / b)` for `0 < f <= a`, `n, b > 0` is at most `b / n`,
      with equality exactly when `f == a`. */
  lemma Lift(f: real, a: real, n: real, b: real)
    requires 0.0 < f <= a && n > 0.0 && b > 0.0
    ensures (f / n) / (a / b) == (f / a) * (b / n)
    ensures (f / n) / (a / b) <= b / n
    ensures (f / n) / (a / b) == b / n <==> f == a
  {
    var q := f / a;
    assert q <= 1.0;
    assert (f / n) / (a / b) == q * (b / n);
    assert q * (b / n) == b / n ==> q == 1.0;
  }

  // ---------------------------------------------------------------------------
  // The merge with the catalog

  /** The ids among `ids` that the catalog lists, in the same order. */
  function Listed(ids: seq<int>, catalog: seq<Movie>): (r: seq<int>)
    ensures |r| <= |ids|
    ensures forall x :: x in r <==> x in ids && x in CatalogIds(catalog)
  {
    if |ids| == 0 then []
    else (if ids[0] in CatalogIds(catalog) then [ids[0]] else []) + Listed(ids[1..], catalog)
  }

  /** Dropping unlisted ids works piece by piece, so the ids that remain keep
      their relative order. */
  lemma {:induction false} ListedAppend(xs: seq<int>, ys: seq<int>, catalog: seq<Movie>)
    ensures Listed(xs + ys, catalog) == Listed(xs, catalog) + Listed(ys, catalog)
  {
    if |xs| == 0 {
      assert xs + ys == ys;
    } else {
      assert (xs + ys)[0] == xs[0];
      assert (xs + ys)[1..] == xs[1..] + ys;
      ListedAppend(xs[1..], ys, catalog);
    }
  }

  /** The position of the first catalog movie with id `id`. */
  function IndexOf(catalog: seq<Movie>, id: int): (i: nat)
    requires id in CatalogIds(catalog)
    ensures i < |catalog| && catalog[i].movieId == id
  {
    if catalog[0].movieId == id then 0
    else
      assert id in CatalogIds(catalog[1..]) by {
        var j :| 0 <= j < |catalog| && catalog[j].movieId == id;
        assert catalog[1..][j - 1] == catalog[j];
      }
      1 + IndexOf(catalog[1..], id)
  }

  /** One record per listed id, describing the catalog movie with that id. */
  function DescribeAll(ids: seq<int>, scores: map<int, real>, catalog: seq<Movie>): (rows: seq<Row>)
    requires forall x :: x in ids ==> x in scores && x in CatalogIds(catalog)
    ensures |rows| == |ids|
    ensures forall k :: 0 <= k < |ids| ==>
              rows[k] == Describe(catalog[IndexOf(catalog, ids[k])], scores[ids[k]])
  {
    if |ids| == 0 then []
    else [Describe(catalog[IndexOf(catalog, ids[0])], scores[ids[0]])] + DescribeAll(ids[1..], scores, catalog)
  }

  lemma {:induction false} MatchesUnique(catalog: seq<Movie>, id: int, score: real)
    requires UniqueIds(catalog)
    ensures Matches(catalog, id, score)
            == if id in CatalogIds(catalog) then [Describe(catalog[IndexOf(catalog, id)], score)] else []
  {
    if |catalog| > 0 {
      var rest := catalog[1..];
      assert UniqueIds(rest) by {
        forall i, j | 0 <= i < j < |rest| ensures rest[i].movieId != rest[j].movieId {
          assert rest[i] == catalog[i + 1] && rest[j] == catalog[j + 1];
        }
      }
      MatchesUnique(rest, id, score);
      if catalog[0].movieId == id {
        forall j | 0 <= j < |rest| ensures rest[j].movieId != id {
          assert rest[j] == catalog[j + 1];
        }
        assert id !in CatalogIds(rest);
      } else {
        assert id in CatalogIds(catalog) <==> id in CatalogIds(rest) by {
          if id in CatalogIds(catalog) {
            var j :| 0 <= j < |catalog| && catalog[j].movieId == id;
            assert rest[j - 1] == catalog[j];
          }
          if id in CatalogIds(rest) {
            var j :| 0 <= j < |rest| && rest[j].movieId == id;
            assert catalog[j + 1] == rest[j];
          }
        }
      }
    }
  }

  /** With unique catalog ids the merge yields one record per listed id, in order. */
  lemma {:induction false} MergeUnique(ids: seq<int>, scores: map<int, real>, catalog: seq<Movie>)
    requires UniqueIds(catalog)
    requires forall i :: 0 <= i < |ids| ==> ids[i] in scores
    ensures Merge(ids, scores, catalog) == DescribeAll(Listed(ids, catalog), scores, catalog)
  {
    if |ids| > 0 {
      MergeUnique(ids[1..], scores, catalog);
      MatchesUnique(catalog, ids[0], scores[ids[0]]);
      var listed := Listed(ids[1..], catalog);
      if ids[0] in CatalogIds(catalog) {
        assert Listed(ids, catalog) == [ids[0]] + listed;
        assert ([ids[0]] + listed)[1..] == listed;
      } else {
        assert Listed(ids, catalog) == listed;
      }
    }
  }

  /** A sub-list of a descending list, taken in order, is descending. */
  lemma {:induction false} ListedDescending(ids: seq<int>, scores: map<int, real>, catalog: seq<Movie>)
    requires Ranking.Descending(scores, ids)
    ensures Ranking.Descending(scores, Listed(ids, catalog))
  {
    if |ids| > 0 {
      var rest := ids[1..];
      assert Ranking.Descending(scores, rest) by {
        forall i, j | 0 <= i < j < |rest| ensures scores[rest[i]] >= scores[rest[j]] {
          assert rest[i] == ids[i + 1] && rest[j] == ids[j + 1];
        }
      }
      ListedDescending(rest, scores, catalog);
      var tail := Listed(rest, catalog);
      forall i | 0 <= i < |tail| ensures scores[ids[0]] >= scores[tail[i]] {
        assert tail[i] in rest;
        var j :| 0 <= j < |rest| && rest[j] == tail[i];
        assert ids[j + 1] == tail[i];
      }
    }
  }

  /** Every record the merge finds for one id carries that id's score. */
  lemma {:induction false} MatchesScore(catalog: seq<Movie>, id: int, score: real)
    ensures forall k :: 0 <= k < |Matches(catalog, id, score)| ==> Matches(catalog, id, score)[k].score == score
  {
    if |catalog| > 0 {
      MatchesScore(catalog[1..], id, score);
    }
  }

  /** Each merged record comes from one of the ids and carries its score,
      however many catalog copies that id has. */
  lemma {:induction false} MergeRowSource(ids: seq<int>, scores: map<int, real>, catalog: seq<Movie>, k: nat)
    returns (i: nat)
    requires forall j :: 0 <= j < |ids| ==> ids[j] in scores
    requires k < |Merge(ids, scores, catalog)|
    ensures i < |ids| && Merge(ids, scores, catalog)[k].score == scores[ids[i]]
  {
    var head := Matches(catalog, ids[0], scores[ids[0]]);
    MatchesScore(catalog, ids[0], scores[ids[0]]);
    if k < |head| {
      i := 0;
    } else {
      var j := MergeRowSource(ids[1..], scores, catalog, k - |head|);
      i := j + 1;
    }
  }

  /** The merge of a descending list of ids is descending by score, even when
      the catalog repeats an id. */
  lemma {:induction false} MergeDescending(ids: seq<int>, scores: map<int, real>, catalog: seq<Movie>)
    requires Ranking.Descending(scores, ids)
    ensures var rows := Merge(ids, scores, catalog);
            forall a, b :: 0 <= a < b < |rows| ==> rows[a].score >= rows[b].score
  {
    if |ids| > 0 {
      var rest := ids[1..];
      assert Ranking.Descending(scores, rest) by {
        forall i, j | 0 <= i < j < |rest| ensures scores[rest[i]] >= scores[rest[j]] {
          assert rest[i] == ids[i + 1] && rest[j] == ids[j + 1];
        }
      }
      MergeDescending(rest, scores, catalog);
      var head := Matches(catalog, ids[0], scores[ids[0]]);
      var tail := Merge(rest, scores, catalog);
      MatchesScore(catalog, ids[0], scores[ids[0]]);
      forall b | 0 <= b < |tail| ensures scores[ids[0]] >= tail[b].score {
        var j := MergeRowSource(rest, scores, catalog, b);
        assert rest[j] == ids[j + 1];
      }
      var rows := head + tail;
      forall a, b | 0 <= a < b < |rows| ensures rows[a].score >= rows[b].score {
        if b < |head| {
          assert rows[a] == head[a] && rows[b] == head[b];
        } else if a < |head| {
          assert rows[a] == head[a] && rows[b] == tail[b - |head|];
        } else {
          assert rows[a] == tail[a - |head|] && rows[b] == tail[b - |head|];
        }
      }
    }
  }

  // ---------------------------------------------------------------------------
  // The answer

  /** The ids whose records make up the answer, in answer order. */
  function RecommendedIds(catalog: seq<Movie>, ranked: seq<int>): seq<int>
  {
    Listed(Window(ranked), catalog)
  }

  /** The answer's ids are the catalog-listed ids among ranking positions 1
      to 10, so there are at most ten and the top-ranked id is never one of them. */
  lemma RecommendedIdsShape(catalog: seq<Movie>, ranked: seq<int>)
    requires Ranking.Distinct(ranked)
    ensures |RecommendedIds(catalog, ranked)| <= 10
    ensures forall x :: x in RecommendedIds(catalog, ranked) <==> x in Window(ranked) && x in CatalogIds(catalog)
    ensures |ranked| > 0 ==> ranked[0] !in RecommendedIds(catalog, ranked)
  {
    var window := Window(ranked);
    forall i | 0 <= i < |window| ensures window[i] != ranked[0] {
      assert window[i] == ranked[i + 1];
    }
  }

  /** The window of a ranking is itself descending by score. */
  lemma WindowDescending(scores: map<int, real>, ranked: seq<int>)
    requires Ranking.Descending(scores, ranked)
    ensures Ranking.Descending(scores, Window(ranked))
  {
    var window := Window(ranked);
    forall i, j | 0 <= i < j < |window| ensures scores[window[i]] >= scores[window[j]] {
      assert window[i] == ranked[i + 1] && window[j] == ranked[j + 1];
    }
  }

  /** With a catalog that lists each id once, the answer holds one record per
      answer id, in order, describing the catalog movie with that id: its
      title, its cleaned genres and the id's score. */
  lemma RecommendRows(ratings: seq<Rating>, catalog: seq<Movie>, anchor: int, ranked: seq<int>)
    requires UniqueIds(catalog)
    requires Ranking.IsRanking(ScoreTable(ratings, anchor), ranked)
    ensures |Recommend(ratings, catalog, anchor, ranked)| == |RecommendedIds(catalog, ranked)|
    ensures forall k :: 0 <= k < |RecommendedIds(catalog, ranked)| ==>
              var id := RecommendedIds(catalog, ranked)[k];
              && id in ScoreTable(ratings, anchor)
              && id in CatalogIds(catalog)
              && Recommend(ratings, catalog, anchor, ranked)[k]
                 == Describe(catalog[IndexOf(catalog, id)], ScoreTable(ratings, anchor)[id])
  {
    var scores := ScoreTable(ratings, anchor);
    var window := Window(ranked);
    var ids := RecommendedIds(catalog, ranked);
    assert forall i :: 0 <= i < |window| ==> window[i] in scores;
    forall k | 0 <= k < |ids| ensures ids[k] in scores && ids[k] in CatalogIds(catalog) {
      assert ids[k] in ids;
      var i :| 0 <= i < |window| && window[i] == ids[k];
    }
    MergeUnique(window, scores, catalog);
    assert Recommend(ratings, catalog, anchor, ranked) == DescribeAll(ids, scores, catalog);
  }

  /** Scores never increase down the answer. */
  lemma RecommendScoresOrdered(ratings: seq<Rating>, catalog: seq<Movie>, anchor: int, ranked: seq<int>)
    requires Ranking.IsRanking(ScoreTable(ratings, anchor), ranked)
    ensures var rows := Recommend(ratings, catalog, anchor, ranked);
            forall i, j :: 0 <= i < j < |rows| ==> rows[i].score >= rows[j].score
  {
    var scores := ScoreTable(ratings, anchor);
    WindowDescending(scores, ranked);
    MergeDescending(Window(ranked), scores, catalog);
    assert Recommend(ratings, catalog, anchor, ranked) == Merge(Window(ranked), scores, catalog);
  }

  /** Every score in the answer lies above zero and at most at the anchor's score. */
  lemma RecommendScoresBounded(ratings: seq<Rating>, catalog: seq<Movie>, anchor: int, ranked: seq<int>)
    requires Ranking.IsRanking(ScoreTable(ratings, anchor), ranked)
    ensures var rows := Recommend(ratings, catalog, anchor, ranked);
            forall k :: 0 <= k < |rows| ==>
              && 0.0 < rows[k].score
              && anchor in ScoreTable(ratings, anchor)
              && rows[k].score <= ScoreTable(ratings, anchor)[anchor]
  {
    var scores := ScoreTable(ratings, anchor);
    var window := Window(ranked);
    var rows := Recommend(ratings, catalog, anchor, ranked);
    assert forall j :: 0 <= j < |window| ==> window[j] in scores;
    assert rows == Merge(window, scores, catalog);
    forall k | 0 <= k < |rows|
      ensures 0.0 < rows[k].score && anchor in scores && rows[k].score <= scores[anchor]
    {
      var i := MergeRowSource(window, scores, catalog, k);
      AnchorScoreIsMaximal(ratings, anchor, window[i]);
    }
  }

  /** With no fans the answer is empty: the missing audience is not an error. */
  lemma NoFansNoRecommendations(ratings: seq<Rating>, catalog: seq<Movie>, anchor: int, ranked: seq<int>)
    requires Ranking.IsRanking(ScoreTable(ratings, anchor), ranked)
    ensures Fans(ratings, anchor) == {} <==> ScoreTable(ratings, anchor) == map[]
    ensures Fans(ratings, anchor) == {} ==> ranked == [] && Recommend(ratings, catalog, anchor, ranked) == []
  {
    if Fans(ratings, anchor) == {} {
      NoFansNoCandidates(ratings, anchor);
      Ranking.EmptyRanking(ScoreTable(ratings, anchor), ranked);
    } else {
      AnchorIsCandidate(ratings, anchor);
      assert anchor in ScoreTable(ratings, anchor);
    }
  }

  /** When no other candidate ties with the anchor, the anchor is ranked
      first and the positional drop removes exactly the anchor. */
  lemma UntiedAnchorIsDropped(ratings: seq<Rating>, catalog: seq<Movie>, anchor: int, ranked: seq<int>)
    requires Ranking.IsRanking(ScoreTable(ratings, anchor), ranked)
    requires Fans(ratings, anchor) != {}
    requires forall m :: m in Candidates(ratings, anchor) && m != anchor ==>
               FanCount(ratings, anchor, m) < AllCount(ratings, anchor, m)
    ensures |ranked| > 0 && ranked[0] == anchor
    ensures anchor !in RecommendedIds(catalog, ranked)
  {
    var scores := ScoreTable(ratings, anchor);
    AnchorIsCandidate(ratings, anchor);
    Ranking.FirstIsMaximal(scores, ranked, anchor);
    var top := ranked[0];
    AnchorScoreIsMaximal(ratings, anchor, top);
    assert scores[top] == scores[anchor];
    assert FanCount(ratings, anchor, top) == AllCount(ratings, anchor, top);
    RecommendedIdsShape(catalog, ranked);
  }
}
