/**
 * The daily highscore endpoints. Each user has at most one record per game
 * and day, holding the best score of that day; `today` is the server's
 * calendar date, supplied by the caller.
 */
module Scores {
  import opened Wrappers
  import opened Models
  import Seqs
  import Schemas
  import Auth

  /** The three score columns of `TodayScoresResponse`, each 0 by default. */
  datatype GameScores = GameScores(quiz: int, salad: int, lines: int) {

    /** The column of a game type; 0 for a game without a column. */
    function Get(game: string): int {
      if game == "quiz" then quiz
      else if game == "salad" then salad
      else if game == "lines" then lines
      else 0
    }
  }

  const NoScores := GameScores(0, 0, 0)

  /** An assignment to a field `TodayScoresResponse` does not declare: pydantic raises, FastAPI answers 500. */
  const UndeclaredField := HttpError(500, "Internal Server Error")

  /** Whether `h` is the record of `userId` in `game` on `day`. */
  predicate SameDay(h: Highscore, userId: nat, game: string, day: int) {
    h.userId == userId && h.gameType == game && h.date == day
  }

  /** The unique constraint on (user, game, date): at most one record per user, game and day. */
  predicate OnePerDay(scores: seq<Highscore>) {
    forall i, j :: 0 <= i < j < |scores| ==> !SameDay(scores[j], scores[i].userId, scores[i].gameType, scores[i].date)
  }

  /** Under the constraint, two records of the same user, game and day are one. */
  lemma OnePerDayUnique(scores: seq<Highscore>, i: nat, j: nat, userId: nat, game: string, day: int)
    requires OnePerDay(scores) && i < |scores| && j < |scores|
    requires SameDay(scores[i], userId, game, day) && SameDay(scores[j], userId, game, day)
    ensures i == j
  {
  }

  /** The position of the record of `userId` in `game` on `day`. */
  function DayIndex(scores: seq<Highscore>, userId: nat, game: string, day: int): (r: Option<nat>)
    ensures r.Some? ==> r.value < |scores| && SameDay(scores[r.value], userId, game, day)
    ensures r.None? <==> forall h :: h in scores ==> !SameDay(h, userId, game, day)
  {
    Seqs.FindIndex((h: Highscore) => SameDay(h, userId, game, day), scores)
  }

  /**
   * `POST /api/scores/update`: today's record keeps the larger of its score
   * and the submitted one; without a record, one is created.
   */
  function UpdateScore(db: Db, userId: nat, game: string, score: int, today: int): (out: Outcome<Highscore>)
    ensures out.reply.Ok? <==> Schemas.ValidScoreUpdate(game, score)
    ensures out.reply.Fail? ==> out == Outcome(db, Fail(Auth.ValidationError))
    ensures out.reply.Ok? ==> SameDay(out.reply.value, userId, game, today) && out.reply.value in out.db.scores
    ensures out.reply.Ok? && DayIndex(db.scores, userId, game, today).Some? ==>
      var k := DayIndex(db.scores, userId, game, today).value;
      var h := out.reply.value;
      h == db.scores[k].(score := h.score)
      && h.score == (if score > db.scores[k].score then score else db.scores[k].score)
      && out.db == db.(scores := db.scores[k := h])
    ensures out.reply.Ok? && DayIndex(db.scores, userId, game, today).None? ==>
      var h := out.reply.value;
      h.score == score && (forall o :: o in db.scores ==> o.id != h.id)
      && out.db == db.(scores := db.scores + [h])
  {
    if !Schemas.ValidScoreUpdate(game, score) then Outcome(db, Fail(Auth.ValidationError))
    else match DayIndex(db.scores, userId, game, today)
      case Some(k) =>
        var existing := db.scores[k];
        if score > existing.score then
          var h := existing.(score := score);
          assert db.scores[k := h][k] == h;
          Outcome(db.(scores := db.scores[k := h]), Ok(h))
        else Outcome(db, Ok(existing))
      case None =>
        var id := FreshId(Seqs.Map(ScoreId, db.scores));
        assert forall o :: o in db.scores ==> o.id != id by {
          forall o | o in db.scores ensures o.id != id {
            var k :| 0 <= k < |db.scores| && db.scores[k] == o;
            assert Seqs.Map(ScoreId, db.scores)[k] == o.id;
          }
        }
        var h := Highscore(id, userId, game, today, score);
        Outcome(db.(scores := db.scores + [h]), Ok(h))
  }

  /** An update keeps the one-record-per-day constraint. */
  lemma UpdateScoreKeepsOnePerDay(db: Db, userId: nat, game: string, score: int, today: int)
    requires OnePerDay(db.scores)
    ensures OnePerDay(UpdateScore(db, userId, game, score, today).db.scores)
  {
    var out := UpdateScore(db, userId, game, score, today);
    if out.reply.Ok? {
      var s := out.db.scores;
      if DayIndex(db.scores, userId, game, today).None? {
        forall i, j | 0 <= i < j < |s| ensures !SameDay(s[j], s[i].userId, s[i].gameType, s[i].date) {
          if j == |db.scores| {
            assert s[i] in db.scores;
          }
        }
      }
    }
  }

  /** No stored score ever goes down: every record is still there with at least its score. */
  lemma UpdateScoreNeverLowers(db: Db, userId: nat, game: string, score: int, today: int)
    ensures var r := UpdateScore(db, userId, game, score, today).db.scores;
      |r| >= |db.scores|
      && forall k :: 0 <= k < |db.scores| ==> r[k] == db.scores[k].(score := r[k].score) && r[k].score >= db.scores[k].score
  {
  }

  /**
   * The counter of `TodayScoresResponse` filled from `rows` in order, starting
   * from `acc`. A 'memory' row aborts with a server error.
   */
  function Tally(rows: seq<Highscore>, acc: GameScores): (r: Reply<GameScores>)
    ensures r.Fail? <==> exists h :: h in rows && h.gameType == "memory"
    ensures r.Fail? ==> r.error == UndeclaredField
    ensures r.Ok? ==> forall g :: Schemas.ValidGameType(g) && (forall h :: h in rows ==> h.gameType != g) ==>
      r.value.Get(g) == acc.Get(g)
    ensures r.Ok? ==> forall g :: Schemas.ValidGameType(g) && (exists h :: h in rows && h.gameType == g) ==>
      exists h :: h in rows && h.gameType == g && r.value.Get(g) == h.score
  {
    if |rows| == 0 then Ok(acc)
    else
      var h := rows[0];
      assert forall x :: x in rows <==> x == h || x in rows[1..] by {
        assert rows == [h] + rows[1..];
      }
      if h.gameType == "quiz" then Tally(rows[1..], acc.(quiz := h.score))
      else if h.gameType == "salad" then Tally(rows[1..], acc.(salad := h.score))
      else if h.gameType == "lines" then Tally(rows[1..], acc.(lines := h.score))
      else if h.gameType == "memory" then Fail(UndeclaredField)
      else Tally(rows[1..], acc)
  }

  /** The records of `userId` dated `day`. */
  function RowsOfDay(scores: seq<Highscore>, userId: nat, day: int): (r: seq<Highscore>)
    ensures forall h :: h in r <==> h in scores && h.userId == userId && h.date == day
  {
    Seqs.Filter((h: Highscore) => h.userId == userId && h.date == day, scores)
  }

  /** `GET /api/scores/today`. */
  function TodayScores(db: Db, userId: nat, today: int): (r: Reply<GameScores>)
    ensures r.Fail? <==> exists h :: h in db.scores && SameDay(h, userId, "memory", today)
  {
    Tally(RowsOfDay(db.scores, userId, today), NoScores)
  }

  /**
   * With one record per day and no 'memory' record today, each game reports
   * today's record, or 0 when there is none.
   */
  lemma TodayScoresReportsRecord(db: Db, userId: nat, today: int, game: string)
    requires OnePerDay(db.scores) && Schemas.ValidGameType(game)
    requires forall h :: h in db.scores ==> !SameDay(h, userId, "memory", today)
    ensures TodayScores(db, userId, today).Ok?
    ensures match DayIndex(db.scores, userId, game, today)
      case None => TodayScores(db, userId, today).value.Get(game) == 0
      case Some(k) => TodayScores(db, userId, today).value.Get(game) == db.scores[k].score
  {
    var rows := RowsOfDay(db.scores, userId, today);
    var r := TodayScores(db, userId, today);
    match DayIndex(db.scores, userId, game, today)
    case None =>
      assert forall h :: h in rows ==> h.gameType != game;
    case Some(k) =>
      assert db.scores[k] in rows;
      var h :| h in rows && h.gameType == game && r.value.Get(game) == h.score;
      var j :| 0 <= j < |db.scores| && db.scores[j] == h;
      OnePerDayUnique(db.scores, j, k, userId, game, today);
  }

  /** After an update, today's score of that game is at least the submitted score. */
  lemma UpdateThenTodayReportsAtLeast(db: Db, userId: nat, game: string, score: int, today: int)
    requires OnePerDay(db.scores)
    requires forall h :: h in db.scores ==> !SameDay(h, userId, "memory", today)
    requires UpdateScore(db, userId, game, score, today).reply.Ok?
    ensures TodayScores(UpdateScore(db, userId, game, score, today).db, userId, today).Ok?
    ensures TodayScores(UpdateScore(db, userId, game, score, today).db, userId, today).value.Get(game) >= score
  {
    var out := UpdateScore(db, userId, game, score, today);
    UpdateScoreKeepsOnePerDay(db, userId, game, score, today);
    var s := out.db.scores;
    assert forall h :: h in s ==> !SameDay(h, userId, "memory", today) by {
      forall h | h in s ensures !SameDay(h, userId, "memory", today) {
        var j :| 0 <= j < |s| && s[j] == h;
        if j < |db.scores| && DayIndex(db.scores, userId, game, today).Some? {
          assert s[j] == db.scores[j] || s[j] == out.reply.value;
        }
        if j < |db.scores| && DayIndex(db.scores, userId, game, today).None? {
          assert s[j] == db.scores[j];
        }
      }
    }
    TodayScoresReportsRecord(out.db, userId, today, game);
    var m :| 0 <= m < |s| && s[m] == out.reply.value;
    var k := DayIndex(s, userId, game, today).value;
    OnePerDayUnique(s, m, k, userId, game, today);
  }

  /** The largest score among `rows`, if there is any row. */
  function MaxScore(rows: seq<Highscore>): (r: Option<int>)
    ensures r.None? <==> |rows| == 0
    ensures r.Some? ==> (exists h :: h in rows && h.score == r.value) && forall h :: h in rows ==> h.score <= r.value
  {
    if |rows| == 0 then None
    else
      assert forall x :: x in rows <==> x == rows[0] || x in rows[1..] by {
        assert rows == [rows[0]] + rows[1..];
      }
      match MaxScore(rows[1..])
      case None => Some(rows[0].score)
      case Some(m) => Some(if rows[0].score > m then rows[0].score else m)
  }

  /** All records of `userId` in `game`. */
  function RowsOfGame(scores: seq<Highscore>, userId: nat, game: string): (r: seq<Highscore>)
    ensures forall h :: h in r <==> h in scores && h.userId == userId && h.gameType == game
  {
    Seqs.Filter((h: Highscore) => h.userId == userId && h.gameType == game, scores)
  }

  /**
   * `MAX(score)` of `game` as the endpoint uses it: the maximum over the
   * user's records of that game, 0 when there is none.
   */
  function Best(scores: seq<Highscore>, userId: nat, game: string): (b: int)
    ensures forall h :: h in scores && h.userId == userId && h.gameType == game ==> h.score <= b
    ensures (exists h :: h in scores && h.userId == userId && h.gameType == game) ==>
      exists h :: h in scores && h.userId == userId && h.gameType == game && h.score == b
    ensures (forall h :: h in scores && h.userId == userId ==> h.gameType != game) ==> b == 0
  {
    var rows := RowsOfGame(scores, userId, game);
    match MaxScore(rows)
    case None => 0
    case Some(m) => m
  }

  /**
   * `GET /api/scores/best`: the best of each game. A maximum is copied only
   * when truthy, which changes nothing since the default is 0; the loop also
   * asks for 'memory', which has no field to receive a non-zero maximum.
   */
  function BestScores(db: Db, userId: nat): (r: Reply<GameScores>)
    ensures r.Fail? <==> Best(db.scores, userId, "memory") != 0
    ensures r.Fail? ==> r.error == UndeclaredField
    ensures r.Ok? ==> forall g :: Schemas.ValidGameType(g) ==> r.value.Get(g) == Best(db.scores, userId, g)
  {
    if Best(db.scores, userId, "memory") != 0 then Fail(UndeclaredField)
    else Ok(GameScores(Best(db.scores, userId, "quiz"), Best(db.scores, userId, "salad"), Best(db.scores, userId, "lines")))
  }

  /** After an update, the all-time best of that game is at least the submitted score. */
  lemma UpdateThenBestIsAtLeast(db: Db, userId: nat, game: string, score: int, today: int)
    requires UpdateScore(db, userId, game, score, today).reply.Ok?
    requires BestScores(UpdateScore(db, userId, game, score, today).db, userId).Ok?
    ensures BestScores(UpdateScore(db, userId, game, score, today).db, userId).value.Get(game) >= score
  {
    var out := UpdateScore(db, userId, game, score, today);
    assert out.reply.value in out.db.scores && out.reply.value.gameType == game;
  }

  /** The records of `userId`, only of `game` when one is given (an empty name counts as none). */
  predicate Selected(h: Highscore, userId: nat, game: Option<string>) {
    h.userId == userId && (game.None? || |game.value| == 0 || h.gameType == game.value)
  }

  function Date(h: Highscore): int { h.date }

  /** `GET /api/scores/me`: the selected records, newest first, at most `limit` of them. */
  function MyScores(db: Db, userId: nat, game: Option<string>, limit: nat): (r: seq<Highscore>)
    ensures |r| <= limit
    ensures forall h :: h in r ==> h in db.scores && Selected(h, userId, game)
    ensures multiset(r) <= multiset(db.scores)
    ensures Seqs.DescendingBy(Date, r)
    ensures forall h :: h in db.scores && Selected(h, userId, game) && h !in r ==>
      |r| == limit && (limit == 0 || h.date <= r[|r| - 1].date)
  {
    var f := (h: Highscore) => Selected(h, userId, game);
    var rows := Seqs.Filter(f, db.scores);
    var sorted := Seqs.SortDescendingBy(Date, rows);
    Seqs.SortDescendingByMembers(Date, rows);
    Seqs.FilterSubMultiset(f, db.scores);
    var r := Newest(sorted, limit);
    PrefixWithin(sorted, db.scores, |r|);
    assert forall h :: h in r ==> h in sorted;
    r
  }

  /** The first `limit` records of a newest-first list. */
  function Newest(sorted: seq<Highscore>, limit: nat): (r: seq<Highscore>)
    requires Seqs.DescendingBy(Date, sorted)
    ensures |r| == (if |sorted| <= limit then |sorted| else limit) && r == sorted[..|r|]
    ensures Seqs.DescendingBy(Date, r)
    ensures forall h :: h in sorted && h !in r ==> |r| == limit && (limit == 0 || h.date <= r[|r| - 1].date)
  {
    if |sorted| <= limit then
      assert sorted == sorted[..|sorted|];
      sorted
    else if limit == 0 then []
    else
      Seqs.DescendingPrefix(Date, sorted, limit);
      NewestFirst(sorted, limit);
      sorted[..limit]
  }

  /** A prefix of a sub-multiset of `all` is one too. */
  lemma PrefixWithin(s: seq<Highscore>, all: seq<Highscore>, n: nat)
    requires multiset(s) <= multiset(all) && n <= |s|
    ensures multiset(s[..n]) <= multiset(all)
  {
    assert s == s[..n] + s[n..];
  }

  /** What a prefix of a date-sorted list leaves out is no newer than its last element. */
  lemma NewestFirst(sorted: seq<Highscore>, n: nat)
    requires Seqs.DescendingBy(Date, sorted) && 0 < n <= |sorted|
    ensures forall h :: h in sorted && h !in sorted[..n] ==> h.date <= sorted[n - 1].date
  {
    assert forall i :: 0 <= i < n ==> sorted[..n][i] == sorted[i];
    forall h | h in sorted && h !in sorted[..n] ensures h.date <= sorted[n - 1].date {
      var j :| 0 <= j < |sorted| && sorted[j] == h;
      assert Date(sorted[j]) <= Date(sorted[n - 1]);
    }
  }

  /**
   * After an update, the history of that game starts with today's record,
   * provided no stored record of the user is dated after today.
   */
  lemma {:induction false} UpdatedRecordListedFirst(db: Db, userId: nat, game: string, score: int, today: int, limit: nat)
    requires OnePerDay(db.scores)
    requires forall h :: h in db.scores && h.userId == userId ==> h.date <= today
    requires UpdateScore(db, userId, game, score, today).reply.Ok?
    requires limit > 0 && |game| > 0
    ensures var out := UpdateScore(db, userId, game, score, today);
      var r := MyScores(out.db, userId, Some(game), limit);
      |r| > 0 && r[0] == out.reply.value
  {
    var out := UpdateScore(db, userId, game, score, today);
    var h := out.reply.value;
    var s := out.db.scores;
    UpdateScoreKeepsOnePerDay(db, userId, game, score, today);
    UpdateKeepsDatesUpTo(db, userId, game, score, today);
    forall y | y in s && Selected(y, userId, Some(game)) && y.date >= today ensures y == h {
      var i :| 0 <= i < |s| && s[i] == y;
      var j :| 0 <= j < |s| && s[j] == h;
      OnePerDayUnique(s, i, j, userId, game, today);
    }
    LatestListedFirst(out.db, userId, Some(game), limit, h);
  }

  /** A selected record newer than every other selected record heads the history. */
  lemma LatestListedFirst(db: Db, userId: nat, game: Option<string>, limit: nat, h: Highscore)
    requires limit > 0 && h in db.scores && Selected(h, userId, game)
    requires forall y :: y in db.scores && Selected(y, userId, game) && y.date >= h.date ==> y == h
    ensures var r := MyScores(db, userId, game, limit); |r| > 0 && r[0] == h
  {
    var r := MyScores(db, userId, game, limit);
    assert h in r;
    var j :| 0 <= j < |r| && r[j] == h;
    assert Date(r[0]) >= Date(r[j]);
  }

  /** An update dated `today` keeps every record of the user dated today or earlier. */
  lemma UpdateKeepsDatesUpTo(db: Db, userId: nat, game: string, score: int, today: int)
    requires forall h :: h in db.scores && h.userId == userId ==> h.date <= today
    ensures forall h :: h in UpdateScore(db, userId, game, score, today).db.scores && h.userId == userId ==> h.date <= today
  {
    var out := UpdateScore(db, userId, game, score, today);
    forall x | x in out.db.scores && x.userId == userId ensures x.date <= today {
      var i :| 0 <= i < |out.db.scores| && out.db.scores[i] == x;
      if i < |db.scores| && (out.reply.Fail? || x != out.reply.value) {
        assert x == db.scores[i];
      }
    }
  }
}
