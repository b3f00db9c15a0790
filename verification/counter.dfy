/** The counting engine of `counter.ts`: one guess is one transaction over
    the `count`, `stats` and `high_score` tables. */
module Counter {
  import opened Basics
  import opened Decimal
  import opened Tables

  datatype Db = Db(count: CountTable, stats: StatsTable, highScore: map<GuildKey, nat>)

  /** The high score as `incr` and `leaderboard` read it (`?.count || 0`):
      a guild without a row reads 0. */
  function HighScoreOf(db: Db, guild: GuildKey): nat {
    if guild in db.highScore then db.highScore[guild] else 0
  }

  datatype Outcome = Bump | Record | Ignore | Loss

  /** What `incr` returns (the outcome and the count before the call),
      together with the committed tables. */
  datatype Step = Step(outcome: Outcome, prevCount: nat, db: Db)

  /** `incr(user, guild, guess)`. The four branches are tried in order:
      repeat guard, exact text match, zero-count ignore, reset on loss. */
  function Incr(db: Db, guild: GuildKey, user: UserKey, guess: string, allowRepeats: bool): (r: Step)
    ensures r.prevCount == CurrentCount(db.count, guild).count
    ensures OnlyRowsOf(db.count, db.stats, r.db.count, r.db.stats, guild, user)
    ensures r.db.highScore - {guild} == db.highScore - {guild}
    ensures HighScoreOf(r.db, guild) >= HighScoreOf(db, guild)
    ensures r.outcome == Ignore <==> r.db == db
    ensures var row := CurrentCount(db.count, guild);
            r.outcome == Ignore <==> IsRepeat(row, user, allowRepeats) || (!IsMatch(row, guess) && row.count == 0)
    ensures var row := CurrentCount(db.count, guild);
            r.outcome in {Bump, Record} <==> !IsRepeat(row, user, allowRepeats) && IsMatch(row, guess)
    ensures var row := CurrentCount(db.count, guild);
            r.outcome == Record <==> !IsRepeat(row, user, allowRepeats) && IsMatch(row, guess)
                                     && row.count + 1 > HighScoreOf(db, guild)
    ensures r.outcome in {Bump, Record} ==>
              && Advanced(db.count, db.stats, r.db.count, r.db.stats, guild, user)
              && HighScoreOf(r.db, guild) == Max(HighScoreOf(db, guild), r.prevCount + 1)
    ensures r.outcome == Loss ==>
              && WasReset(db.count, db.stats, r.db.count, r.db.stats, guild, user)
              && r.db.highScore == db.highScore
  {
    var row := CurrentCount(db.count, guild);
    var high := HighScoreOf(db, guild);
    if IsRepeat(row, user, allowRepeats) then
      Step(Ignore, row.count, db)
    else if IsMatch(row, guess) then
      var newHigh := if guild in db.highScore then Max(db.highScore[guild], row.count + 1) else row.count + 1;
      var db' := Db(db.count[guild := CountRow(row.count + 1, Some(user))],
                    AddBump(db.stats, guild, user),
                    db.highScore[guild := newHigh]);
      Step(if row.count + 1 <= high then Bump else Record, row.count, db')
    else if row.count == 0 then
      Step(Ignore, row.count, db)
    else
      Step(Loss, row.count, Db(db.count[guild := CountRow(0, None)], AddLoss(db.stats, guild, user), db.highScore))
  }

  /** Unless the repeat guard fires, a guess counts exactly when it is
      canonical decimal text (no sign, no leading zero, no fraction) of
      count + 1. */
  lemma GuessCountsIffCanonicalSuccessor(db: Db, guild: GuildKey, user: UserKey, guess: string, allowRepeats: bool)
    requires !IsRepeat(CurrentCount(db.count, guild), user, allowRepeats)
    ensures Incr(db, guild, user, guess, allowRepeats).outcome in {Bump, Record}
            <==> IsCanonical(guess) && DecimalValue(guess) == CurrentCount(db.count, guild).count + 1
  {
    DecimalTextIff(guess, CurrentCount(db.count, guild).count + 1);
  }

  /** Text that is not canonical decimal never counts, whatever its numeric
      reading: "007", "+3" and "1/2" are examples. */
  lemma NonCanonicalNeverCounts(db: Db, guild: GuildKey, user: UserKey, guess: string, allowRepeats: bool)
    requires !IsCanonical(guess)
    ensures Incr(db, guild, user, guess, allowRepeats).outcome !in {Bump, Record}
  {
    DecimalTextIff(guess, CurrentCount(db.count, guild).count + 1);
  }

  lemma ZeroPaddedAndSignedGuessesNeverCount(db: Db, guild: GuildKey, user: UserKey, allowRepeats: bool)
    ensures Incr(db, guild, user, "007", allowRepeats).outcome !in {Bump, Record}
    ensures Incr(db, guild, user, "+3", allowRepeats).outcome !in {Bump, Record}
    ensures Incr(db, guild, user, "1/2", allowRepeats).outcome !in {Bump, Record}
  {
    NonCanonicalNeverCounts(db, guild, user, "007", allowRepeats);
    assert !IsDigit("+3"[0]);
    NonCanonicalNeverCounts(db, guild, user, "+3", allowRepeats);
    assert !IsDigit("1/2"[1]);
    NonCanonicalNeverCounts(db, guild, user, "1/2", allowRepeats);
  }

  /** A guild with no rows at all: its first correct guess "1" is a record,
      because the missing high score reads as 0. */
  lemma FreshGuildFirstGuessIsRecord(db: Db, guild: GuildKey, user: UserKey, allowRepeats: bool)
    requires guild !in db.count && guild !in db.highScore
    ensures var r := Incr(db, guild, user, "1", allowRepeats);
            && r.outcome == Record && r.prevCount == 0
            && CurrentCount(r.db.count, guild) == CountRow(1, Some(user))
            && HighScoreOf(r.db, guild) == 1
  {
    assert NatToDecimal(1) == "1";
  }

  /** Reaching exactly the previous high score is a plain bump; passing it
      is a record. */
  lemma TyingHighScoreIsBumpPassingIsRecord(db: Db, guild: GuildKey, p1: UserKey, p2: UserKey)
    requires p1 != p2
    requires db.count == map[guild := CountRow(4, Some(p2))] && db.highScore == map[guild := 5]
    ensures var r1 := Incr(db, guild, p1, "5", false);
            var r2 := Incr(r1.db, guild, p2, "6", false);
            && r1.outcome == Bump && r1.prevCount == 4
            && r2.outcome == Record && r2.prevCount == 5
            && HighScoreOf(r2.db, guild) == 6
  {
    assert NatToDecimal(5) == "5";
    assert NatToDecimal(6) == "6";
  }

  /** The table invariants every reachable state keeps: a guild's count
      never exceeds its high score, and `lastbumped` is set exactly when
      the count is positive (the last transition was an increment). */
  ghost predicate Consistent(db: Db) {
    forall g | g in db.count ::
      && (db.count[g].lastbumped.Some? <==> db.count[g].count > 0)
      && db.count[g].count <= HighScoreOf(db, g)
  }

  lemma IncrKeepsConsistent(db: Db, guild: GuildKey, user: UserKey, guess: string, allowRepeats: bool)
    requires Consistent(db)
    ensures Consistent(Incr(db, guild, user, guess, allowRepeats).db)
  {
    var r := Incr(db, guild, user, guess, allowRepeats);
    forall g | g in r.db.count
      ensures r.db.count[g].lastbumped.Some? <==> r.db.count[g].count > 0
      ensures r.db.count[g].count <= HighScoreOf(r.db, g)
    {
      if g != guild {
        assert g in r.db.count - {guild};
        assert r.db.count[g] == (r.db.count - {guild})[g] == db.count[g];
        assert HighScoreOf(r.db, g) == HighScoreOf(db, g) by {
          assert g in r.db.highScore <==> g in r.db.highScore - {guild};
          assert g in db.highScore <==> g in db.highScore - {guild};
          if g in db.highScore {
            assert r.db.highScore[g] == (r.db.highScore - {guild})[g];
          }
        }
      }
    }
  }

  /** Feeding a sequence of guesses through `incr`, one transaction each. */
  function Run(db: Db, guesses: seq<Guess>, allowRepeats: bool): Db
    decreases |guesses|
  {
    if |guesses| == 0 then db
    else Run(Incr(db, guesses[0].guild, guesses[0].user, guesses[0].text, allowRepeats).db, guesses[1..], allowRepeats)
  }

  /** No guild's high score ever decreases, over any sequence of guesses. */
  lemma {:induction false} HighScoreNeverDecreases(db: Db, guesses: seq<Guess>, allowRepeats: bool, guild: GuildKey)
    ensures HighScoreOf(Run(db, guesses, allowRepeats), guild) >= HighScoreOf(db, guild)
    decreases |guesses|
  {
    if |guesses| > 0 {
      var gs := guesses[0];
      var next := Incr(db, gs.guild, gs.user, gs.text, allowRepeats).db;
      if guild != gs.guild {
        if guild in db.highScore {
          assert guild in db.highScore - {gs.guild};
          assert next.highScore[guild] == (next.highScore - {gs.guild})[guild];
        }
      }
      HighScoreNeverDecreases(next, guesses[1..], allowRepeats, guild);
    }
  }

  /** Every state reachable from the empty tables is consistent. */
  lemma {:induction false} RunKeepsConsistent(db: Db, guesses: seq<Guess>, allowRepeats: bool)
    requires Consistent(db)
    ensures Consistent(Run(db, guesses, allowRepeats))
    decreases |guesses|
  {
    if |guesses| > 0 {
      IncrKeepsConsistent(db, guesses[0].guild, guesses[0].user, guesses[0].text, allowRepeats);
      RunKeepsConsistent(Incr(db, guesses[0].guild, guesses[0].user, guesses[0].text, allowRepeats).db,
                         guesses[1..], allowRepeats);
    }
  }

  /** In a consistent state the repeat guard never fires at count 0, so a
      wrong guess at count 0 is ignored for that reason alone. */
  lemma RepeatGuardNeedsPositiveCount(db: Db, guild: GuildKey, user: UserKey, allowRepeats: bool)
    requires Consistent(db)
    requires IsRepeat(CurrentCount(db.count, guild), user, allowRepeats)
    ensures CurrentCount(db.count, guild).count > 0
  {
  }
}
