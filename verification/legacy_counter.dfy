/** The earlier counting engine of `index.ts`: the same branch order as
    `counter.ts`, three outcomes, and no high-score table. */
module LegacyCounter {
  import opened Basics
  import opened Decimal
  import opened Tables
  import Counter

  datatype Db = Db(count: CountTable, stats: StatsTable)

  datatype Outcome = Bump | Ignore | Loss

  datatype Step = Step(outcome: Outcome, prevCount: nat, db: Db)

  /** `incr(ctx, user, guild, guess)`; `allowRepeats` stands for
      `process.argv.includes('--allow-repeats')`. */
  function Incr(db: Db, guild: GuildKey, user: UserKey, guess: string, allowRepeats: bool): (r: Step)
    ensures r.prevCount == CurrentCount(db.count, guild).count
    ensures OnlyRowsOf(db.count, db.stats, r.db.count, r.db.stats, guild, user)
    ensures r.outcome == Ignore <==> r.db == db
    ensures var row := CurrentCount(db.count, guild);
            r.outcome == Ignore <==> IsRepeat(row, user, allowRepeats) || (!IsMatch(row, guess) && row.count == 0)
    ensures var row := CurrentCount(db.count, guild);
            r.outcome == Bump <==> !IsRepeat(row, user, allowRepeats) && IsMatch(row, guess)
    ensures r.outcome == Bump ==> Advanced(db.count, db.stats, r.db.count, r.db.stats, guild, user)
    ensures r.outcome == Loss ==> WasReset(db.count, db.stats, r.db.count, r.db.stats, guild, user)
  {
    var row := CurrentCount(db.count, guild);
    if IsRepeat(row, user, allowRepeats) then
      Step(Ignore, row.count, db)
    else if IsMatch(row, guess) then
      Step(Bump, row.count, Db(db.count[guild := CountRow(row.count + 1, Some(user))], AddBump(db.stats, guild, user)))
    else if row.count == 0 then
      Step(Ignore, row.count, db)
    else
      Step(Loss, row.count, Db(db.count[guild := CountRow(0, None)], AddLoss(db.stats, guild, user)))
  }

  /** A guild without a count row reads as (0, null): a wrong guess there
      is ignored and changes nothing, and "1" starts the count. */
  lemma FreshGuildReadsZero(db: Db, guild: GuildKey, user: UserKey, guess: string, allowRepeats: bool)
    requires guild !in db.count
    ensures guess != "1" ==> Incr(db, guild, user, guess, allowRepeats) == Step(Ignore, 0, db)
    ensures guess == "1" ==> Incr(db, guild, user, guess, allowRepeats).outcome == Bump
  {
    assert NatToDecimal(1) == "1";
  }

  function Run(db: Db, guesses: seq<Guess>, allowRepeats: bool): Db
    decreases |guesses|
  {
    if |guesses| == 0 then db
    else Run(Incr(db, guesses[0].guild, guesses[0].user, guesses[0].text, allowRepeats).db, guesses[1..], allowRepeats)
  }

  /** The newer engine's outcome as the earlier one names it: a record is
      a bump. */
  function AsLegacy(o: Counter.Outcome): Outcome {
    match o
    case Bump => Bump
    case Record => Bump
    case Ignore => Ignore
    case Loss => Loss
  }

  /** Given the same `count` and `stats` tables, the two engines return the
      same outcome (record read as bump) and the same previous count, and
      commit the same `count` and `stats` tables. */
  lemma IncrAgrees(db: Counter.Db, guild: GuildKey, user: UserKey, guess: string, allowRepeats: bool)
    ensures var r := Counter.Incr(db, guild, user, guess, allowRepeats);
            var l := Incr(Db(db.count, db.stats), guild, user, guess, allowRepeats);
            && l.outcome == AsLegacy(r.outcome)
            && l.prevCount == r.prevCount
            && l.db == Db(r.db.count, r.db.stats)
  {
  }

  /** The agreement extends to any sequence of guesses, whatever the
      high-score table holds. */
  lemma {:induction false} RunsAgree(db: Counter.Db, guesses: seq<Guess>, allowRepeats: bool)
    ensures var r := Counter.Run(db, guesses, allowRepeats);
            Run(Db(db.count, db.stats), guesses, allowRepeats) == Db(r.count, r.stats)
    decreases |guesses|
  {
    if |guesses| > 0 {
      var g := guesses[0];
      IncrAgrees(db, g.guild, g.user, g.text, allowRepeats);
      RunsAgree(Counter.Incr(db, g.guild, g.user, g.text, allowRepeats).db, guesses[1..], allowRepeats);
    }
  }
}
