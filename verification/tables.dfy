/** The `count` and `stats` tables both counting engines keep, their
    zero-state reads, the two guess rules they share, and the upserts
    that bump a user's statistics. */
module Tables {
  import opened Basics
  import opened Decimal

  /** Row keys, as `incr` forms them: "guild:<id>" and "user:<id>". */
  type GuildKey = string
  type UserKey = string

  function GuildKeyOf(id: string): GuildKey {
    "guild:" + id
  }

  function UserKeyOf(id: string): UserKey {
    "user:" + id
  }

  /** Different guild ids give different keys. */
  lemma GuildKeyOfInjective(a: string, b: string)
    ensures GuildKeyOf(a) == GuildKeyOf(b) <==> a == b
  {
    if GuildKeyOf(a) == GuildKeyOf(b) {
      assert a == GuildKeyOf(a)[6..] && b == GuildKeyOf(b)[6..];
    }
  }

  /** A row of the `count` table. */
  datatype CountRow = CountRow(count: nat, lastbumped: Option<UserKey>)

  /** A row of the `stats` table. */
  datatype StatsRow = StatsRow(bumps: nat, loss: nat)

  type CountTable = map<GuildKey, CountRow>
  type StatsTable = map<(GuildKey, UserKey), StatsRow>

  /** `currentCount`: the guild's row, or (0, null) when it has none. */
  function CurrentCount(counts: CountTable, guild: GuildKey): CountRow {
    if guild in counts then counts[guild] else CountRow(0, None)
  }

  /** A stored row is read as stored; a missing row reads as count 0 with
      no last bumper, so a last bumper is only ever read from a stored row. */
  lemma CurrentCountReadsRow(counts: CountTable, guild: GuildKey)
    ensures guild in counts ==> CurrentCount(counts, guild) == counts[guild]
    ensures guild !in counts ==> CurrentCount(counts, guild) == CountRow(0, None)
    ensures CurrentCount(counts, guild).lastbumped.Some? ==> guild in counts
  {
  }

  /** A user's statistics, reading a missing row as all zeros. */
  function StatsOf(stats: StatsTable, guild: GuildKey, user: UserKey): StatsRow {
    if (guild, user) in stats then stats[(guild, user)] else StatsRow(0, 0)
  }

  /** The repeat guard: the guesser made the last bump and repeats are off. */
  predicate IsRepeat(row: CountRow, user: UserKey, allowRepeats: bool) {
    row.lastbumped == Some(user) && !allowRepeats
  }

  /** The match rule: the guess is exactly the decimal text of count + 1. */
  predicate IsMatch(row: CountRow, guess: string) {
    guess == NatToDecimal(row.count + 1)
  }

  /** The bump upsert: a new row starts at one bump and no losses; an
      existing row gains one bump. */
  function AddBump(stats: StatsTable, guild: GuildKey, user: UserKey): (r: StatsTable)
    ensures (guild, user) in r
    ensures r[(guild, user)] == StatsRow(StatsOf(stats, guild, user).bumps + 1, StatsOf(stats, guild, user).loss)
    ensures r - {(guild, user)} == stats - {(guild, user)}
  {
    var k := (guild, user);
    if k in stats then stats[k := stats[k].(bumps := stats[k].bumps + 1)] else stats[k := StatsRow(1, 0)]
  }

  /** The loss upsert: a new row starts at no bumps and one loss; an
      existing row gains one loss. */
  function AddLoss(stats: StatsTable, guild: GuildKey, user: UserKey): (r: StatsTable)
    ensures (guild, user) in r
    ensures r[(guild, user)] == StatsRow(StatsOf(stats, guild, user).bumps, StatsOf(stats, guild, user).loss + 1)
    ensures r - {(guild, user)} == stats - {(guild, user)}
  {
    var k := (guild, user);
    if k in stats then stats[k := stats[k].(loss := stats[k].loss + 1)] else stats[k := StatsRow(0, 1)]
  }

  /** The effect on `count` and `stats` of a correct guess by `user`. */
  ghost predicate Advanced(counts: CountTable, stats: StatsTable, counts': CountTable, stats': StatsTable,
                           guild: GuildKey, user: UserKey)
  {
    && CurrentCount(counts', guild) == CountRow(CurrentCount(counts, guild).count + 1, Some(user))
    && (guild, user) in stats'
    && stats'[(guild, user)].bumps == StatsOf(stats, guild, user).bumps + 1
    && stats'[(guild, user)].loss == StatsOf(stats, guild, user).loss
  }

  /** The effect on `count` and `stats` of a wrong guess by `user` that
      loses the count. */
  ghost predicate WasReset(counts: CountTable, stats: StatsTable, counts': CountTable, stats': StatsTable,
                           guild: GuildKey, user: UserKey)
  {
    && CurrentCount(counts', guild) == CountRow(0, None)
    && (guild, user) in stats'
    && stats'[(guild, user)].bumps == StatsOf(stats, guild, user).bumps
    && stats'[(guild, user)].loss == StatsOf(stats, guild, user).loss + 1
  }

  /** Only the guild's count row and the guesser's stats row may differ. */
  ghost predicate OnlyRowsOf(counts: CountTable, stats: StatsTable, counts': CountTable, stats': StatsTable,
                             guild: GuildKey, user: UserKey)
  {
    && counts' - {guild} == counts - {guild}
    && stats' - {(guild, user)} == stats - {(guild, user)}
  }

  /** One guess as the engines receive it: the row keys and the evaluated text. */
  datatype Guess = Guess(guild: GuildKey, user: UserKey, text: string)
}
