/** The read side of `leaderboard` in `counter.ts`: the top ten rows of a
    guild by bumps and by losses, numbered from 1, with the guild's count
    and high score. */
module Leaderboard {
  import opened Tables
  import Counter

  datatype Column = Bumps | Losses

  function ValueIn(row: StatsRow, col: Column): nat {
    match col
    case Bumps => row.bumps
    case Losses => row.loss
  }

  /** `LIMIT 10`. */
  const Limit: nat := 10

  /** One numbered line of a board: `${++n}: <user>, with <value> ...`. */
  datatype Entry = Entry(position: nat, user: UserKey, value: nat)

  /** The users with a `stats` row in the guild (`WHERE guild = ?`). */
  function GuildUsers(stats: StatsTable, guild: GuildKey): set<UserKey> {
    set k | k in stats.Keys && k.0 == guild :: k.1
  }

  lemma InGuildUsers(stats: StatsTable, guild: GuildKey, user: UserKey)
    ensures user in GuildUsers(stats, guild) <==> (guild, user) in stats
  {
    if (guild, user) in stats {
      assert (guild, user).1 == user;
    }
  }

  function Users(board: seq<Entry>): set<UserKey>
    decreases |board|
  {
    if |board| == 0 then {} else Users(board[..|board| - 1]) + {board[|board| - 1].user}
  }

  lemma {:induction false} UsersHasEveryEntry(board: seq<Entry>)
    ensures forall i | 0 <= i < |board| :: board[i].user in Users(board)
    ensures forall u | u in Users(board) :: exists i | 0 <= i < |board| :: board[i].user == u
    decreases |board|
  {
    if |board| > 0 {
      var front := board[..|board| - 1];
      UsersHasEveryEntry(front);
      forall i | 0 <= i < |front| ensures board[i] == front[i] { }
    }
  }

  /** The guild's ten highest rows by the column, highest first, numbered from 1.
      Rows with equal values may come in any order. */
  ghost predicate IsTopList(stats: StatsTable, guild: GuildKey, col: Column, board: seq<Entry>) {
    && |board| == (if |GuildUsers(stats, guild)| < Limit then |GuildUsers(stats, guild)| else Limit)
    && (forall i | 0 <= i < |board| :: board[i].position == i + 1)
    && (forall i | 0 <= i < |board| ::
          (guild, board[i].user) in stats && board[i].value == ValueIn(stats[(guild, board[i].user)], col))
    && (forall i, j | 0 <= i < j < |board| :: board[i].user != board[j].user)
    && (forall i, j | 0 <= i < j < |board| :: board[i].value >= board[j].value)
    && (forall u, i | u in GuildUsers(stats, guild) && u !in Users(board) && 0 <= i < |board| ::
          (guild, u) in stats && ValueIn(stats[(guild, u)], col) <= board[i].value)
  }

  lemma {:induction false} MaxExists(stats: StatsTable, guild: GuildKey, col: Column, s: set<UserKey>)
    requires s != {}
    requires forall u | u in s :: (guild, u) in stats
    ensures exists m | m in s :: forall v | v in s :: ValueIn(stats[(guild, v)], col) <= ValueIn(stats[(guild, m)], col)
    decreases |s|
  {
    var x :| x in s;
    if s != {x} {
      var rest := s - {x};
      MaxExists(stats, guild, col, rest);
      var m :| m in rest && forall v | v in rest :: ValueIn(stats[(guild, v)], col) <= ValueIn(stats[(guild, m)], col);
      if ValueIn(stats[(guild, x)], col) <= ValueIn(stats[(guild, m)], col) {
        assert forall v | v in s :: v == x || v in rest;
      } else {
        assert forall v | v in s :: ValueIn(stats[(guild, v)], col) <= ValueIn(stats[(guild, x)], col);
      }
    }
  }

  /** The selection loop's invariant, bookkeeping half: `board` holds
      distinct users of the guild, at most ten, and `remaining` the guild's
      users not yet picked. */
  ghost predicate PickedSets(stats: StatsTable, guild: GuildKey,
                             all: set<UserKey>, remaining: set<UserKey>, board: seq<Entry>)
  {
    && all == GuildUsers(stats, guild)
    && (forall u | u in all :: (guild, u) in stats)
    && |board| <= Limit
    && Users(board) <= all
    && remaining == all - Users(board)
    && |remaining| + |board| == |all|
    && (forall i, j | 0 <= i < j < |board| :: board[i].user != board[j].user)
  }

  /** The selection loop's invariant, ordering half: the picked rows are
      numbered, carry their values, descend, and no remaining user beats
      any of them. */
  ghost predicate PickedOrder(stats: StatsTable, guild: GuildKey, col: Column,
                              remaining: set<UserKey>, board: seq<Entry>)
  {
    && (forall u | u in remaining :: (guild, u) in stats)
    && (forall i | 0 <= i < |board| :: board[i].position == i + 1)
    && (forall i | 0 <= i < |board| ::
          (guild, board[i].user) in stats && board[i].value == ValueIn(stats[(guild, board[i].user)], col))
    && (forall i, j | 0 <= i < j < |board| :: board[i].value >= board[j].value)
    && (forall u, i | u in remaining && 0 <= i < |board| :: ValueIn(stats[(guild, u)], col) <= board[i].value)
  }

  ghost predicate Partial(stats: StatsTable, guild: GuildKey, col: Column,
                          all: set<UserKey>, remaining: set<UserKey>, board: seq<Entry>)
  {
    PickedSets(stats, guild, all, remaining, board) && PickedOrder(stats, guild, col, remaining, board)
  }

  lemma StartPartial(stats: StatsTable, guild: GuildKey, col: Column)
    ensures Partial(stats, guild, col, GuildUsers(stats, guild), GuildUsers(stats, guild), [])
  {
    forall u | u in GuildUsers(stats, guild) ensures (guild, u) in stats {
      InGuildUsers(stats, guild, u);
    }
  }

  lemma ExtendPickedSets(stats: StatsTable, guild: GuildKey,
                         all: set<UserKey>, remaining: set<UserKey>, board: seq<Entry>, e: Entry)
    requires PickedSets(stats, guild, all, remaining, board)
    requires |board| < Limit
    requires e.user in remaining
    ensures PickedSets(stats, guild, all, remaining - {e.user}, board + [e])
  {
    var board' := board + [e];
    var remaining' := remaining - {e.user};
    UsersHasEveryEntry(board);
    assert Users(board') == Users(board) + {e.user} by {
      assert board'[..|board|] == board;
    }
    assert |remaining'| == |remaining| - 1 by {
      assert remaining == remaining' + {e.user};
    }
    forall i, j | 0 <= i < j < |board'| ensures board'[i].user != board'[j].user {
      if j == |board| {
        assert board[i].user in Users(board);
      } else {
        assert board'[i] == board[i] && board'[j] == board[j];
      }
    }
  }

  lemma ExtendPickedOrder(stats: StatsTable, guild: GuildKey, col: Column,
                          remaining: set<UserKey>, board: seq<Entry>, u: UserKey)
    requires PickedOrder(stats, guild, col, remaining, board)
    requires u in remaining
    requires forall v | v in remaining :: ValueIn(stats[(guild, v)], col) <= ValueIn(stats[(guild, u)], col)
    ensures PickedOrder(stats, guild, col, remaining - {u},
                        board + [Entry(|board| + 1, u, ValueIn(stats[(guild, u)], col))])
  {
    var e := Entry(|board| + 1, u, ValueIn(stats[(guild, u)], col));
    var board' := board + [e];
    assert forall i | 0 <= i < |board| :: board'[i] == board[i];
    forall i, j | 0 <= i < j < |board'| ensures board'[i].value >= board'[j].value {
      if j == |board| {
        assert board'[i].value == board[i].value >= ValueIn(stats[(guild, u)], col);
      } else {
        assert board'[i] == board[i] && board'[j] == board[j];
      }
    }
  }

  /** Appending a highest remaining row keeps the invariant. */
  lemma ExtendPartial(stats: StatsTable, guild: GuildKey, col: Column,
                      all: set<UserKey>, remaining: set<UserKey>, board: seq<Entry>, u: UserKey)
    requires Partial(stats, guild, col, all, remaining, board)
    requires |board| < Limit
    requires u in remaining
    requires forall v | v in remaining :: ValueIn(stats[(guild, v)], col) <= ValueIn(stats[(guild, u)], col)
    ensures Partial(stats, guild, col, all, remaining - {u},
                    board + [Entry(|board| + 1, u, ValueIn(stats[(guild, u)], col))])
  {
    ExtendPickedSets(stats, guild, all, remaining, board, Entry(|board| + 1, u, ValueIn(stats[(guild, u)], col)));
    ExtendPickedOrder(stats, guild, col, remaining, board, u);
  }

  /** When the loop stops (ten rows taken or none left) the board is the
      top list. */
  lemma FinishPartial(stats: StatsTable, guild: GuildKey, col: Column,
                      all: set<UserKey>, remaining: set<UserKey>, board: seq<Entry>)
    requires Partial(stats, guild, col, all, remaining, board)
    requires |board| >= Limit || remaining == {}
    ensures IsTopList(stats, guild, col, board)
  {
    if remaining == {} {
      assert all == Users(board);
    }
  }

  /** Picks the guild's rows one at a time, highest value first, until ten
      are taken or none is left. */
  method TopRows(stats: StatsTable, guild: GuildKey, col: Column) returns (board: seq<Entry>)
    ensures IsTopList(stats, guild, col, board)
  {
    ghost var all := GuildUsers(stats, guild);
    var remaining := GuildUsers(stats, guild);
    board := [];
    StartPartial(stats, guild, col);
    while |board| < Limit && remaining != {}
      invariant Partial(stats, guild, col, all, remaining, board)
      decreases Limit - |board|
    {
      MaxExists(stats, guild, col, remaining);
      var u :| u in remaining && forall v | v in remaining :: ValueIn(stats[(guild, v)], col) <= ValueIn(stats[(guild, u)], col);
      ExtendPartial(stats, guild, col, all, remaining, board, u);
      board := board + [Entry(|board| + 1, u, ValueIn(stats[(guild, u)], col))];
      remaining := remaining - {u};
    }
    FinishPartial(stats, guild, col, all, remaining, board);
  }

  /** What the leaderboard reads in one snapshot: the two boards, the
      count and the high score. */
  datatype View = View(contributors: seq<Entry>, losers: seq<Entry>, count: nat, highScore: nat)

  method Read(db: Counter.Db, guild: GuildKey) returns (view: View)
    ensures IsTopList(db.stats, guild, Bumps, view.contributors)
    ensures IsTopList(db.stats, guild, Losses, view.losers)
    ensures view.count == CurrentCount(db.count, guild).count
    ensures view.highScore == Counter.HighScoreOf(db, guild)
  {
    var contributors := TopRows(db.stats, guild, Bumps);
    var losers := TopRows(db.stats, guild, Losses);
    view := View(contributors, losers, CurrentCount(db.count, guild).count, Counter.HighScoreOf(db, guild));
  }
}
