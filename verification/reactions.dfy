/** `evalMessage` of `counter.ts`: how an evaluated message becomes a guess,
    and how the guess's outcome becomes reactions. Includes the `niceness`
    digit scan behind the extra "NICE" reactions. */
module Reactions {
  import opened Basics
  import opened Decimal
  import opened Tables
  import Counter

  /** The number of positions `i` with `s[i] == '6'` and `s[i+1] == '9'`. */
  function Pairs69(s: string): nat
    decreases |s|
  {
    if |s| < 2 then 0
    else (if s[0] == '6' && s[1] == '9' then 1 else 0) + Pairs69(s[1..])
  }

  /** `niceness(x)`, stated over the decimal text `x + ""`. */
  function Niceness(x: nat): nat {
    Pairs69(NatToDecimal(x))
  }

  /** `niceness`'s left-to-right scan of the decimal text. */
  method NicenessScan(x: nat) returns (nice: nat)
    ensures nice == Pairs69(NatToDecimal(x))
  {
    nice := 0;
    var xs := NatToDecimal(x);
    var i := 0;
    while i + 1 < |xs|
      invariant i < |xs|
      invariant nice + Pairs69(xs[i..]) == Pairs69(xs)
      decreases |xs| - i
    {
      assert xs[i..][1..] == xs[i + 1..];
      if xs[i] == '6' && xs[i + 1] == '9' {
        nice := nice + 1;
      }
      i := i + 1;
    }
  }

  /** The count is positive exactly when "69" occurs in the text. */
  lemma {:induction false} Pairs69PositiveIff(s: string)
    ensures Pairs69(s) > 0 <==> exists i | 0 <= i < |s| - 1 :: s[i] == '6' && s[i + 1] == '9'
    decreases |s|
  {
    if |s| >= 2 {
      Pairs69PositiveIff(s[1..]);
      if s[0] != '6' || s[1] != '9' {
        if exists i | 0 <= i < |s| - 1 :: s[i] == '6' && s[i + 1] == '9' {
          var i :| 0 <= i < |s| - 1 && s[i] == '6' && s[i + 1] == '9';
          assert s[1..][i - 1] == '6' && s[1..][i] == '9';
        }
        if exists j | 0 <= j < |s| - 2 :: s[1..][j] == '6' && s[1..][j + 1] == '9' {
          var j :| 0 <= j < |s| - 2 && s[1..][j] == '6' && s[1..][j + 1] == '9';
          assert s[j + 1] == '6' && s[j + 2] == '9';
        }
      }
    }
  }

  /** Occurrences of "69" cannot overlap, so there are at most |s|/2. */
  lemma {:induction false} Pairs69AtMostHalf(s: string)
    ensures 2 * Pairs69(s) <= |s|
    decreases |s|
  {
    if |s| >= 2 {
      if s[0] == '6' && s[1] == '9' {
        if |s| >= 3 {
          assert s[1..][1..] == s[2..];
        }
        Pairs69AtMostHalf(s[2..]);
      } else {
        Pairs69AtMostHalf(s[1..]);
      }
    }
  }

  /** Single-digit values are never nice. */
  lemma SingleDigitsAreNotNice(x: nat)
    requires x < 10
    ensures Niceness(x) == 0
  {
  }

  datatype Reaction = ThumbsUp | LetterN | LetterI | LetterC | LetterE | Horns | Eyes | ThumbsDown

  const Nice: seq<Reaction> := [LetterN, LetterI, LetterC, LetterE]

  /** The reactions to a handled guess, and the count at which the guesser
      "RUINED IT" when the reply carries the loserboard. */
  datatype Response = Response(reactions: seq<Reaction>, ruinedAt: Option<nat>)

  /** The `switch (result)` of `evalMessage`. */
  function Respond(outcome: Counter.Outcome, prevCount: nat): (r: Response)
    ensures |r.reactions| >= 1
    ensures r.ruinedAt.Some? <==> outcome == Counter.Loss
    ensures r.ruinedAt.Some? ==> r.ruinedAt.value == prevCount
    ensures r.reactions[0] == match outcome
                              case Bump => ThumbsUp
                              case Record => Horns
                              case Ignore => Eyes
                              case Loss => ThumbsDown
    ensures LetterN in r.reactions <==> outcome == Counter.Bump && Niceness(prevCount + 1) > Niceness(prevCount)
    ensures |r.reactions| == (if outcome == Counter.Bump && Niceness(prevCount + 1) > Niceness(prevCount) then 5 else 1)
    ensures |r.reactions| == 5 ==> r.reactions[1..] == Nice
  {
    match outcome
    case Bump =>
      Response([ThumbsUp] + (if Niceness(prevCount + 1) > Niceness(prevCount) then Nice else []), None)
    case Record => Response([Horns], None)
    case Ignore => Response([Eyes], None)
    case Loss => Response([ThumbsDown], Some(prevCount))
  }

  /** Reaching 69 from 68 earns the NICE letters. */
  lemma SixtyNineIsNice()
    ensures Respond(Counter.Bump, 68).reactions == [ThumbsUp] + Nice
  {
    assert NatToDecimal(69) == "69";
    assert NatToDecimal(68) == "68";
  }

  /** `evalMessage(msg)`. A message outside any guild throws; an evaluator
      error (`evalResult == None`) drops the message with no reaction;
      otherwise the evaluated text is the guess. */
  function EvalMessage(db: Counter.Db, guildId: Option<string>, authorId: string,
                       evalResult: Option<string>, allowRepeats: bool): (r: Result<(Counter.Db, Response)>)
    ensures r.Thrown? <==> guildId.None?
    ensures r.Ok? && evalResult.None? ==> r.value == (db, Response([], None))
    ensures r.Ok? && evalResult.Some? ==>
              var step := Counter.Incr(db, GuildKeyOf(guildId.value), UserKeyOf(authorId), evalResult.value, allowRepeats);
              r.value.0 == step.db && r.value.1 == Respond(step.outcome, step.prevCount)
  {
    if guildId.None? then Thrown("count on message without guild")
    else if evalResult.None? then Ok((db, Response([], None)))
    else
      var step := Counter.Incr(db, GuildKeyOf(guildId.value), UserKeyOf(authorId), evalResult.value, allowRepeats);
      Ok((step.db, Respond(step.outcome, step.prevCount)))
  }

  /** A handled guess is answered with thumbs-up or horns exactly when it
      counts, with horns exactly when it sets a new high score, and the
      loserboard names the count the guesser broke. */
  lemma EvalReactionsFollowGuess(db: Counter.Db, guild: string, authorId: string, guess: string, allowRepeats: bool)
    ensures var r := EvalMessage(db, Some(guild), authorId, Some(guess), allowRepeats);
            var row := CurrentCount(db.count, GuildKeyOf(guild));
            var user := UserKeyOf(authorId);
            && r.Ok?
            && (r.value.1.reactions[0] in {ThumbsUp, Horns} <==> !IsRepeat(row, user, allowRepeats) && IsMatch(row, guess))
            && (r.value.1.reactions[0] == Horns <==>
                  !IsRepeat(row, user, allowRepeats) && IsMatch(row, guess)
                  && row.count + 1 > Counter.HighScoreOf(db, GuildKeyOf(guild)))
            && (r.value.1.ruinedAt.Some? ==> r.value.1.ruinedAt.value == row.count && row.count > 0)
  {
    var step := Counter.Incr(db, GuildKeyOf(guild), UserKeyOf(authorId), guess, allowRepeats);
    var resp := Respond(step.outcome, step.prevCount);
    assert resp.reactions[0] in {ThumbsUp, Horns} <==> step.outcome in {Counter.Bump, Counter.Record};
  }
}
