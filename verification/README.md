# squawkbot game-state engine in Dafny

squawkbot is a Discord bot with two chat games.

**Counting.** Players in a channel take turns posting the next number. An external evaluator turns each message into a guess string. One transaction (`incr`) then classifies the guess as `bump`, `record`, `ignore` or `loss`. The same transaction updates three tables:
- `count`: the guild's count and the last user who bumped it;
- `stats`: per user, the number of bumps and losses;
- `high_score`: the guild's highest count.

A read-side `leaderboard` lists the top ten users by bumps and the top ten by losses. The bot reacts to each guess. A bump that creates a new "69" in the number's digits earns an extra "NICE".

**Mixed company.** Saying "mixed company" scores a point. The bot announces the speaker's place.

This project models those engines as pure functions over immutable maps:
- each SQLite table is a `map` keyed the way its primary key is;
- each transaction is one step function that returns the result and the committed tables.

Modules:
- `Basics`: `Option`, `Result` (a value, or a thrown exception's message), `nonNulls`.
- `Decimal`: `NatToDecimal` (`Number.prototype.toString` on integral values) and the proof that a string is the text of `n` exactly when it is canonical decimal text of value `n`.
- `Tables`: the `count` and `stats` tables shared by both counting engines, their zero-state reads, the repeat and match rules, and the two upserts.
- `Counter`: `incr` of `src/counter.ts`, runs of guesses, and the invariants those runs keep.
- `Leaderboard`: the `ORDER BY … DESC LIMIT 10` selection, as a method that picks rows highest first.
- `Reactions`: the `niceness` scan and `evalMessage`'s outcome-to-reaction choice.
- `LegacyCounter`: `incr` of `src/index.ts`, the three-outcome predecessor. Includes its agreement with the newer engine.
- `MixedCompany`: the trigger, the transaction as written, a corrected transaction, and the presentation helpers.

Rows are keyed by the source's prefixed keys `"guild:<id>"` and `"user:<id>"`. The entry points `Reactions.EvalMessage` and `MixedCompany.OnMessage` build these keys. Outside a guild, the mixed-company key is `"guild:undefined"`, because `??` applies to the whole concatenation.

## Where the code departs from the game's evident rules

The model follows the code in each case:
- A guild's very first correct guess "1" is a `record`, not a `bump`. A missing high-score row reads as 0, and 1 > 0 (`Counter.FreshGuildFirstGuessIsRecord`).
- Mixed-company places and ties are counted over the rows of every guild, not just the speaker's.
- `tied` is never true.
- A user with no score row cannot score (see Findings).
- Leaderboard rows with equal values come in whatever order SQLite returns. The model allows any order among ties.

## Model

| member | source | states |
|---|---|---|
| Basics.NonNulls | src/counter.ts:22-28 | the result is no longer than the input; it holds exactly the values of the non-null entries |
| Basics.NonNullsAppend | src/counter.ts:22-28 | filtering distributes over concatenation, so kept values keep their order |
| Basics.NonNullsKeepsAllWhenNoNulls | src/counter.ts:22-28 | a list with no nulls is returned entry for entry |
| Decimal.NatToDecimal | src/counter.ts:91 | `(count + 1).toString()` is canonical decimal text; it starts with '0' only for 0 |
| Decimal.DecimalValueOfText | src/counter.ts:91 | reading back the text of n gives n |
| Decimal.TextOfDecimalValue | src/counter.ts:91 | every canonical decimal string is the text of the number it denotes |
| Decimal.DecimalTextIff | src/counter.ts:91 | s is the text of n exactly when s is canonical decimal text with value n, in both directions |
| Decimal.TextInjective | src/counter.ts:91 | distinct counts have distinct texts |
| Tables.AddBump | src/counter.ts:101-104 | the user's row exists afterwards; bumps rise by one from the zero default (a new row is 1/0); loss is kept; no other row changes |
| Tables.AddLoss | src/counter.ts:132-135 | the user's row exists afterwards; loss rises by one from the zero default (a new row is 0/1); bumps are kept; no other row changes |
| Tables.GuildKeyOfInjective | src/counter.ts:75 | different guild ids give different row keys |
| Counter.Incr | src/counter.ts:73-140 | returns the count before the call; only the guild's count and high-score rows and the guesser's stats row can change; the high score never drops; ignore exactly when the repeat guard fires or a wrong guess meets count 0, and then nothing changes; bump or record exactly when there is no repeat and the guess is the text of count+1; record exactly when count+1 also exceeds the old high score; a match advances the count, records the user as lastbumped, adds a bump and sets the high score to the max; a loss resets to (0, null), adds a loss and leaves the high score alone |
| Counter.GuessCountsIffCanonicalSuccessor | src/counter.ts:91 | unless the repeat guard fires, a guess counts exactly when it is canonical decimal text of count+1 |
| Counter.NonCanonicalNeverCounts | src/counter.ts:91 | text that is not canonical decimal never counts |
| Counter.ZeroPaddedAndSignedGuessesNeverCount | src/counter.ts:91 | "007", "+3" and "1/2" never count |
| Counter.FreshGuildFirstGuessIsRecord | src/counter.ts:80-120 | with no rows, the guild reads count 0 and, through the `?.count \|\| 0` read, high score 0; so the first "1" is a record with previous count 0, and the high score becomes 1 |
| Counter.TyingHighScoreIsBumpPassingIsRecord | src/counter.ts:106-120 | reaching exactly the old high score 5 is a bump; reaching 6 next is a record |
| Counter.IncrKeepsConsistent | src/counter.ts:87-138 | each transaction keeps count <= high score and keeps lastbumped set exactly when count > 0 |
| Counter.RunKeepsConsistent | src/counter.ts:73-140 | those invariants hold after any sequence of guesses |
| Counter.HighScoreNeverDecreases | src/counter.ts:106-112 | no guild's high score decreases over any sequence of guesses |
| Counter.RepeatGuardNeedsPositiveCount | src/counter.ts:87-90 | in a consistent state the repeat guard only fires at a positive count |
| Leaderboard.TopRows | src/counter.ts:178-196 | the list has min(10, guild rows) entries, numbered from 1; every entry is a distinct row of the requested guild with its value; values do not increase down the list; no omitted row of the guild beats a listed one |
| Tables.CurrentCountReadsRow | src/counter.ts:60-69 | `currentCount` returns the guild's row when it has one and (0, null) otherwise; a last bumper is only ever read from a stored row |
| Leaderboard.Read | src/counter.ts:174-198 | both boards are such top lists (by bumps and by losses); the count reads 0 without a row; the high score reads 0 without a row |
| Reactions.NicenessScan | src/counter.ts:12-20 | the left-to-right scan equals the number of "69" pairs in the decimal text |
| Reactions.Pairs69PositiveIff | src/counter.ts:12-20 | niceness is positive exactly when "69" occurs in the text |
| Reactions.Pairs69AtMostHalf | src/counter.ts:12-20 | pairs cannot overlap, so there are at most half as many as digits |
| Reactions.SingleDigitsAreNotNice | src/counter.ts:12-20 | single-digit values have niceness 0 |
| Reactions.Respond | src/counter.ts:234-263 | record, ignore and loss each get exactly one reaction (horns, eyes, thumbs-down); a bump gets thumbs-up, followed by N, I, C, E in that order exactly when the new count is nicer than the previous one; the loserboard reply happens exactly on a loss and names the previous count |
| Reactions.SixtyNineIsNice | src/counter.ts:236-243 | bumping from 68 to 69 gives thumbs-up plus N, I, C, E |
| Reactions.EvalMessage | src/counter.ts:212-263 | a message outside a guild throws; an evaluator failure drops the message with no change and no reaction; otherwise the guess's transaction is committed and the reactions are those for that transaction's outcome and previous count |
| Reactions.EvalReactionsFollowGuess | src/counter.ts:233-263 | a handled guess starts with thumbs-up or horns exactly when it is the next number and not a repeat; it gets horns exactly when it also passes the guild's high score; the loserboard names the positive count that was broken |
| LegacyCounter.Incr | src/index.ts:45-96 | the same branch order and table effects as the newer engine, with only bump, ignore and loss, and no high score |
| LegacyCounter.FreshGuildReadsZero | src/index.ts:32-41 | a guild without a count row reads (0, null): a wrong guess is ignored and changes nothing, and "1" is a bump |
| LegacyCounter.IncrAgrees | src/index.ts:45-96 | on the same count and stats tables, both engines give the same outcome (record read as bump), the same previous count and the same tables |
| LegacyCounter.RunsAgree | src/index.ts:45-96 | the agreement holds over any sequence of guesses |
| MixedCompany.PhraseGuildKey | src/mixedcompany.ts:57 | a guild message is keyed by its guild id; a message outside any guild is keyed as a guild with id "undefined" |
| MixedCompany.PhraseGuildKeysCollide | src/mixedcompany.ts:57 | two messages get the same guild key exactly when they come from the same guild, or one comes from outside any guild and the other from a guild whose id is "undefined" |
| MixedCompany.PhraseSurvivesContext | src/mixedcompany.ts:55 | a message containing the phrase still triggers inside any longer message |
| MixedCompany.PhraseIgnoresCase | src/mixedcompany.ts:55 | "Mixed Company" and "MIXED COMPANY" trigger |
| MixedCompany.Transaction | src/mixedcompany.ts:65-104 | throws exactly when the user has no row; otherwise the user's score rises by one and nothing else changes; place is 1 + the rows of all guilds strictly ahead; moved is true when the old score was falsy or the ahead-count changed; tied is false |
| MixedCompany.PlaceWithinTable | src/mixedcompany.ts:91-94 | the place is between 1 and the number of rows |
| MixedCompany.PlaceNonIncreasing | src/mixedcompany.ts:91-94 | with the other rows fixed, a higher score never gives a worse place |
| MixedCompany.MovedMeansClimbed | src/mixedcompany.ts:70-103 | for a user who already had points, the ahead-count never grows, and moved holds exactly when it shrank |
| MixedCompany.TiedNeverReported | src/mixedcompany.ts:96-103 | even when another row holds the same new score, tied is false |
| MixedCompany.FirstTriggerThrows | src/mixedcompany.ts:66-68 | a user's first trigger throws |
| MixedCompany.ForeignRowsWorsenPlace | src/mixedcompany.ts:91-94 | a row of another guild ahead of the user pushes the place below the user's place within the guild |
| MixedCompany.IntendedTransaction | src/mixedcompany.ts:65-104 | corrected: a missing row reads 0 and a new row starts at 1; nothing else changes; place counts the guild's rows ahead; moved holds exactly for a first score or a climb; tied holds exactly when another row of the guild shares the score |
| MixedCompany.IntendedIgnoresOtherGuilds | src/mixedcompany.ts:91-99 | corrected: adding, changing or removing another guild's row never changes the result |
| MixedCompany.IntendedFirstTriggerScores | src/mixedcompany.ts:76-82 | corrected: a first trigger creates a row with score 1 and counts as moved |
| MixedCompany.NumberSuffix | src/mixedcompany.ts:18-26 | the text starts with the number and adds a two-letter suffix |
| MixedCompany.SuffixFollowsLastDigit | src/mixedcompany.ts:18-26 | the suffix is chosen by the last digit alone: 1 gives st, 2 gives nd, 3 gives rd, anything else gives th |
| MixedCompany.TeensTakeDigitSuffix | src/mixedcompany.ts:18-26 | 11, 12 and 13 become "11st", "12nd" and "13rd" |
| MixedCompany.Plural | src/mixedcompany.ts:28-30 | the plural ending is empty exactly for 1, and "s" otherwise |
| MixedCompany.LeadOnlyForFirst | src/mixedcompany.ts:109-111 | the place text is "the lead" exactly for place 1 |
| MixedCompany.PlaceTextInjective | src/mixedcompany.ts:109-111 | different places always get different place texts |
| MixedCompany.ShapeOfChoice | src/mixedcompany.ts:115-121 | the wording is "took" exactly when the place moved, "is tied for" exactly when it did not move but is tied, and "is in" otherwise |
| MixedCompany.Announcement | src/mixedcompany.ts:109-121 | the message starts with the nickname, a space, the chosen wording and a space; next comes the place text ("the lead", or the ordinal and " place"); it ends with " with ", the score's digits and "point", plus "s" exactly when the score is not 1 |
| MixedCompany.AnnouncementRevealsShape | src/mixedcompany.ts:115-121 | whatever the nickname, the words after it begin with "took", "is tied for" or "is in" exactly in the moved, tied and other cases |
| MixedCompany.NeverAnnouncesTie | src/mixedcompany.ts:113-121 | because tied is never true, the "is tied for" wording is never chosen |
| MixedCompany.AnnouncedAsWritten | src/mixedcompany.ts:53-125 | when a user with a row triggers, the message sent never says "is tied for" and ends with the user's new score, one more than before |
| MixedCompany.OnMessage | src/mixedcompany.ts:53-127 | without the phrase it returns false and changes nothing; with it, it throws exactly when the user has no row, and otherwise it returns true, raises only the user's score by one, and announces that transaction's rank |
| MixedCompany.FeedNeverAddsRows | src/mixedcompany.ts:65-104 | no sequence of messages adds a row, so a table that starts empty stays empty |

## Left out

- Discord plumbing is left out:
  - channel discovery (`activeChannels`), `statusMessage` and `onInteraction`;
  - command registration;
  - sending messages and posting reactions (the model returns the reactions and the announcement instead).
- The `onMessage` filter of src/counter.ts:272-280 is left out. It checks that the channel is a counting channel and that the author is not the bot, and both are Discord state.
- Nickname lookup is external. `MixedCompany.Announcement` takes the nickname as a parameter.
- MixedCompany.OnMessage: the nickname lookup (src/mixedcompany.ts:106-107) and the channel send (src/mixedcompany.ts:123) can fail after the score transaction has committed. `onMessage` then rejects with the score already raised. The model has no failure after the commit: a rejected call always leaves the table as it was, and `MixedCompany.Feed` relies on this.
- The evaluator HTTP call is left out. Its result is an `Option<string>`: `None` for an Axios error.
- Errors other than Axios errors, which the source rethrows, are not modelled.
- A non-string value from the evaluator is not modelled. The source would compare it with `===`, so it never matches.
- SQLite and `better-sqlite3` are left out. Each transaction is one atomic step over maps, with no concurrency; the source runs each transaction synchronously.
- The final string assembly of the leaderboard and loserboard (src/counter.ts:153-163, 190-207) is left out, because it needs the external nickname lookup.
- Leaderboard.Read: the source reads the count at src/counter.ts:198, outside the leaderboard transaction. The model reads one snapshot.
- Decimal.NatToDecimal: counts are unbounded naturals. JavaScript numbers are exact only below 2^53, and `toString` switches to exponent form from 10^21.
- MixedCompany.NumberSuffix: takes a natural, and so does MixedCompany.Announcement. Their only callers pass a place of at least 1 and a score of at least 1. Negative or fractional arguments, and JavaScript's truncating `%` on them, are not modelled.
- The `index.ts` versions of `leaderboard`, `loserboard` and `evalMessage` are not modelled. They are string assembly and I/O around `incr`.
- The duplicate `nonNulls` in src/mixedcompany.ts:10-16 is modelled once, as `Basics.NonNulls`.
- `debug` logging is not modelled.
- src/cli.ts and cli.js only parse options. `--allow-repeats` becomes the `allowRepeats` parameter.
- src/types.ts holds only declarations.
- src/storage.py is table creation only.
- src/botListener.py and src/main.rs are stubs.

## Findings

| source | as written | input that shows it | evidently intended | confidence | as-written member | corrected member |
|---|---|---|---|---|---|---|
| src/mixedcompany.ts:66-68 | `.score` is read from the row lookup without `?.`, so a user with no row throws and the transaction rolls back | an empty `score` table and any user saying "mixed company" | a missing row reads as 0; the insert at lines 76-82 then creates the row with score 1 (the `-Infinity` sentinel at line 74 already expects a falsy old score) | high; not executed | MixedCompany.FirstTriggerThrows | MixedCompany.IntendedFirstTriggerScores |
| src/mixedcompany.ts:96-103 | `tied` is `COUNT(*) == 0` over rows at the new score, counted after the user's own row holds it, so it is always false | A has 2 points, B has 1; B triggers; both now have 2, and tied is false | tied when another row shares the new score | high; not executed | MixedCompany.TiedNeverReported | MixedCompany.IntendedTransaction |
| src/mixedcompany.ts:91-94 | the place query has no guild filter, so rows of other guilds count | guild 1 has a row at 5; the user, alone in guild 2, reaches 2 and is told "2nd place" | place among the rows of the user's own guild, the table's key scope | medium; not executed | MixedCompany.ForeignRowsWorsenPlace | MixedCompany.IntendedIgnoresOtherGuilds |

`MixedCompany.OnMessage` still uses the transaction as written. `MixedCompany.IntendedTransaction` is the corrected transaction, and its contract proves the intended properties.
