/** The phrase-scoring game of `mixedcompany.ts`: saying "mixed company"
    scores a point, and the bot announces the speaker's place. */
module MixedCompany {
  import opened Basics
  import opened Decimal
  import opened Tables

  type ScoreKey = (GuildKey, UserKey)

  /** The `score` table. */
  type ScoreTable = map<ScoreKey, nat>

  /** `"guild:" + msg.guild?.id ?? ""`: the `??` applies to the whole
      concatenation, which is never nullish, so a message outside a guild
      is keyed "guild:undefined". */
  function PhraseGuildKey(guildId: Option<string>): (k: GuildKey)
    ensures guildId.Some? ==> k == GuildKeyOf(guildId.value)
    ensures guildId.None? ==> k == GuildKeyOf("undefined")
  {
    "guild:" + (if guildId.Some? then guildId.value else "undefined")
  }

  /** Two messages share a score key's guild part exactly when they come
      from the same guild, or when one comes from outside any guild and the
      other from a guild whose id is "undefined". */
  lemma PhraseGuildKeysCollide(a: Option<string>, b: Option<string>)
    ensures PhraseGuildKey(a) == PhraseGuildKey(b) <==>
            a == b || (a == None && b == Some("undefined")) || (a == Some("undefined") && b == None)
  {
    GuildKeyOfInjective(if a.Some? then a.value else "undefined", if b.Some? then b.value else "undefined");
  }

  // ---------------------------------------------------------------------
  // The trigger
  // ---------------------------------------------------------------------

  const Phrase: string := "mixed company"

  function LowerAscii(c: char): char {
    if 'A' <= c <= 'Z' then (c as int + 32) as char else c
  }

  /** The regular expression `/mixed company/i` matches at offset `i`:
      without the `u` flag, case folding only pairs ASCII letters here. */
  predicate MatchesAt(s: string, i: nat) {
    i + |Phrase| <= |s| && forall j | 0 <= j < |Phrase| :: LowerAscii(s[i + j]) == Phrase[j]
  }

  predicate ContainsPhrase(s: string) {
    exists i: nat | i + |Phrase| <= |s| :: MatchesAt(s, i)
  }

  /** A triggering message still triggers inside any longer message. */
  lemma PhraseSurvivesContext(prefix: string, s: string, suffix: string)
    requires ContainsPhrase(s)
    ensures ContainsPhrase(prefix + s + suffix)
  {
    var i: nat :| i + |Phrase| <= |s| && MatchesAt(s, i);
    var t := prefix + s + suffix;
    forall j | 0 <= j < |Phrase| ensures LowerAscii(t[|prefix| + i + j]) == Phrase[j] {
      assert t[|prefix| + i + j] == s[i + j];
      assert MatchesAt(s, i);
    }
    assert MatchesAt(t, |prefix| + i);
  }

  /** Matching ignores the case of ASCII letters. */
  lemma PhraseIgnoresCase()
    ensures ContainsPhrase("Mixed Company")
    ensures ContainsPhrase("MIXED COMPANY")
  {
    assert MatchesAt("Mixed Company", 0);
    assert MatchesAt("MIXED COMPANY", 0);
  }

  // ---------------------------------------------------------------------
  // Counting rows
  // ---------------------------------------------------------------------

  /** The rows, of every guild, whose score is strictly greater than `s`:
      the place query counts these. */
  function Ahead(scores: ScoreTable, s: nat): set<ScoreKey> {
    set k | k in scores.Keys && scores[k] > s
  }

  /** The rows, of every guild, whose score equals `s`: the tie query
      counts these. */
  function AtScore(scores: ScoreTable, s: nat): set<ScoreKey> {
    set k | k in scores.Keys && scores[k] == s
  }

  /** The same two counts restricted to one guild. */
  function AheadInGuild(scores: ScoreTable, guild: GuildKey, s: nat): set<ScoreKey> {
    set k | k in scores.Keys && k.0 == guild && scores[k] > s
  }

  function AtScoreInGuild(scores: ScoreTable, guild: GuildKey, s: nat): set<ScoreKey> {
    set k | k in scores.Keys && k.0 == guild && scores[k] == s
  }

  lemma {:induction false} SubsetSmaller<T>(a: set<T>, b: set<T>)
    requires a <= b
    ensures |a| <= |b|
    decreases |b|
  {
    if a != {} {
      var x :| x in a;
      SubsetSmaller(a - {x}, b - {x});
    }
  }

  lemma StrictSubsetSmaller<T>(a: set<T>, b: set<T>, x: T)
    requires a <= b && x in b && x !in a
    ensures |a| < |b|
  {
    SubsetSmaller(a, b - {x});
  }

  /** Two distinct members make a set of at least two. */
  lemma TwoMembers<T>(s: set<T>, x: T, y: T)
    requires x in s && y in s && x != y
    ensures |s| >= 2
  {
    SubsetSmaller({x, y}, s);
  }

  // ---------------------------------------------------------------------
  // The transaction as written
  // ---------------------------------------------------------------------

  /** The four values the transaction returns: `[score, place + 1, moved, tied]`. */
  datatype Rank = Rank(score: nat, place: nat, moved: bool, tied: bool)

  /** The transaction of `onMessage` as written. A user without a row
      makes `.score` read a property of `undefined`, which throws and rolls
      the transaction back. `oldPlace` is `-Infinity` (here `None`) when the
      old score is falsy. Both counts run over every guild, and `tied` is
      `COUNT(*) == 0` taken after the user's own row holds the new score. */
  function Transaction(scores: ScoreTable, key: ScoreKey): (r: Result<(ScoreTable, Rank)>)
    ensures r.Thrown? <==> key !in scores
    ensures r.Ok? ==> var (scores', rank) := r.value;
              && key in scores' && scores'[key] == scores[key] + 1
              && scores' - {key} == scores - {key}
              && rank.score == scores'[key]
              && rank.place == |Ahead(scores', rank.score)| + 1
              && (rank.moved <==> scores[key] == 0 || |Ahead(scores, scores[key])| != |Ahead(scores', rank.score)|)
              && !rank.tied
  {
    if key !in scores then
      Thrown("TypeError: Cannot read properties of undefined (reading 'score')")
    else
      var oldScore := scores[key];
      var oldPlace: Option<nat> := if oldScore != 0 then Some(|Ahead(scores, oldScore)|) else None;
      var scores' := scores[key := oldScore + 1];
      var score := scores'[key];
      var place := |Ahead(scores', score)|;
      var tied := |AtScore(scores', score)|;
      assert key in AtScore(scores', score);
      Ok((scores', Rank(score, place + 1, oldPlace != Some(place), tied == 0)))
  }

  /** The place is between 1 and the number of rows: the user's own row is
      never ahead of itself. */
  lemma PlaceWithinTable(scores: ScoreTable, key: ScoreKey)
    requires key in scores
    ensures var (scores', rank) := Transaction(scores, key).value;
            1 <= rank.place <= |scores'|
  {
    var (scores', rank) := Transaction(scores, key).value;
    assert Ahead(scores', rank.score) <= scores'.Keys;
    StrictSubsetSmaller(Ahead(scores', rank.score), scores'.Keys, key);
  }

  /** With every other row fixed, a higher score never gives a worse place. */
  lemma PlaceNonIncreasing(scores: ScoreTable, key: ScoreKey, s1: nat, s2: nat)
    requires s1 <= s2
    ensures |Ahead(scores[key := s2], s2)| <= |Ahead(scores[key := s1], s1)|
  {
    SubsetSmaller(Ahead(scores[key := s2], s2), Ahead(scores[key := s1], s1));
  }

  /** `moved` means the user climbed: for a user who already had points it
      is true exactly when fewer rows are ahead than before, and it never
      reports a fall. */
  lemma MovedMeansClimbed(scores: ScoreTable, key: ScoreKey)
    requires key in scores && scores[key] > 0
    ensures var (scores', rank) := Transaction(scores, key).value;
            && |Ahead(scores', rank.score)| <= |Ahead(scores, scores[key])|
            && (rank.moved <==> |Ahead(scores', rank.score)| < |Ahead(scores, scores[key])|)
  {
    var (scores', rank) := Transaction(scores, key).value;
    SubsetSmaller(Ahead(scores', rank.score), Ahead(scores, scores[key]));
  }

  /** Finding: the as-written `tied` is never true, even when another user
      holds the same new score. */
  lemma TiedNeverReported(scores: ScoreTable, key: ScoreKey, other: ScoreKey)
    requires key in scores && other in scores && other != key
    requires scores[other] == scores[key] + 1
    ensures var (scores', rank) := Transaction(scores, key).value;
            other in AtScore(scores', rank.score) && !rank.tied
  {
  }

  /** Finding: a user's first trigger always throws, so a table that starts
      empty stays empty. */
  lemma FirstTriggerThrows(guild: GuildKey, user: UserKey)
    ensures Transaction(map[], (guild, user)).Thrown?
  {
  }

  /** Finding: the place counts rows of other guilds, so a single foreign
      row ahead pushes the user below the place their own guild gives. */
  lemma ForeignRowsWorsenPlace(scores: ScoreTable, key: ScoreKey, foreign: ScoreKey)
    requires key in scores && foreign in scores && foreign.0 != key.0
    requires scores[foreign] > scores[key] + 1
    ensures var (scores', rank) := Transaction(scores, key).value;
            rank.place > |AheadInGuild(scores', key.0, rank.score)| + 1
  {
    var (scores', rank) := Transaction(scores, key).value;
    StrictSubsetSmaller(AheadInGuild(scores', key.0, rank.score), Ahead(scores', rank.score), foreign);
  }

  // ---------------------------------------------------------------------
  // The transaction as evidently intended
  // ---------------------------------------------------------------------

  /** The transaction with a missing row read as score 0 (the `-Infinity`
      sentinel already anticipates it), the counts restricted to the
      user's guild, and `tied` meaning someone else shares the score. */
  function IntendedTransaction(scores: ScoreTable, key: ScoreKey): (r: (ScoreTable, Rank))
    ensures var oldScore := if key in scores then scores[key] else 0;
            var (scores', rank) := r;
            && key in scores' && scores'[key] == oldScore + 1
            && scores' - {key} == scores - {key}
            && rank.score == oldScore + 1
            && rank.place == |AheadInGuild(scores', key.0, rank.score)| + 1
            && (rank.moved <==> oldScore == 0
                                || |AheadInGuild(scores', key.0, rank.score)| < |AheadInGuild(scores, key.0, oldScore)|)
            && (rank.tied <==> exists k | k in scores' && k.0 == key.0 && k != key :: scores'[k] == rank.score)
  {
    var oldScore := if key in scores then scores[key] else 0;
    var oldPlace: Option<nat> := if oldScore != 0 then Some(|AheadInGuild(scores, key.0, oldScore)|) else None;
    var scores' := scores[key := oldScore + 1];
    var score := oldScore + 1;
    var place := |AheadInGuild(scores', key.0, score)|;
    var same := AtScoreInGuild(scores', key.0, score);
    SubsetSmaller(AheadInGuild(scores', key.0, score), AheadInGuild(scores, key.0, oldScore));
    assert key in same;
    assert (exists k | k in scores' && k.0 == key.0 && k != key :: scores'[k] == score) <==> |same| > 1 by {
      if exists k | k in scores' && k.0 == key.0 && k != key :: scores'[k] == score {
        var k :| k in scores' && k.0 == key.0 && k != key && scores'[k] == score;
        TwoMembers(same, key, k);
      } else {
        SubsetSmaller(same, {key});
      }
    }
    (scores', Rank(score, place + 1, oldPlace != Some(place), |same| > 1))
  }

  /** Corrected half of the findings: rows of other guilds never change the
      intended place or tie. */
  lemma IntendedIgnoresOtherGuilds(scores: ScoreTable, key: ScoreKey, foreign: ScoreKey, s: nat)
    requires foreign.0 != key.0
    ensures IntendedTransaction(scores[foreign := s], key).1 == IntendedTransaction(scores - {foreign}, key).1
  {
    var a := scores[foreign := s];
    var b := scores - {foreign};
    var oldScore := if key in a then a[key] else 0;
    assert oldScore == if key in b then b[key] else 0;
    assert AheadInGuild(a, key.0, oldScore) == AheadInGuild(b, key.0, oldScore);
    var a' := a[key := oldScore + 1];
    var b' := b[key := oldScore + 1];
    assert AheadInGuild(a', key.0, oldScore + 1) == AheadInGuild(b', key.0, oldScore + 1);
    assert AtScoreInGuild(a', key.0, oldScore + 1) == AtScoreInGuild(b', key.0, oldScore + 1);
  }

  /** Corrected half of the first finding: a first trigger scores 1 point. */
  lemma IntendedFirstTriggerScores(scores: ScoreTable, key: ScoreKey)
    requires key !in scores
    ensures IntendedTransaction(scores, key).0[key] == 1
    ensures IntendedTransaction(scores, key).1.moved
  {
  }

  // ---------------------------------------------------------------------
  // Presentation
  // ---------------------------------------------------------------------

  function OrdinalSuffix(last: char): string {
    if last == '1' then "st" else if last == '2' then "nd" else if last == '3' then "rd" else "th"
  }

  /** `numberSuffix(n)`: the number followed by a suffix chosen from
      `n % 10` alone, so 11 becomes "11st". */
  function NumberSuffix(n: nat): (s: string)
    ensures |s| == |NatToDecimal(n)| + 2 && s[..|NatToDecimal(n)|] == NatToDecimal(n)
  {
    NatToDecimal(n) + (if n % 10 == 1 then "st" else if n % 10 == 2 then "nd" else if n % 10 == 3 then "rd" else "th")
  }

  /** The suffix depends only on the final digit of the text. */
  lemma SuffixFollowsLastDigit(n: nat)
    ensures var t := NatToDecimal(n);
            NumberSuffix(n) == t + OrdinalSuffix(t[|t| - 1])
  {
    var t := NatToDecimal(n);
    assert t[|t| - 1] == DigitChar(n % 10);
  }

  lemma TeensTakeDigitSuffix()
    ensures NumberSuffix(11) == "11st"
    ensures NumberSuffix(12) == "12nd"
    ensures NumberSuffix(13) == "13rd"
  {
    assert NatToDecimal(11) == "11";
    assert NatToDecimal(12) == "12";
    assert NatToDecimal(13) == "13";
  }

  /** `plural(n)`. */
  function Plural(n: nat): (r: string)
    ensures r == "" <==> n == 1
    ensures r != "" ==> r == "s"
  {
    if n == 1 then "" else "s"
  }

  /** `placeString`. */
  function PlaceText(place: nat): string {
    if place == 1 then "the lead" else NumberSuffix(place) + " place"
  }

  /** "the lead" is said for first place and for nothing else. */
  lemma LeadOnlyForFirst(place: nat)
    ensures PlaceText(place) == "the lead" <==> place == 1
  {
    if place != 1 {
      var t := NatToDecimal(place);
      assert PlaceText(place)[0] == t[0];
      assert IsDigit(t[0]);
    }
  }

  /** Different places are announced differently. */
  lemma PlaceTextInjective(p: nat, q: nat)
    ensures PlaceText(p) == PlaceText(q) <==> p == q
  {
    LeadOnlyForFirst(p);
    LeadOnlyForFirst(q);
    if p != 1 && q != 1 && PlaceText(p) == PlaceText(q) {
      var a, b := NumberSuffix(p), NumberSuffix(q);
      assert a == PlaceText(p)[..|PlaceText(p)| - 6] && b == PlaceText(q)[..|PlaceText(q)| - 6];
      assert NatToDecimal(p) == a[..|a| - 2] && NatToDecimal(q) == b[..|b| - 2];
      TextInjective(p, q);
    }
  }

  datatype Shape = Took | TiedFor | IsIn

  function ShapeOf(moved: bool, tied: bool): Shape {
    if moved then Took else if tied then TiedFor else IsIn
  }

  /** The wording rule: "took" exactly when the place moved, "is tied for"
      exactly when it did not move and is tied, "is in" otherwise. */
  lemma ShapeOfChoice(moved: bool, tied: bool)
    ensures ShapeOf(moved, tied) == Took <==> moved
    ensures ShapeOf(moved, tied) == TiedFor <==> !moved && tied
    ensures ShapeOf(moved, tied) == IsIn <==> !moved && !tied
  {
  }

  function Verb(shape: Shape): string {
    match shape
    case Took => "took"
    case TiedFor => "is tied for"
    case IsIn => "is in"
  }

  lemma ThreeParts(a: string, b: string, c: string)
    ensures var m := a + b + c;
            && m[..|a|] == a && m[|a|..|m| - |c|] == b && m[|m| - |c|..] == c
  {
  }

  /** The announcement text; `nickname` is whatever the member lookup
      produced (it may be "undefined"). */
  function Announcement(nickname: string, rank: Rank): (m: string)
    ensures |m| > |nickname|
    ensures m[..|nickname|] == nickname
    ensures m[|m| - 1] == 's' <==> rank.score != 1
    ensures var lead := nickname + " " + Verb(ShapeOf(rank.moved, rank.tied)) + " ";
            |m| > |lead| && m[..|lead|] == lead
    ensures var tail := " with " + NatToDecimal(rank.score) + " point" + Plural(rank.score);
            |m| > |tail| && m[|m| - |tail|..] == tail
    ensures var lead := nickname + " " + Verb(ShapeOf(rank.moved, rank.tied)) + " ";
            var tail := " with " + NatToDecimal(rank.score) + " point" + Plural(rank.score);
            |lead| + |tail| <= |m| && m[|lead|..|m| - |tail|] == PlaceText(rank.place)
  {
    var lead := nickname + " " + Verb(ShapeOf(rank.moved, rank.tied)) + " ";
    var tail := " with " + NatToDecimal(rank.score) + " point" + Plural(rank.score);
    ThreeParts(lead, PlaceText(rank.place), tail);
    assert lead[..|nickname|] == nickname;
    lead + PlaceText(rank.place) + tail
  }

  /** A reader of the announcement can tell the wording apart: the words
      after the nickname begin with "took" exactly when the place moved,
      with "is tied for" exactly when it did not move but is tied, and with
      "is in" otherwise. */
  lemma AnnouncementRevealsShape(nickname: string, rank: Rank)
    ensures var m := Announcement(nickname, rank);
            var k := |nickname| + 1;
            && |m| >= k + 11
            && (m[k..k + 4] == "took" <==> rank.moved)
            && (m[k..k + 11] == "is tied for" <==> !rank.moved && rank.tied)
            && (m[k..k + 5] == "is in" <==> !rank.moved && !rank.tied)
  {
    var m := Announcement(nickname, rank);
    var k := |nickname| + 1;
    var verb := Verb(ShapeOf(rank.moved, rank.tied));
    var lead := nickname + " " + verb + " ";
    assert |PlaceText(rank.place)| >= 8;
    assert |m| >= |lead| + 8;
    assert forall i | k <= i < k + |verb| :: m[i] == verb[i - k] by {
      forall i | k <= i < k + |verb| ensures m[i] == verb[i - k] {
        assert m[i] == m[..|lead|][i] == lead[i];
      }
    }
    if rank.moved {
      assert m[k..k + 4] == verb;
      assert m[k] != "is tied for"[0] && m[k] != "is in"[0];
    } else if rank.tied {
      assert m[k..k + 11] == verb;
      assert m[k] != "took"[0] && m[k + 3] != "is in"[3];
    } else {
      assert m[k..k + 5] == verb;
      assert m[k] != "took"[0] && m[k + 3] != "is tied for"[3];
    }
  }

  /** Because `tied` is never true, the as-written game never says
      "is tied for". */
  lemma NeverAnnouncesTie(scores: ScoreTable, key: ScoreKey)
    requires key in scores
    ensures ShapeOf(Transaction(scores, key).value.1.moved, Transaction(scores, key).value.1.tied) != TiedFor
  {
  }

  /** What the as-written game says on a handled trigger: never "is tied
      for", and always the user's new score, one more than before. */
  lemma AnnouncedAsWritten(scores: ScoreTable, guildId: Option<string>, authorId: string,
                           content: string, nickname: string)
    requires ContainsPhrase(content)
    requires (PhraseGuildKey(guildId), UserKeyOf(authorId)) in scores
    ensures var r := OnMessage(scores, guildId, authorId, content, nickname);
            var before := scores[(PhraseGuildKey(guildId), UserKeyOf(authorId))];
            var tail := " with " + NatToDecimal(before + 1) + " point" + Plural(before + 1);
            var k := |nickname| + 1;
            && r.Ok? && r.value.announcement.Some?
            && var m := r.value.announcement.value;
            && |m| >= k + 11 && m[k..k + 11] != "is tied for"
            && |m| > |tail| && m[|m| - |tail|..] == tail
  {
    var key := (PhraseGuildKey(guildId), UserKeyOf(authorId));
    var rank := Transaction(scores, key).value.1;
    NeverAnnouncesTie(scores, key);
    AnnouncementRevealsShape(nickname, rank);
  }

  // ---------------------------------------------------------------------
  // onMessage
  // ---------------------------------------------------------------------

  /** `onMessage` returning normally: whether the message was handled, the
      committed table, and the announcement sent. */
  datatype Handling = Handling(handled: bool, scores: ScoreTable, announcement: Option<string>)

  /** `onMessage(msg)`. A thrown transaction rejects the call and leaves
      the table as it was. */
  function OnMessage(scores: ScoreTable, guildId: Option<string>, authorId: string,
                     content: string, nickname: string): (r: Result<Handling>)
    ensures !ContainsPhrase(content) ==> r == Ok(Handling(false, scores, None))
    ensures var key := (PhraseGuildKey(guildId), UserKeyOf(authorId));
            ContainsPhrase(content) ==>
              && (r.Thrown? <==> key !in scores)
              && (r.Ok? ==> && r.value.handled && r.value.announcement.Some?
                            && key in r.value.scores && r.value.scores[key] == scores[key] + 1
                            && r.value.scores - {key} == scores - {key}
                            && r.value.announcement == Some(Announcement(nickname, Transaction(scores, key).value.1)))
  {
    if !ContainsPhrase(content) then Ok(Handling(false, scores, None))
    else
      var key := (PhraseGuildKey(guildId), UserKeyOf(authorId));
      match Transaction(scores, key)
      case Thrown(e) => Thrown(e)
      case Ok((scores', rank)) => Ok(Handling(true, scores', Some(Announcement(nickname, rank))))
  }

  datatype ChatMessage = ChatMessage(guildId: Option<string>, authorId: string, content: string, nickname: string)

  /** The table after a sequence of messages; a rejected call leaves it
      unchanged. */
  function Feed(scores: ScoreTable, msgs: seq<ChatMessage>): ScoreTable
    decreases |msgs|
  {
    if |msgs| == 0 then scores
    else
      var m := msgs[0];
      match OnMessage(scores, m.guildId, m.authorId, m.content, m.nickname)
      case Thrown(_) => Feed(scores, msgs[1..])
      case Ok(h) => Feed(h.scores, msgs[1..])
  }

  /** Finding: no message ever adds a row, so a table that starts empty
      stays empty and nobody ever scores. */
  lemma {:induction false} FeedNeverAddsRows(scores: ScoreTable, msgs: seq<ChatMessage>)
    ensures Feed(scores, msgs).Keys == scores.Keys
    decreases |msgs|
  {
    if |msgs| > 0 {
      var m := msgs[0];
      match OnMessage(scores, m.guildId, m.authorId, m.content, m.nickname)
      case Thrown(_) =>
        FeedNeverAddsRows(scores, msgs[1..]);
      case Ok(h) =>
        var key := (PhraseGuildKey(m.guildId), UserKeyOf(m.authorId));
        if ContainsPhrase(m.content) {
          assert h.scores.Keys == scores.Keys by {
            assert forall k | k in h.scores :: k == key || k in h.scores - {key};
            assert forall k | k in scores :: k == key || k in scores - {key};
          }
        }
        FeedNeverAddsRows(h.scores, msgs[1..]);
    }
  }
}
