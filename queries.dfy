/** The slash commands: `lvl` and its alias `rank` look up the caller's row in the current
    server; `leaderboard` lists the server's ten rows with the most XP. */
module Queries {
  import opened Wrappers
  import opened Ledger

  datatype Command = Lvl | Rank | Leaderboard

  /** The command names the handler answers; any other name is ignored. */
  function ParseCommand(name: string): (c: Option<Command>)
    ensures c.None? <==> name != "lvl" && name != "rank" && name != "leaderboard"
    ensures c == Some(Lvl) <==> name == "lvl"
    ensures c == Some(Rank) <==> name == "rank"
    ensures c == Some(Leaderboard) <==> name == "leaderboard"
  {
    if name == "lvl" then Some(Lvl)
    else if name == "rank" then Some(Rank)
    else if name == "leaderboard" then Some(Leaderboard)
    else None
  }

  /** One leaderboard line: its 1-based rank, the user, and the row's level and xp. */
  datatype Line = Line(rank: nat, userId: string, level: nat, xp: nat)

  /** The replies, without their wording. */
  datatype Reply =
    | OnlyInServer
    | DatabaseError
    | NoXpYet
    | LevelAndXp(level: nat, xp: nat)
    | NoDataYet
    | Board(lines: seq<Line>)

  /** How many lines the leaderboard shows at most. */
  const BoardSize: nat := 10

  /** The rows of one server. */
  function GuildKeys(t: Table, g: string): (ks: set<Key>)
    ensures forall k :: k in ks <==> k in t && k.guildId == g
  {
    set k | k in t && k.guildId == g
  }

  /** A key of `ks` with the most XP (ties: any of them). */
  ghost function MaxKey(t: Table, ks: set<Key>): (m: Key)
    requires ks != {} && ks <= t.Keys
    ensures m in ks && forall j :: j in ks ==> t[j].xp <= t[m].xp
    decreases ks
  {
    var x :| x in ks;
    if ks == {x} then x
    else
      var m := MaxKey(t, ks - {x});
      if t[m].xp <= t[x].xp then x else m
  }

  /** `ks` ordered by xp, most first, cut to `n` keys: repeatedly take a key with the most XP. */
  ghost function TopKeys(t: Table, ks: set<Key>, n: nat): (rows: seq<Key>)
    requires ks <= t.Keys
    ensures |rows| <= n
    ensures forall i :: 0 <= i < |rows| ==> rows[i] in ks
    ensures 0 < n && ks != {} ==> 0 < |rows| && forall j :: j in ks ==> t[j].xp <= t[rows[0]].xp
    decreases n
  {
    if n == 0 || ks == {} then []
    else
      var m := MaxKey(t, ks);
      [m] + TopKeys(t, ks - {m}, n - 1)
  }

  /** `rows` is what "ORDER BY xp DESC LIMIT n" may return for the rows `ks`: as many as the
      limit allows, distinct, drawn from `ks`, in non-increasing xp order, and no row left out
      has more XP than a row shown. */
  ghost predicate IsRanking(t: Table, ks: set<Key>, n: nat, rows: seq<Key>)
    requires ks <= t.Keys
  {
    && |rows| == (if n < |ks| then n else |ks|)
    && (forall i :: 0 <= i < |rows| ==> rows[i] in ks)
    && (forall i, j :: 0 <= i < j < |rows| ==> rows[i] != rows[j])
    && (forall i, j :: 0 <= i < j < |rows| ==> t[rows[j]].xp <= t[rows[i]].xp)
    && (forall k, i :: k in ks && k !in rows && 0 <= i < |rows| ==> t[k].xp <= t[rows[i]].xp)
  }

  lemma {:induction false} TopKeysIsRanking(t: Table, ks: set<Key>, n: nat)
    requires ks <= t.Keys
    ensures IsRanking(t, ks, n, TopKeys(t, ks, n))
    decreases n
  {
    if n == 0 || ks == {} {
    } else {
      var m := MaxKey(t, ks);
      var rest := TopKeys(t, ks - {m}, n - 1);
      TopKeysIsRanking(t, ks - {m}, n - 1);
      var rows := [m] + rest;
      assert rows == TopKeys(t, ks, n);
      assert |ks - {m}| == |ks| - 1;
      forall i | 0 <= i < |rows| ensures rows[i] in ks {
        if i > 0 { assert rows[i] == rest[i - 1]; }
      }
      forall i, j | 0 <= i < j < |rows| ensures rows[i] != rows[j] && t[rows[j]].xp <= t[rows[i]].xp {
        assert rows[j] == rest[j - 1];
        if i > 0 { assert rows[i] == rest[i - 1]; }
      }
      forall k, i | k in ks && k !in rows && 0 <= i < |rows| ensures t[k].xp <= t[rows[i]].xp {
        assert k != m && k !in rest;
        if i > 0 { assert rows[i] == rest[i - 1]; }
      }
    }
  }

  /** The lines of the leaderboard for `rows`: line i is labelled rank i + 1. */
  function LinesOf(t: Table, rows: seq<Key>): (lines: seq<Line>)
    requires forall i :: 0 <= i < |rows| ==> rows[i] in t
    ensures |lines| == |rows|
    ensures forall i :: 0 <= i < |rows| ==>
      lines[i] == Line(i + 1, rows[i].userId, t[rows[i]].level, t[rows[i]].xp)
  {
    seq(|rows|, i requires 0 <= i < |rows| => Line(i + 1, rows[i].userId, t[rows[i]].level, t[rows[i]].xp))
  }

  /** The reply to `lvl` / `rank` in a server, once the lookup has answered. */
  function RankReply(t: Table, k: Key): (r: Reply)
    ensures r == NoXpYet <==> k !in t
    ensures r.LevelAndXp? <==> k in t
    ensures r.LevelAndXp? ==> Record(r.xp, r.level) == t[k]
  {
    if k in t then LevelAndXp(t[k].level, t[k].xp) else NoXpYet
  }

  /** The reply to `leaderboard` in server `g`, once the scan has answered. */
  ghost function LeaderboardReply(t: Table, g: string): (r: Reply)
    ensures r == NoDataYet <==> GuildKeys(t, g) == {}
    ensures r.Board? || r.NoDataYet?
  {
    var rows := TopKeys(t, GuildKeys(t, g), BoardSize);
    TopKeysIsRanking(t, GuildKeys(t, g), BoardSize);
    if rows == [] then NoDataYet else Board(LinesOf(t, rows))
  }

  /** The interaction handler for a command from `userId`, in server `guild` if any, where
      `dbFails` says whether the store reported an error. */
  ghost function Respond(t: Table, cmd: Command, userId: string, guild: Option<string>, dbFails: bool): (r: Reply)
    ensures r == OnlyInServer <==> guild.None?
    ensures r == DatabaseError <==> guild.Some? && dbFails
    ensures guild.Some? && !dbFails && cmd == Leaderboard ==> r.NoDataYet? || r.Board?
    ensures guild.Some? && !dbFails && cmd != Leaderboard ==> r.NoXpYet? || r.LevelAndXp?
  {
    if guild.None? then OnlyInServer
    else if dbFails then DatabaseError
    else if cmd == Leaderboard then LeaderboardReply(t, guild.value)
    else RankReply(t, Key(userId, guild.value))
  }

  /** Outside a server every command gets the "only in a server" reply; a store error gets the
      database-error reply; `rank` answers exactly as `lvl` does. */
  lemma RespondGuards(t: Table, cmd: Command, userId: string, guild: Option<string>, dbFails: bool)
    ensures guild.None? ==> Respond(t, cmd, userId, guild, dbFails) == OnlyInServer
    ensures guild.Some? && dbFails ==> Respond(t, cmd, userId, guild, dbFails) == DatabaseError
    ensures Respond(t, Rank, userId, guild, dbFails) == Respond(t, Lvl, userId, guild, dbFails)
  {
  }

  /** From command name to reply: `lvl` and `rank` are answered identically, and `leaderboard`
      gets the leaderboard reply. */
  lemma CommandNamesAnswer(t: Table, userId: string, g: string, dbFails: bool)
    ensures ParseCommand("lvl").Some? && ParseCommand("rank").Some?
    ensures Respond(t, ParseCommand("rank").value, userId, Some(g), dbFails)
         == Respond(t, ParseCommand("lvl").value, userId, Some(g), dbFails)
    ensures ParseCommand("leaderboard") == Some(Leaderboard)
    ensures !dbFails ==>
      Respond(t, ParseCommand("leaderboard").value, userId, Some(g), dbFails) == LeaderboardReply(t, g)
  {
  }

  /** The rank lookup: a user without a row gets "no XP yet", not an error; a user with a row
      gets exactly that row's level and xp. */
  lemma RankLookup(t: Table, userId: string, g: string)
    ensures var r := Respond(t, Lvl, userId, Some(g), false);
      && (r == NoXpYet <==> Key(userId, g) !in t)
      && (Key(userId, g) in t ==> r == LevelAndXp(t[Key(userId, g)].level, t[Key(userId, g)].xp))
  {
  }

  /** `ls` is a correct leaderboard of server `g`: as many lines as the limit allows, ranked
      1, 2, ..., each a distinct user of this server shown with that user's row, in
      non-increasing xp order, and no row of the server left out has more XP than a line shown. */
  ghost predicate IsBoard(t: Table, g: string, ls: seq<Line>) {
    var count := |GuildKeys(t, g)|;
    && |ls| == (if BoardSize < count then BoardSize else count)
    && (forall i :: 0 <= i < |ls| ==> ls[i].rank == i + 1)
    && (forall i :: 0 <= i < |ls| ==>
          Key(ls[i].userId, g) in t && t[Key(ls[i].userId, g)] == Record(ls[i].xp, ls[i].level))
    && (forall i, j :: 0 <= i < j < |ls| ==> ls[i].userId != ls[j].userId)
    && (forall i, j :: 0 <= i < j < |ls| ==> ls[j].xp <= ls[i].xp)
    && (forall k :: k in t && k.guildId == g && Unlisted(ls, k.userId) ==>
          forall i :: 0 <= i < |ls| ==> t[k].xp <= ls[i].xp)
  }

  /** No line of `ls` shows `userId`. */
  ghost predicate Unlisted(ls: seq<Line>, userId: string) {
    forall i :: 0 <= i < |ls| ==> ls[i].userId != userId
  }

  /** The lines of a ranking of a server's rows form a correct leaderboard. */
  lemma RankingLinesAreBoard(t: Table, g: string, rows: seq<Key>)
    requires GuildKeys(t, g) <= t.Keys
    requires IsRanking(t, GuildKeys(t, g), BoardSize, rows)
    ensures IsBoard(t, g, LinesOf(t, rows))
  {
    var ks := GuildKeys(t, g);
    var ls := LinesOf(t, rows);
    forall i | 0 <= i < |ls| ensures rows[i] == Key(ls[i].userId, g) {
      assert rows[i] in ks;
    }
    forall i, j | 0 <= i < j < |ls| ensures ls[i].userId != ls[j].userId {
      assert rows[i] == Key(ls[i].userId, g) && rows[j] == Key(ls[j].userId, g);
    }
    forall k | k in t && k.guildId == g && Unlisted(ls, k.userId)
      ensures forall i :: 0 <= i < |ls| ==> t[k].xp <= ls[i].xp
    {
      assert k in ks;
      forall i | 0 <= i < |rows| ensures rows[i] != k {
        assert ls[i].userId != k.userId;
      }
    }
  }

  /** The leaderboard command: "no data yet" exactly when the server has no rows, otherwise a
      correct leaderboard of at most ten lines. */
  lemma LeaderboardShowsTopTen(t: Table, userId: string, g: string)
    ensures var r := Respond(t, Leaderboard, userId, Some(g), false);
      && (r == NoDataYet <==> GuildKeys(t, g) == {})
      && (r.Board? ==> 0 < |r.lines| <= BoardSize && IsBoard(t, g, r.lines))
  {
    var ks := GuildKeys(t, g);
    TopKeysIsRanking(t, ks, BoardSize);
    RankingLinesAreBoard(t, g, TopKeys(t, ks, BoardSize));
  }

  /** The worked example: rows A = 50, B = 200 and C = 10 in one server; the two best are
      B then A. */
  lemma TopTwoSample(g: string)
    ensures var a, b, c := Key("A", g), Key("B", g), Key("C", g);
      var t := map[a := Record(50, 0), b := Record(200, 1), c := Record(10, 0)];
      TopKeys(t, GuildKeys(t, g), 2) == [b, a]
  {
    var a, b, c := Key("A", g), Key("B", g), Key("C", g);
    var t := map[a := Record(50, 0), b := Record(200, 1), c := Record(10, 0)];
    var ks := GuildKeys(t, g);
    assert ks == {a, b, c};
    var rows := TopKeys(t, ks, 2);
    assert rows[0] == b;
    TopKeysIsRanking(t, ks, 2);
    assert rows[1] == a;
  }
}
