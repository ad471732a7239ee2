# XP and levelling core of a Discord bot, in Dafny

The bot awards experience points (XP) to users for the messages they post in a server
(a "guild"), keeps a per-user, per-server level, and answers three slash commands:
`lvl`, its alias `rank`, and `leaderboard`. This project models the part of `index.js` that
carries that logic:

- **Message filter**: a message counts only when it was posted in a server by an author who
  is not a bot.
- **Cooldown gate**: an in-memory set of (user, server) pairs. A message whose pair is in the
  set earns nothing. An accepted message adds its pair and starts a timer that removes the
  pair again `xpCooldown` seconds later.
- **XP ledger**: the `xp` table keyed by (userId, guildId), holding `xp` and `level`. An
  award reads the row and then writes it. With no row, it inserts `xp = earned` and
  `level = 1`. With a row, it writes `xp + earned` and the formula's level for that total.
- **Side-effect decisions**: a level-up message is sent when the new level is above the stored
  one. The configured role is granted when a role is configured and the new level is
  exactly `levelsForRole`.
- **Queries**: the caller's row, or "no XP yet"; and the server's ten rows with the most XP,
  ranked 1 to 10, or "no data yet".

Modules:

- `Leveling` (`leveling.dfy`). `LevelFor(xp)` is the largest `L` with `100·L² ≤ xp`, which
  is `floor(0.1 * sqrt(xp))` computed over the integers. `Earned` is the amount drawn for a
  message.
- `Ledger` (`ledger.dfy`). It defines the table as a `map` from `Key(userId, guildId)` to
  `Record(xp, level)`. `AwardXp` is the read-modify-write as a function. `AnnouncesLevelUp`
  and `GrantsRole` are the two decisions. The lemmas state what an award does.
- `Queries` (`queries.dfy`). It holds the command replies. `IsRanking` says what
  `ORDER BY xp DESC LIMIT n` may return. `IsBoard` says what a correct leaderboard shows.
- `Bot` (`bot.dfy`). The class `XpBot` holds the cooldown set, the pending timers and the
  table, all updated in place. `HandleMessage` is the message handler. `Expire` is a timer
  firing. `JoinedKey` is the string form of a cooldown key.

The storage engine's answer is a parameter. `Store` says whether the award's read or write
failed, and `dbFails` says whether a command's lookup failed. The random draw is a parameter
too.

Behaviour the model exhibits, as the code has it:

- A first award stores level 1 even when the formula gives 0 for that total. So
  `level == LevelFor(xp)` holds after every update but not after an insert. For example, two
  awards of 5 points take the stored level from 1 down to 0, with no announcement
  (`Ledger.SecondAwardCanLowerLevel`). The invariant that does hold is `Ledger.WellFormed`:
  every row is consistent, or is still as its insert left it.
- Only an update can announce a level-up or grant the role. A first award never does, even
  when `levelsForRole` is 1.
- The role is granted only at exactly `levelsForRole`. An award that jumps past that level
  grants nothing.
- The grant does not look at the stored level. Every award whose new level equals
  `levelsForRole` grants the role again, not only the one that first reaches that level
  (`Ledger.RegrantAtSameLevel`).
- The cooldown set stores the joined string `userId-guildId`. The model keys it by the pair.
  `Bot.JoinedKeyInjective` shows that the two agree when identifiers contain no dash.
- All timers have the same delay, so they fire in the order they were set. The model keeps
  them as a queue, and `Expire` removes the oldest one.

A row's level is often described as always equal to `floor(0.1 * sqrt(xp))`. The code
inserts level 1 without applying the formula, and the model follows the code.

## Model

| member | source | states |
|---|---|---|
| `Leveling.LevelFor` | index.js:180 | the level of a total is the `L` with `100·L² ≤ xp < 100·(L+1)²` |
| `Leveling.LevelForUnique` | index.js:180 | exactly one level satisfies that bracket, so any `L` in it is `LevelFor(xp)` |
| `Leveling.LevelForMonotone` | index.js:180 | a larger total never has a lower level |
| `Leveling.LevelForSamples` | index.js:180 | levels 0 for 0, 5 and 99 points; 1 for 100, 101 and 399; 2 for 400; 10 for 10000 |
| `Leveling.Earned` | index.js:160 | `floor(random * (xpMax - xpMin + 1)) + xpMin` lies in `[xpMin, xpMax]` for every random fraction in `[0, 1)` |
| `Leveling.EarnedReachesEveryAmount` | index.js:160 | every amount in `[xpMin, xpMax]` is drawn for some random fraction |
| `Ledger.AwardXp` | index.js:162-203 | an award keeps every other row unchanged, leaves the award's key present, and inserts exactly when the key was absent |
| `Ledger.FirstAwardInserts` | index.js:169-176 | the first award for a pair adds exactly one row, `xp = earned`, `level = 1` |
| `Ledger.LaterAwardUpdates` | index.js:179-180 | an award to an existing row stores `xp + earned` and the formula's level for it, reports the stored and the new level, and leaves the row consistent |
| `Ledger.XpNeverDecreases` | index.js:179 | no award lowers any row's total or removes a row |
| `Ledger.AwardKeepsWellFormed` | index.js:169-203 | with `earned` in `[xpMin, xpMax]`, every row stays either consistent or level 1 with a single drawn amount |
| `Ledger.AnnouncesLevelUp` | index.js:183 | an insert never announces; an update announces exactly when the computed level is above the stored one (see also `Ledger.AnnounceIffLevelRises`) |
| `Ledger.AnnounceIffLevelRises` | index.js:183-187 | a level-up is announced iff the row existed and the new level is above the stored level |
| `Ledger.GrantsRole` | index.js:190 | an insert, or no configured role, never grants; otherwise the role is granted exactly when the computed level equals `levelsForRole` (see also `Ledger.GrantIffExactLevel`) |
| `Ledger.GrantIffExactLevel` | index.js:189-195 | the role is granted iff the row existed, a role is configured, and the new level equals `levelsForRole` |
| `Ledger.JumpPastThresholdGrantsNothing` | index.js:190 | going from level 3 to level 7 with the role at level 5 announces but grants nothing |
| `Ledger.RegrantAtSameLevel` | index.js:189-190 | a row already at level 5 that stays at level 5 after 5 more points does not announce but grants the level-5 role again |
| `Ledger.UpdateSamples` | index.js:179-187 | 90 + 10 points gives level 1 and announces; 100 + 1 stays at level 1 and does not |
| `Ledger.SecondAwardCanLowerLevel` | index.js:169-180 | a first award of 5 stores level 1, which the formula does not give; a second award of 5 then lowers it to 0 without an announcement |
| `Bot.JoinedKey` | index.js:154 | the cooldown key is the user id, a dash, then the server id: its prefix up to the dash is the user id and the rest is the server id |
| `Bot.JoinedKeyInjective` | index.js:154 | for user ids without a dash, equal joined keys mean equal pairs |
| `Bot.JoinedKeyCollidesWithDashes` | index.js:154 | with dashes, two different pairs share one joined key |
| `Queries.ParseCommand` | index.js:70-71 | `lvl`, `rank` and `leaderboard` each map to their own command, and every other name is ignored |
| `Queries.GuildKeys` | index.js:113-114 | the leaderboard scans exactly the rows whose server id is the current server |
| `Queries.TopKeys` | index.js:113-114 | the selection has at most `n` rows, all of them rows of the server, and its first row has the most XP; `Queries.TopKeysIsRanking` states the whole order |
| `Queries.CommandNamesAnswer` | index.js:70-122 | the names `lvl` and `rank` parse to commands that `Respond` answers identically, and `leaderboard` parses to the leaderboard reply |
| `Queries.RankReply` | index.js:93-106 | "no XP yet" iff the pair has no row; otherwise exactly that row's level and xp |
| `Queries.TopKeysIsRanking` | index.js:113-114 | the top-n selection returns `min(n, rows)` distinct rows of the server, in non-increasing xp order, with no row left out having more XP than a row shown |
| `Queries.LinesOf` | index.js:129-132 | line i carries rank i + 1 and row i's user, level and xp |
| `Queries.LeaderboardReply` | index.js:113-127 | "no data yet" iff the server has no rows; otherwise a board |
| `Queries.RankingLinesAreBoard` | index.js:113-132 | the lines of a ranking form a correct leaderboard |
| `Queries.Respond` | index.js:79-122 | "only in a server" exactly outside a server; "database error" exactly when the store fails in a server; otherwise the leaderboard gives "no data yet" or a board, and `lvl`/`rank` give "no XP yet" or a level and xp |
| `Queries.RespondGuards` | index.js:79-122 | outside a server every command gets "only in a server"; a store error gets "database error"; `rank` answers as `lvl` does |
| `Queries.RankLookup` | index.js:92-106 | the rank command gives "no XP yet" for a pair without a row, not an error, and the row's level and xp otherwise |
| `Queries.LeaderboardShowsTopTen` | index.js:113-134 | the leaderboard command gives "no data yet" iff the server has no rows, and otherwise at most ten correctly ranked lines |
| `Queries.TopTwoSample` | index.js:114 | for rows A = 50, B = 200 and C = 10, the top two are B then A |
| `Bot.Counts` | index.js:148-149 | a bot's message and a message outside a server never count; every other message does |
| `Bot.XpBot.constructor` | index.js:25-42 | the bot starts with the configured settings, no cooldowns, no timers, and the stored table |
| `Bot.XpBot.HandleMessage` | index.js:146-209 | bot authors and messages outside a server change nothing. A pair on cooldown changes nothing. An accepted message adds its pair and one timer, then applies `AwardXp` as the store allows and reports its two decisions. Table well-formedness is kept |
| `Bot.XpBot.Expire` | index.js:158 | the oldest timer fires and removes exactly its pair from the cooldown set; the table is unchanged |
| `Bot.CooldownWindow` | index.js:154-158 | a pair's first message is accepted, the next one within the cooldown is not, and after the timer fires one is accepted again |

## Left out

- The Discord client: setup, login, event registration, `safeRespond`, `deferReply` and
  `editReply`, and the two-second "still loading" timer (index.js:34-61, 77-89). These are
  calls into a foreign SDK and asynchronous I/O.
- The SQLite calls themselves and the table creation in database.js. The table is a `map`
  with the same primary key. The store's failures are the `Store` and `dbFails` parameters.
- The race between the awaited read and the later write of two awards for the same pair.
  This is a concurrency matter, and each award is modelled as one step.
- `Math.random`. The random fraction is `draw / scale` with `draw < scale`, in exact
  arithmetic. The rounding of the floating-point product is not modelled.
- `Math.sqrt` and the floating-point `0.1 *`. The level is specified over the integers as the
  largest `L` with `100·L² ≤ xp`. The two agree on totals below about 2.5·10^15. Above that,
  the rounded square root of a total just below a threshold `100·L²` can already give `L`,
  and the model does not follow that rounding.
- Bot.XpBot.constructor: `xpMin` is a natural number and `xpMin <= xpMax` is required; the
  source checks neither. With a negative `xpMin` the insert can store a negative total, and an
  update whose total is negative computes a NaN level, which the store refuses under the
  column's NOT NULL constraint (the error is logged and the row keeps its old values). With
  `xpMin > xpMax`, the draw at index.js:160 lands in `[xpMax + 1, xpMin]` instead.
- Configuration loading, the token and environment checks, the process-wide error hooks and
  `process.exit` (index.js:2-30). The settings are constructor parameters, already converted
  to integers; `roleToGive` is already an `Option`.
- The length of the cooldown, `xpCooldown`. Timers are modelled by the order in which they
  fire, not by a clock.
- Whether the configured role exists in the server's role cache, and whether the message has
  a member (index.js:191-192). The model decides the grant; the lookup is the SDK's.
- The level-up message and the role grant as actions, and the swallowing of their failures.
  They are the boolean outputs `announce` and `grantRole`.
- A message without an author (`message.author?.bot`) and the handler's catch-all
  `try`/`catch` (index.js:147, 206-208, 137-140). Messages in the model always have an author.
- `interaction.isChatInputCommand()` (index.js:68). The model starts from the command name.
- Reply texts, emoji and medals (index.js:104-106, 125, 129-134). Each reply is a constructor
  of `Queries.Reply`.
- deploy-commands.js, which registers the command descriptors, and commands/lvl.js, a stub
  with fixed values that index.js does not use.
- The order among leaderboard rows with equal xp. SQL leaves it unspecified, and
  `Queries.TopKeys` takes any row with the most XP. `Queries.IsRanking` states what every
  possible order satisfies.
