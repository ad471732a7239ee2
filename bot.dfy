/** The message handler: the in-memory cooldown set, the timers that empty it, and the award
    that a qualifying message makes to the xp table. */
module Bot {
  import opened Wrappers
  import opened Leveling
  import opened Ledger

  datatype Author = Author(id: string, bot: bool)

  /** A posted message: its author and the server it was posted in, if any. */
  datatype Message = Message(author: Author, guild: Option<string>)

  /** A message earns XP only when it was posted in a server by a user who is not a bot. */
  predicate Counts(m: Message)
    ensures m.author.bot ==> !Counts(m)
    ensures m.guild.None? ==> !Counts(m)
    ensures m.guild.Some? && !m.author.bot ==> Counts(m)
  {
    m.guild.Some? && !m.author.bot
  }

  /** The cooldown and table key of a counting message. */
  function KeyOf(m: Message): (k: Key)
    requires m.guild.Some?
    ensures k.userId == m.author.id && k.guildId == m.guild.value
  {
    Key(m.author.id, m.guild.value)
  }

  /** The joined "userId-guildId" string the cooldown set stores. */
  function JoinedKey(userId: string, guildId: string): (s: string)
    ensures |s| == |userId| + 1 + |guildId| && s[|userId|] == '-'
    ensures s[..|userId|] == userId && s[|userId| + 1..] == guildId
  {
    userId + "-" + guildId
  }

  /** Joining is injective for identifiers without a dash (platform IDs are digit strings),
      so a set of joined strings and a set of pairs hold the same information. */
  lemma JoinedKeyInjective(u1: string, g1: string, u2: string, g2: string)
    requires '-' !in u1 && '-' !in u2
    requires JoinedKey(u1, g1) == JoinedKey(u2, g2)
    ensures u1 == u2 && g1 == g2
  {
    var s := JoinedKey(u1, g1);
    if |u1| != |u2| {
      assert false;
    }
  }

  /** With dashes allowed, two different pairs share one joined string. */
  lemma JoinedKeyCollidesWithDashes()
    ensures JoinedKey("a-b", "c") == JoinedKey("a", "b-c")
  {
  }

  /** How the store answers the award's read and then its write. */
  datatype Store = StoreOk | ReadFails | WriteFails

  class XpBot {
    const xpMin: nat
    const xpMax: int
    const levelsForRole: int
    const roleToGive: Option<string>

    /** The pairs whose cooldown has not yet expired. */
    var cooldowns: set<Key>
    /** The pending expiry timers, oldest first. Every timer has the same delay, so they fire
        in the order they were set. */
    var timers: seq<Key>
    /** The xp table. */
    var table: Table

    /** Each pair in the cooldown set has exactly one pending timer, and nothing else does. */
    ghost predicate Valid()
      reads this
    {
      && xpMin <= xpMax
      && (forall i, j :: 0 <= i < j < |timers| ==> timers[i] != timers[j])
      && (forall k :: k in cooldowns <==> k in timers)
    }

    /** The bot as it starts: the configured settings, an empty cooldown set, and the table as
        the store holds it. */
    constructor (xpMin: nat, xpMax: int, levelsForRole: int, roleToGive: Option<string>, stored: Table)
      requires xpMin <= xpMax
      ensures Valid()
      ensures this.xpMin == xpMin && this.xpMax == xpMax
      ensures this.levelsForRole == levelsForRole && this.roleToGive == roleToGive
      ensures cooldowns == {} && timers == [] && table == stored
    {
      this.xpMin, this.xpMax := xpMin, xpMax;
      this.levelsForRole, this.roleToGive := levelsForRole, roleToGive;
      cooldowns, timers, table := {}, [], stored;
    }

    /** Handles one posted message, `earned` being the amount drawn for it. `accepted` says
        whether the message passed the filter and the cooldown; `announce` and `grantRole`
        say whether the level-up message is sent and the role is granted. */
    method HandleMessage(m: Message, earned: nat, store: Store)
      returns (accepted: bool, announce: bool, grantRole: bool)
      requires Valid()
      requires xpMin <= earned <= xpMax
      modifies this
      ensures Valid()
      ensures accepted <==> Counts(m) && KeyOf(m) !in old(cooldowns)
      ensures !accepted ==>
        && cooldowns == old(cooldowns) && timers == old(timers) && table == old(table)
        && !announce && !grantRole
      ensures accepted ==>
        && cooldowns == old(cooldowns) + {KeyOf(m)}
        && timers == old(timers) + [KeyOf(m)]
      ensures accepted && store == ReadFails ==>
        table == old(table) && !announce && !grantRole
      ensures accepted && store != ReadFails ==>
        var a := AwardXp(old(table), KeyOf(m), earned);
        && table == (if store == StoreOk then a.table else old(table))
        && announce == AnnouncesLevelUp(a.change)
        && grantRole == GrantsRole(a.change, levelsForRole, roleToGive)
      ensures WellFormed(old(table), xpMin, xpMax) ==> WellFormed(table, xpMin, xpMax)
    {
      accepted, announce, grantRole := false, false, false;
      if m.guild.None? || m.author.bot {
        return;
      }
      var key := Key(m.author.id, m.guild.value);
      if key in cooldowns {
        return;
      }
      cooldowns := cooldowns + {key};
      timers := timers + [key];
      accepted := true;
      if store == ReadFails {
        return;
      }
      if key !in table {
        if store == StoreOk {
          table := table[key := Record(earned, 1)];
        }
        return;
      }
      var row := table[key];
      var newXp := row.xp + earned;
      var newLevel := LevelFor(newXp);
      announce := newLevel > row.level;
      grantRole := roleToGive.Some? && newLevel == levelsForRole;
      if store == StoreOk {
        table := table[key := Record(newXp, newLevel)];
      }
    }

    /** The oldest pending timer fires and removes its pair from the cooldown set; nothing else
        changes. */
    method Expire() returns (k: Key)
      requires Valid()
      requires timers != []
      modifies this
      ensures Valid()
      ensures k == old(timers[0]) && timers == old(timers[1..])
      ensures cooldowns == old(cooldowns) - {k}
      ensures table == old(table)
    {
      k := timers[0];
      timers := timers[1..];
      cooldowns := cooldowns - {k};
    }
  }

  /** One user in one server: the first message is accepted, a second one within the cooldown
      is not, and once the timer has fired the next one is accepted again. */
  method CooldownWindow(userId: string, guildId: string) returns (first: bool, second: bool, third: bool)
    ensures first && !second && third
  {
    var b := new XpBot(5, 7, 5, None, map[]);
    var m := Message(Author(userId, false), Some(guildId));
    var announce, grantRole;
    first, announce, grantRole := b.HandleMessage(m, 5, StoreOk);
    second, announce, grantRole := b.HandleMessage(m, 6, StoreOk);
    var expired := b.Expire();
    third, announce, grantRole := b.HandleMessage(m, 7, StoreOk);
  }
}
