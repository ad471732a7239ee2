/** The xp table and the read-modify-write that a qualifying message performs on it.

    The table has one row per (userId, guildId) pair, which is its primary key, holding the
    pair's `xp` total and stored `level`. A row is created by the first award for its pair
    and updated in place by every later one; this core never deletes a row. */
module Ledger {
  import opened Wrappers
  import opened Leveling

  /** The table's primary key. */
  datatype Key = Key(userId: string, guildId: string)

  /** The non-key columns of one row. */
  datatype Record = Record(xp: nat, level: nat)

  type Table = map<Key, Record>

  /** What an award did to the row of its key. An update carries the level read from the
      row, the level computed from the new total, and that new total. */
  datatype Change =
    | Inserted
    | Updated(oldLevel: nat, newLevel: nat, newXp: nat)

  datatype Award = Award(table: Table, change: Change)

  /** One award of `earned` points to `k`: a new row starts at `earned` points and level 1
      whatever the formula says; an existing row gets the sum and the formula's level. */
  function AwardXp(t: Table, k: Key, earned: nat): (a: Award)
    ensures a.table.Keys == t.Keys + {k}
    ensures forall j :: j in t && j != k ==> a.table[j] == t[j]
    ensures a.change.Inserted? <==> k !in t
  {
    if k !in t then
      Award(t[k := Record(earned, 1)], Inserted)
    else
      var newXp := t[k].xp + earned;
      var newLevel := LevelFor(newXp);
      Award(t[k := Record(newXp, newLevel)], Updated(t[k].level, newLevel, newXp))
  }

  /** The level-up announcement: only an update announces, and only when the computed level
      is above the stored one. */
  predicate AnnouncesLevelUp(c: Change)
    ensures c.Inserted? ==> !AnnouncesLevelUp(c)
    ensures c.Updated? ==> (AnnouncesLevelUp(c) <==> c.oldLevel < c.newLevel)
  {
    c.Updated? && c.newLevel > c.oldLevel
  }

  /** The role grant: only an update grants, only when a role is configured, and only when
      the computed level is exactly the configured one. */
  predicate GrantsRole(c: Change, levelsForRole: int, roleToGive: Option<string>)
    ensures c.Inserted? || roleToGive.None? ==> !GrantsRole(c, levelsForRole, roleToGive)
    ensures c.Updated? && roleToGive.Some? ==>
      (GrantsRole(c, levelsForRole, roleToGive) <==> c.newLevel == levelsForRole)
  {
    c.Updated? && roleToGive.Some? && c.newLevel == levelsForRole
  }

  /** A row whose stored level is what the formula gives for its total. */
  predicate Consistent(r: Record) {
    r.level == LevelFor(r.xp)
  }

  /** Every row is either consistent or still as its insert left it: level 1 and a total that
      is a single amount drawn from [xpMin, xpMax]. */
  predicate WellFormed(t: Table, xpMin: int, xpMax: int) {
    forall k :: k in t ==> Consistent(t[k]) || (t[k].level == 1 && xpMin <= t[k].xp <= xpMax)
  }

  /** The first award for a pair creates exactly one row, with xp = earned and level 1. */
  lemma FirstAwardInserts(t: Table, k: Key, earned: nat)
    requires k !in t
    ensures AwardXp(t, k, earned).table == t[k := Record(earned, 1)]
    ensures |AwardXp(t, k, earned).table| == |t| + 1
  {
  }

  /** An award to an existing row adds the points, recomputes the level from the new total,
      and reports the stored level beside the new one. */
  lemma LaterAwardUpdates(t: Table, k: Key, earned: nat)
    requires k in t
    ensures var a := AwardXp(t, k, earned);
      && a.table[k] == Record(t[k].xp + earned, LevelFor(t[k].xp + earned))
      && a.change == Updated(t[k].level, a.table[k].level, a.table[k].xp)
      && Consistent(a.table[k])
      && |a.table| == |t|
  {
    assert AwardXp(t, k, earned).table.Keys == t.Keys;
  }

  /** No award lowers any row's total, and no row disappears. */
  lemma XpNeverDecreases(t: Table, k: Key, earned: nat)
    ensures forall j :: j in t ==> j in AwardXp(t, k, earned).table && t[j].xp <= AwardXp(t, k, earned).table[j].xp
  {
  }

  /** Awards with amounts from [xpMin, xpMax] keep every row well formed. */
  lemma AwardKeepsWellFormed(t: Table, k: Key, earned: nat, xpMin: int, xpMax: int)
    requires WellFormed(t, xpMin, xpMax)
    requires xpMin <= earned <= xpMax
    ensures WellFormed(AwardXp(t, k, earned).table, xpMin, xpMax)
  {
  }

  /** A level-up is announced exactly when the formula's level for the new total is above the
      level stored in the row; the first award never announces. */
  lemma AnnounceIffLevelRises(t: Table, k: Key, earned: nat)
    ensures AnnouncesLevelUp(AwardXp(t, k, earned).change)
        <==> k in t && LevelFor(t[k].xp + earned) > t[k].level
  {
  }

  /** The role is granted exactly when a role is configured and the new level equals the
      configured one; the first award never grants it. */
  lemma GrantIffExactLevel(t: Table, k: Key, earned: nat, levelsForRole: int, roleToGive: Option<string>)
    ensures GrantsRole(AwardXp(t, k, earned).change, levelsForRole, roleToGive)
        <==> k in t && roleToGive.Some? && LevelFor(t[k].xp + earned) == levelsForRole
  {
  }

  /** Jumping past the configured level in one award grants nothing: level 3 to level 7 with
      the role configured for level 5. */
  lemma JumpPastThresholdGrantsNothing(k: Key, role: string)
    ensures var t := map[k := Record(900, 3)];
      var a := AwardXp(t, k, 4000);
      && a.change == Updated(3, 7, 4900)
      && AnnouncesLevelUp(a.change)
      && !GrantsRole(a.change, 5, Some(role))
  {
    LevelForUnique(4900, 7);
  }

  /** The grant ignores the stored level: a row already at level 5 that stays there after 5 more
      points is granted the level-5 role again, with no announcement. */
  lemma RegrantAtSameLevel(k: Key, role: string)
    ensures var a := AwardXp(map[k := Record(2500, 5)], k, 5);
      && a.change == Updated(5, 5, 2505)
      && !AnnouncesLevelUp(a.change)
      && GrantsRole(a.change, 5, Some(role))
  {
    LevelForUnique(2505, 5);
  }

  /** The worked updates: 90 + 10 reaches level 1 and announces it; 100 + 1 stays at level 1
      and announces nothing. */
  lemma UpdateSamples(k: Key)
    ensures var a := AwardXp(map[k := Record(90, 0)], k, 10);
      a.table[k] == Record(100, 1) && AnnouncesLevelUp(a.change)
    ensures var a := AwardXp(map[k := Record(100, 1)], k, 1);
      a.table[k] == Record(101, 1) && !AnnouncesLevelUp(a.change)
  {
    LevelForUnique(100, 1);
    LevelForUnique(101, 1);
  }

  /** The inserted level is not the formula's: a first award of 5 points stores level 1 for a
      total whose level is 0, and a second award of 5 points then lowers the stored level from
      1 to 0 without any announcement. */
  lemma SecondAwardCanLowerLevel(k: Key)
    ensures var first := AwardXp(map[], k, 5);
      var second := AwardXp(first.table, k, 5);
      && first.table[k] == Record(5, 1)
      && !Consistent(first.table[k])
      && second.table[k] == Record(10, 0)
      && second.change == Updated(1, 0, 10)
      && !AnnouncesLevelUp(second.change)
  {
    LevelForUnique(5, 0);
    LevelForUnique(10, 0);
  }
}
