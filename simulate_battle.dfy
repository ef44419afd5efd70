/** The battle simulator: rounds in which the living units of both armies attack in
    descending order of base attack. After any attack that leaves the attacker or its
    target dead, the order is recomputed and starts again from the strongest, so a unit may
    attack twice in a round and another not at all. Dead units are removed from the armies
    at the end of each round, until one army has no living unit left.

    Units are numbered; `health[u]` is the current health of unit `u` (a number without an
    entry denotes no living unit). What an attack does is external: it is the caller's
    `strike` function, which maps the healths before the attack and the attacker to the
    healths after it and the target it chose. */
module SimulateBattle {
  import opened Basics
  import Ranking

  type UnitId = nat

  /** An army's unit list: null, or references that may themselves be null. */
  type UnitList = Option<seq<Option<UnitId>>>

  /** The external `Army`: only its unit list, which the simulator cleans up in place. */
  class Army {
    var units: UnitList
  }

  /** One call of the external `PrintBattleLog`: the attacker and the target it returned. */
  datatype Attack = Attack(attacker: UnitId, target: Option<UnitId>)

  /** The external `PrintBattleLog`: the calls it has received, in order. */
  class BattleLog {
    var entries: seq<Attack>

    method PrintBattleLog(attacker: UnitId, target: Option<UnitId>)
      modifies this
      ensures entries == old(entries) + [Attack(attacker, target)]
    {
      entries := entries + [Attack(attacker, target)];
    }
  }

  /** `unit.getProgram().attack()`: healths after the attack, and the target (maybe null). */
  type Strike = (seq<int>, UnitId) -> (seq<int>, Option<UnitId>)

  // ---------------------------------------------------------------------------------------
  // Living units

  /** `isAlive()` of unit `u`. */
  predicate Alive(health: seq<int>, u: UnitId) {
    u < |health| && health[u] > 0
  }

  /** A list entry holding a living unit. */
  predicate AliveEntry(health: seq<int>, e: Option<UnitId>) {
    e.Some? && Alive(health, e.value)
  }

  /** `hasAliveUnits` of an army whose list is `units`. */
  predicate HasAlive(units: UnitList, health: seq<int>) {
    units.Some? && exists i :: 0 <= i < |units.value| && AliveEntry(health, units.value[i])
  }

  /** The living units of a list, in list order. */
  function AliveOf(units: seq<Option<UnitId>>, health: seq<int>): seq<UnitId> {
    if units == [] then []
    else
      var n := |units| - 1;
      AliveOf(units[..n], health) + (if AliveEntry(health, units[n]) then [units[n].value] else [])
  }

  function AliveIn(units: UnitList, health: seq<int>): seq<UnitId> {
    if units.None? then [] else AliveOf(units.value, health)
  }

  lemma {:induction false} AliveOfMeaning(units: seq<Option<UnitId>>, health: seq<int>, u: UnitId)
    ensures u in AliveOf(units, health) <==> Some(u) in units && Alive(health, u)
  {
    if units != [] {
      var n := |units| - 1;
      AliveOfMeaning(units[..n], health, u);
      assert units == units[..n] + [units[n]];
    }
  }

  lemma {:induction false} AliveOfAppend(a: seq<Option<UnitId>>, b: seq<Option<UnitId>>, health: seq<int>)
    ensures AliveOf(a + b, health) == AliveOf(a, health) + AliveOf(b, health)
  {
    if b != [] {
      var n := |b| - 1;
      assert (a + b)[..|a + b| - 1] == a + b[..n];
      AliveOfAppend(a, b[..n], health);
    } else {
      assert a + b == a;
    }
  }

  /** An army has a living unit exactly when its list of living units is not empty. */
  lemma HasAliveMeaning(units: UnitList, health: seq<int>)
    ensures HasAlive(units, health) <==> AliveIn(units, health) != []
  {
    if units.Some? {
      var s := units.value;
      if HasAlive(units, health) {
        var i :| 0 <= i < |s| && AliveEntry(health, s[i]);
        AliveOfMeaning(s, health, s[i].value);
      }
      if AliveIn(units, health) != [] {
        var u := AliveOf(s, health)[0];
        AliveOfMeaning(s, health, u);
        var i :| 0 <= i < |s| && s[i] == Some(u);
        assert AliveEntry(health, s[i]);
      }
    }
  }

  /** `hasAliveUnits`: false for a null army or a null list, else whether a non-null entry
      is alive. */
  method HasAliveUnits(army: Army?, health: seq<int>) returns (r: bool)
    ensures r == (army != null && HasAlive(army.units, health))
  {
    if army == null || army.units.None? {
      return false;
    }
    var units := army.units.value;
    for i := 0 to |units|
      invariant forall j :: 0 <= j < i ==> !AliveEntry(health, units[j])
    {
      if units[i].Some? && Alive(health, units[i].value) {
        return true;
      }
    }
    return false;
  }

  // ---------------------------------------------------------------------------------------
  // The turn order

  /** `getBaseAttack()` of unit `u`. */
  function Power(baseAttack: seq<int>, u: UnitId): int {
    if u < |baseAttack| then baseAttack[u] else 0
  }

  /** Units are ordered by base attack only: `Comparator.comparingInt(getBaseAttack).reversed()`. */
  function AttackKey(baseAttack: seq<int>): UnitId -> Ranking.Key {
    (u: UnitId) => Ranking.Key(Power(baseAttack, u) as real, 0.0)
  }

  /** `getSortedAliveUnits`: the living units of the player's army, then the computer's,
      stably sorted by descending base attack. */
  function TurnOrder(player: UnitList, computer: UnitList, health: seq<int>, baseAttack: seq<int>): seq<UnitId> {
    Ranking.Sort(Fighters(player, computer, health), AttackKey(baseAttack))
  }

  /** The living units of both lists, the player's first: what the turn order sorts. */
  function Fighters(player: UnitList, computer: UnitList, health: seq<int>): seq<UnitId> {
    AliveIn(player, health) + AliveIn(computer, health)
  }

  /** The turn order holds exactly the living units of both lists, each as often as the lists
      hold it. */
  lemma TurnOrderMembers(player: UnitList, computer: UnitList, health: seq<int>, baseAttack: seq<int>)
    ensures multiset(TurnOrder(player, computer, health, baseAttack)) == multiset(Fighters(player, computer, health))
    ensures forall u :: u in TurnOrder(player, computer, health, baseAttack) <==> u in Fighters(player, computer, health)
  {
    var order, all := TurnOrder(player, computer, health, baseAttack), Fighters(player, computer, health);
    Ranking.SortPermutes(all, AttackKey(baseAttack));
    forall u
      ensures u in order <==> u in all
    {
      assert u in order <==> u in multiset(order);
      assert u in all <==> u in multiset(all);
    }
  }

  /** The turn order runs by non-increasing base attack, and units of equal base attack keep
      their list order (the player's units first). */
  lemma TurnOrderSorted(player: UnitList, computer: UnitList, health: seq<int>, baseAttack: seq<int>)
    ensures var order := TurnOrder(player, computer, health, baseAttack);
      forall i, j :: 0 <= i < j < |order| ==> Power(baseAttack, order[i]) >= Power(baseAttack, order[j])
    ensures forall k :: Ranking.WithKey(TurnOrder(player, computer, health, baseAttack), AttackKey(baseAttack), k)
                        == Ranking.WithKey(Fighters(player, computer, health), AttackKey(baseAttack), k)
  {
    var order, all := TurnOrder(player, computer, health, baseAttack), Fighters(player, computer, health);
    Ranking.SortSorted(all, AttackKey(baseAttack));
    forall i, j | 0 <= i < j < |order|
      ensures Power(baseAttack, order[i]) >= Power(baseAttack, order[j])
    {
      assert Ranking.AtLeast(AttackKey(baseAttack)(order[i]), AttackKey(baseAttack)(order[j]));
    }
    forall k
      ensures Ranking.WithKey(order, AttackKey(baseAttack), k) == Ranking.WithKey(all, AttackKey(baseAttack), k)
    {
      Ranking.SortStable(all, AttackKey(baseAttack), k);
    }
  }

  /** Every unit of the turn order is alive, and the order is empty only when neither list
      has a living unit. */
  lemma TurnOrderAlive(player: UnitList, computer: UnitList, health: seq<int>, baseAttack: seq<int>)
    ensures forall i :: 0 <= i < |TurnOrder(player, computer, health, baseAttack)| ==>
      Alive(health, TurnOrder(player, computer, health, baseAttack)[i])
    ensures TurnOrder(player, computer, health, baseAttack) == [] <==>
      !HasAlive(player, health) && !HasAlive(computer, health)
  {
    var order := TurnOrder(player, computer, health, baseAttack);
    var all := Fighters(player, computer, health);
    TurnOrderMembers(player, computer, health, baseAttack);
    forall i | 0 <= i < |order|
      ensures Alive(health, order[i])
    {
      assert order[i] in all;
      if order[i] in AliveIn(player, health) {
        AliveOfMeaning(player.value, health, order[i]);
      } else {
        AliveOfMeaning(computer.value, health, order[i]);
      }
    }
    HasAliveMeaning(player, health);
    HasAliveMeaning(computer, health);
    assert |order| == |all|;
  }

  /** Three units with base attacks 5, 9, 5: the strongest goes first, and the two of equal
      attack keep their list order. */
  lemma TurnOrderExample()
    ensures TurnOrder(Some([Some(0), None, Some(1)]), Some([Some(2)]), [10, 10, 10], [5, 9, 5])
      == [1, 0, 2]
  {
    ExampleFighters();
    ExampleSort();
  }

  lemma ExampleFighters()
    ensures Fighters(Some([Some(0), None, Some(1)]), Some([Some(2)]), [10, 10, 10]) == [0, 1, 2]
  {
    var health := [10, 10, 10];
    assert [Some(0), None, Some(1)][..2] == [Some(0), None];
    assert [Some(0), None][..1] == [Some(0)];
    assert [Some(0)][..0] == [];
    assert AliveOf([Some(0)], health) == [0];
    assert AliveOf([Some(0), None], health) == [0];
    assert [Some(2)][..0] == [];
  }

  lemma ExampleSort()
    ensures Ranking.Sort<UnitId>([0, 1, 2], AttackKey([5, 9, 5])) == [1, 0, 2]
  {
    var key: UnitId -> Ranking.Key := AttackKey([5, 9, 5]);
    assert key(0) == Ranking.Key(5.0, 0.0) && key(1) == Ranking.Key(9.0, 0.0) && key(2) == Ranking.Key(5.0, 0.0);
    assert Ranking.Sort<UnitId>([2], key) == [2] by {
      assert [2][1..] == [];
    }
    assert Ranking.Sort<UnitId>([1, 2], key) == Ranking.Insert<UnitId>(1, [2], key) == [1, 2] by {
      assert [1, 2][1..] == [2];
    }
    assert Ranking.Insert<UnitId>(0, [2], key) == [0, 2];
    assert Ranking.Insert<UnitId>(0, [1, 2], key) == [1] + Ranking.Insert<UnitId>(0, [2], key) by {
      assert [1, 2][1..] == [2];
    }
    assert Ranking.Sort<UnitId>([0, 1, 2], key) == Ranking.Insert<UnitId>(0, [1, 2], key) by {
      assert [0, 1, 2][1..] == [1, 2];
    }
  }

  /** `getSortedAliveUnits`: collects the living units of both armies and sorts them. */
  method GetSortedAliveUnits(playerArmy: Army, computerArmy: Army, health: seq<int>, baseAttack: seq<int>)
    returns (allUnits: seq<UnitId>)
    ensures allUnits == TurnOrder(playerArmy.units, computerArmy.units, health, baseAttack)
  {
    allUnits := [];
    if playerArmy.units.Some? {
      var units := playerArmy.units.value;
      for i := 0 to |units|
        invariant allUnits == AliveOf(units[..i], health)
      {
        assert units[..i + 1][..i] == units[..i];
        if units[i].Some? && Alive(health, units[i].value) {
          allUnits := allUnits + [units[i].value];
        }
      }
      assert units[..|units|] == units;
    }
    ghost var fromPlayer := allUnits;
    if computerArmy.units.Some? {
      var units := computerArmy.units.value;
      for i := 0 to |units|
        invariant allUnits == fromPlayer + AliveOf(units[..i], health)
      {
        assert units[..i + 1][..i] == units[..i];
        if units[i].Some? && Alive(health, units[i].value) {
          allUnits := allUnits + [units[i].value];
        }
      }
      assert units[..|units|] == units;
    }
    assert allUnits == Fighters(playerArmy.units, computerArmy.units, health);
    allUnits := Ranking.Sort(allUnits, AttackKey(baseAttack));
  }

  // ---------------------------------------------------------------------------------------
  // Removing the dead

  /** The cleanup the rest of the simulator evidently intends: keep exactly the non-null
      living entries, in order. */
  function RemoveDead(units: seq<Option<UnitId>>, health: seq<int>): seq<Option<UnitId>> {
    if units == [] then []
    else
      var n := |units| - 1;
      RemoveDead(units[..n], health) + (if AliveEntry(health, units[n]) then [units[n]] else [])
  }

  /** `removeIf(unit -> !unit.isAlive())` as written: the predicate dereferences every entry,
      so a null entry throws before anything is removed; without one it removes the dead. */
  function RemoveDeadAsWritten(units: seq<Option<UnitId>>, health: seq<int>): (r: Result<seq<Option<UnitId>>>)
    ensures r.Throws? <==> None in units
    ensures r.Ok? ==> r.value == RemoveDead(units, health)
  {
    if None in units then Throws(NullPointerException) else Ok(RemoveDead(units, health))
  }

  /** The cleanup of one army list: a null list is left alone. */
  function Cleaned(units: UnitList, health: seq<int>): UnitList {
    if units.None? then None else Some(RemoveDead(units.value, health))
  }

  /** The units wrapped back into list entries. */
  function Entries(us: seq<UnitId>): seq<Option<UnitId>> {
    if us == [] then [] else Entries(us[..|us| - 1]) + [Some(us[|us| - 1])]
  }

  /** The cleaned list is the list of living units, in their original order. */
  lemma {:induction false} RemoveDeadKeepsLiving(units: seq<Option<UnitId>>, health: seq<int>)
    ensures RemoveDead(units, health) == Entries(AliveOf(units, health))
  {
    if units != [] {
      var n := |units| - 1;
      RemoveDeadKeepsLiving(units[..n], health);
      var before := AliveOf(units[..n], health);
      if AliveEntry(health, units[n]) {
        var after := before + [units[n].value];
        assert after[..|after| - 1] == before;
        assert Entries(after) == Entries(before) + [units[n]];
      } else {
        assert AliveOf(units, health) == before;
      }
    }
  }

  lemma {:induction false} RemoveDeadAppend(a: seq<Option<UnitId>>, b: seq<Option<UnitId>>, health: seq<int>)
    ensures RemoveDead(a + b, health) == RemoveDead(a, health) + RemoveDead(b, health)
  {
    if b != [] {
      var n := |b| - 1;
      assert (a + b)[..|a + b| - 1] == a + b[..n];
      RemoveDeadAppend(a, b[..n], health);
    } else {
      assert a + b == a;
    }
  }

  /** After a cleanup no entry is null or dead, and every living entry is kept. */
  lemma {:induction false} RemoveDeadMembers(units: seq<Option<UnitId>>, health: seq<int>)
    ensures forall e :: e in RemoveDead(units, health) <==> e in units && AliveEntry(health, e)
  {
    if units != [] {
      var n := |units| - 1;
      RemoveDeadMembers(units[..n], health);
      assert units == units[..n] + [units[n]];
    }
  }

  /** A cleanup loses no living unit and keeps their order. */
  lemma {:induction false} RemoveDeadSameAlive(units: seq<Option<UnitId>>, health: seq<int>)
    ensures AliveOf(RemoveDead(units, health), health) == AliveOf(units, health)
  {
    if units != [] {
      var n := |units| - 1;
      RemoveDeadSameAlive(units[..n], health);
      var rest := RemoveDead(units[..n], health);
      var last := if AliveEntry(health, units[n]) then [units[n]] else [];
      AliveOfAppend(rest, last, health);
      assert AliveOf(last, health) == (if AliveEntry(health, units[n]) then [units[n].value] else []) by {
        if last != [] {
          assert last[..0] == [];
        }
      }
    }
  }

  /** Cleaning again changes nothing. */
  lemma RemoveDeadIdempotent(units: seq<Option<UnitId>>, health: seq<int>)
    ensures RemoveDead(RemoveDead(units, health), health) == RemoveDead(units, health)
  {
    RemoveDeadKeepsLiving(units, health);
    RemoveDeadKeepsLiving(RemoveDead(units, health), health);
    RemoveDeadSameAlive(units, health);
  }

  lemma CleanedTwice(units: UnitList, health: seq<int>)
    ensures Cleaned(Cleaned(units, health), health) == Cleaned(units, health)
  {
    if units.Some? {
      RemoveDeadIdempotent(units.value, health);
    }
  }

  /** An army whose list holds a null entry next to a living unit still fights a round (the
      null entry is skipped everywhere else), and then the cleanup throws. */
  lemma CleanupThrowsOnNullEntry()
    ensures HasAlive(Some([Some(0), None]), [5])
    ensures RemoveDeadAsWritten([Some(0), None], [5]) == Throws(NullPointerException)
    ensures RemoveDead([Some(0), None], [5]) == [Some(0)]
  {
    assert AliveEntry([5], [Some(0), None][0]);
    assert [Some(0), None][..1] == [Some(0)];
    assert [Some(0)][..0] == [];
  }

  // ---------------------------------------------------------------------------------------
  // Turns

  /** Total remaining health: the sum of the positive healths. */
  function Total(health: seq<int>): nat {
    if health == [] then 0
    else
      var n := |health| - 1;
      Total(health[..n]) + (if health[n] > 0 then health[n] else 0)
  }

  /** What the model assumes of the external attack: it keeps the set of units, and every
      attack by a living unit lowers the total remaining health. */
  ghost predicate StrikeOk(strike: Strike, n: nat) {
    forall h: seq<int>, a: UnitId {:trigger Total(strike(h, a).0)} :: |h| == n && Alive(h, a) ==>
      |strike(h, a).0| == n && Total(strike(h, a).0) < Total(h)
  }

  lemma StrikeLowers(strike: Strike, n: nat, h: seq<int>, a: UnitId)
    requires StrikeOk(strike, n) && |h| == n && Alive(h, a)
    ensures |strike(h, a).0| == n && Total(strike(h, a).0) < Total(h)
  {
  }

  /** One attack: who attacked, the target it returned, the healths before it, the two unit
      lists at that time, and the turn order and index the attacker was taken from. */
  datatype Turn = Turn(attacker: UnitId, target: Option<UnitId>, before: seq<int>,
                       player: UnitList, computer: UnitList, order: seq<UnitId>, index: nat)

  function After(t: Turn, strike: Strike): seq<int> {
    strike(t.before, t.attacker).0
  }

  /** After the attack the attacker, or a non-null target, is dead. */
  predicate Died(t: Turn, strike: Strike) {
    var h := After(t, strike);
    !Alive(h, t.attacker) || (t.target.Some? && !Alive(h, t.target.value))
  }

  /** A legitimate attack: by the unit at `index` of the order, alive, while both armies have
      a living unit, with the target the attack returned. */
  predicate TurnOk(t: Turn, strike: Strike) {
    && t.index < |t.order| && t.order[t.index] == t.attacker
    && Alive(t.before, t.attacker)
    && HasAlive(t.player, t.before) && HasAlive(t.computer, t.before)
    && t.target == strike(t.before, t.attacker).1
  }

  /** The first attack of a round: the first unit of a fresh turn order. */
  predicate StartsRound(t: Turn, player: UnitList, computer: UnitList, health: seq<int>, baseAttack: seq<int>) {
    && t.before == health && t.player == player && t.computer == computer
    && t.index == 0 && t.order == TurnOrder(player, computer, health, baseAttack)
  }

  /** After attack `t` the round continues: both armies live, and either a death left a
      non-empty fresh order, or no death and the next index is in the old order and its
      unit is alive or the index is in the fresh order. */
  predicate RoundGoesOn(t: Turn, strike: Strike, baseAttack: seq<int>) {
    var h := After(t, strike);
    && HasAlive(t.player, h) && HasAlive(t.computer, h)
    && if Died(t, strike) then
         TurnOrder(t.player, t.computer, h, baseAttack) != []
       else
         t.index + 1 < |t.order|
         && (Alive(h, t.order[t.index + 1]) || t.index + 1 < |TurnOrder(t.player, t.computer, h, baseAttack)|)
  }

  /** The next attack of the same round: after a death, the first unit of the recomputed
      order; otherwise the next index, in the old order if its unit is still alive and in the
      recomputed order if not. */
  predicate Follows(prev: Turn, next: Turn, strike: Strike, baseAttack: seq<int>) {
    var h := After(prev, strike);
    && next.before == h && next.player == prev.player && next.computer == prev.computer
    && if Died(prev, strike) then
         next.index == 0 && next.order == TurnOrder(prev.player, prev.computer, h, baseAttack)
       else
         && next.index == prev.index + 1 && prev.index + 1 < |prev.order|
         && next.order == (if Alive(h, prev.order[prev.index + 1]) then prev.order
                           else TurnOrder(prev.player, prev.computer, h, baseAttack))
  }

  /** The first attack of the next round, after both lists have been cleaned. */
  predicate NextRound(prev: Turn, next: Turn, strike: Strike, baseAttack: seq<int>) {
    var h := After(prev, strike);
    StartsRound(next, Cleaned(prev.player, h), Cleaned(prev.computer, h), h, baseAttack)
  }

  /** Attack `next` is the one the simulator makes after attack `prev`. */
  ghost predicate Step(prev: Turn, next: Turn, strike: Strike, baseAttack: seq<int>) {
    if RoundGoesOn(prev, strike, baseAttack) then Follows(prev, next, strike, baseAttack)
    else NextRound(prev, next, strike, baseAttack)
  }

  /** A run of attacks the simulator may make: each legitimate, each the successor of the one
      before. */
  ghost predicate History(turns: seq<Turn>, strike: Strike, baseAttack: seq<int>)
    decreases |turns|
  {
    turns == [] ||
      var n := |turns| - 1;
      && History(turns[..n], strike, baseAttack) && TurnOk(turns[n], strike)
      && (n > 0 ==> Step(turns[n - 1], turns[n], strike, baseAttack))
  }

  /** The history, attack by attack. */
  lemma {:induction false} HistoryMeaning(turns: seq<Turn>, strike: Strike, baseAttack: seq<int>)
    ensures History(turns, strike, baseAttack) <==>
      && (forall i :: 0 <= i < |turns| ==> TurnOk(turns[i], strike))
      && (forall i :: 0 <= i < |turns| - 1 ==> Step(turns[i], turns[i + 1], strike, baseAttack))
  {
    hide TurnOk, Step;
    if turns != [] {
      var n := |turns| - 1;
      var front := turns[..n];
      HistoryMeaning(front, strike, baseAttack);
      assert forall i :: 0 <= i < n ==> front[i] == turns[i];
    }
  }

  lemma HistoryExtend(turns: seq<Turn>, t: Turn, strike: Strike, baseAttack: seq<int>)
    requires History(turns, strike, baseAttack) && TurnOk(t, strike)
    requires turns != [] ==> Step(turns[|turns| - 1], t, strike, baseAttack)
    ensures History(turns + [t], strike, baseAttack)
    ensures AttacksOf(turns + [t]) == AttacksOf(turns) + [Attack(t.attacker, t.target)]
  {
    assert (turns + [t])[..|turns|] == turns;
  }

  lemma LogExtend(entries: seq<Attack>, turns: seq<Turn>, t: Turn)
    ensures entries + AttacksOf(turns + [t]) == (entries + AttacksOf(turns)) + [Attack(t.attacker, t.target)]
  {
    assert (turns + [t])[..|turns|] == turns;
  }

  /** The calls the battle log receives for a sequence of attacks. */
  function AttacksOf(turns: seq<Turn>): seq<Attack> {
    if turns == [] then [] else AttacksOf(turns[..|turns| - 1]) + [Attack(turns[|turns| - 1].attacker, turns[|turns| - 1].target)]
  }

  /** One log call per attack, with that attack's attacker and target. */
  lemma {:induction false} AttacksOfMeaning(turns: seq<Turn>)
    ensures |AttacksOf(turns)| == |turns|
    ensures forall i :: 0 <= i < |turns| ==> AttacksOf(turns)[i] == Attack(turns[i].attacker, turns[i].target)
  {
    if turns != [] {
      AttacksOfMeaning(turns[..|turns| - 1]);
    }
  }

  /** Inside a round, after attack `last`: the healths it left, and the order and index the
      loop goes on with. */
  ghost predicate InRound(last: Turn, player: UnitList, computer: UnitList, health: seq<int>,
                          allUnits: seq<UnitId>, index: nat, strike: Strike, baseAttack: seq<int>) {
    && last.player == player && last.computer == computer && health == After(last, strike)
    && (Died(last, strike) ==> allUnits == TurnOrder(player, computer, health, baseAttack) && index == 0)
    && (!Died(last, strike) ==> allUnits == last.order && index == last.index + 1)
  }

  /** After the round that ended with attack `last`: the round could not go on, and both lists
      have been cleaned. */
  ghost predicate Finished(last: Turn, player: UnitList, computer: UnitList, health: seq<int>,
                           strike: Strike, baseAttack: seq<int>) {
    && health == After(last, strike) && !RoundGoesOn(last, strike, baseAttack)
    && player == Cleaned(last.player, health) && computer == Cleaned(last.computer, health)
  }

  /** Where the loop of a round stands: `n0` attacks were made before the round, which began
      with healths `roundHealth`; the loop holds order `allUnits` and `index`. */
  ghost predicate RoundState(turns: seq<Turn>, n0: nat, player: UnitList, computer: UnitList,
                             roundHealth: seq<int>, health: seq<int>, allUnits: seq<UnitId>, index: nat,
                             strike: Strike, baseAttack: seq<int>) {
    && |turns| >= n0
    && (n0 > 0 ==> Finished(turns[n0 - 1], player, computer, roundHealth, strike, baseAttack))
    && (|turns| == n0 ==>
          && health == roundHealth && index == 0 && allUnits == TurnOrder(player, computer, health, baseAttack)
          && HasAlive(player, health) && HasAlive(computer, health))
    && (|turns| > n0 ==> StartsRound(turns[n0], player, computer, roundHealth, baseAttack))
    && (|turns| > n0 ==> InRound(turns[|turns| - 1], player, computer, health, allUnits, index, strike, baseAttack))
  }

  /** The attack the loop makes next is legitimate and is the one the chain of attacks
      prescribes. `order0` is the order before the re-check of a dead unit, `order` after. */
  lemma TurnStep(turns: seq<Turn>, n0: nat, player: UnitList, computer: UnitList,
                 roundHealth: seq<int>, health: seq<int>, order0: seq<UnitId>, order: seq<UnitId>, index: nat,
                 strike: Strike, baseAttack: seq<int>)
    requires RoundState(turns, n0, player, computer, roundHealth, health, order0, index, strike, baseAttack)
    requires index < |order0| && HasAlive(player, health) && HasAlive(computer, health)
    requires order == (if Alive(health, order0[index]) then order0 else TurnOrder(player, computer, health, baseAttack))
    requires index < |order| && Alive(health, order[index])
    ensures var t := Turn(order[index], strike(health, order[index]).1, health, player, computer, order, index);
      && TurnOk(t, strike)
      && (turns != [] ==> Step(turns[|turns| - 1], t, strike, baseAttack))
      && (|turns| == n0 ==> StartsRound(t, player, computer, roundHealth, baseAttack))
  {
    hide TurnOrder;
    var t := Turn(order[index], strike(health, order[index]).1, health, player, computer, order, index);
    if |turns| > n0 {
      var last := turns[|turns| - 1];
      assert InRound(last, player, computer, health, order0, index, strike, baseAttack);
      if Died(last, strike) {
        TurnOrderAlive(player, computer, health, baseAttack);
        assert RoundGoesOn(last, strike, baseAttack);
      } else {
        assert RoundGoesOn(last, strike, baseAttack);
      }
    } else {
      TurnOrderAlive(player, computer, health, baseAttack);
      assert order == order0;
      if n0 > 0 {
        assert Finished(turns[n0 - 1], player, computer, roundHealth, strike, baseAttack);
      }
    }
  }

  /** The round that began after `n0` attacks is over: it made an attack, and after its last
      attack it could not go on. */
  ghost predicate RoundEnded(turns: seq<Turn>, n0: nat, player: UnitList, computer: UnitList,
                             health: seq<int>, strike: Strike, baseAttack: seq<int>) {
    && |turns| > n0
    && var last := turns[|turns| - 1];
       && health == After(last, strike) && !RoundGoesOn(last, strike, baseAttack)
       && last.player == player && last.computer == computer
  }

  /** After attack `t` the loop goes on with the order and index the source's lines for a
      death, or for no death, give. */
  lemma RoundAfterTurn(turns: seq<Turn>, n0: nat, t: Turn, player: UnitList, computer: UnitList,
                       roundHealth: seq<int>, allUnits: seq<UnitId>, index: nat,
                       strike: Strike, baseAttack: seq<int>)
    requires |turns| >= n0
    requires n0 > 0 ==> Finished(turns[n0 - 1], player, computer, roundHealth, strike, baseAttack)
    requires |turns| > n0 ==> StartsRound(turns[n0], player, computer, roundHealth, baseAttack)
    requires |turns| == n0 ==> StartsRound(t, player, computer, roundHealth, baseAttack)
    requires t.player == player && t.computer == computer
    requires Died(t, strike) ==> allUnits == TurnOrder(player, computer, After(t, strike), baseAttack) && index == 0
    requires !Died(t, strike) ==> allUnits == t.order && index == t.index + 1
    ensures RoundState(turns + [t], n0, player, computer, roundHealth, After(t, strike), allUnits, index, strike, baseAttack)
  {
    var turns' := turns + [t];
    if n0 > 0 {
      assert turns'[n0 - 1] == turns[n0 - 1];
    }
    assert turns'[n0] == if |turns| > n0 then turns[n0] else t;
  }

  /** The state at the start of a round. */
  lemma RoundBegins(turns: seq<Turn>, player: UnitList, computer: UnitList, health: seq<int>,
                    allUnits: seq<UnitId>, strike: Strike, baseAttack: seq<int>)
    requires turns != [] ==> Finished(turns[|turns| - 1], player, computer, health, strike, baseAttack)
    requires allUnits == TurnOrder(player, computer, health, baseAttack)
    requires HasAlive(player, health) && HasAlive(computer, health)
    ensures RoundState(turns, |turns|, player, computer, health, health, allUnits, 0, strike, baseAttack)
  {
  }

  /** Once a round has ended and both lists are cleaned, the round is finished. */
  lemma RoundFinishes(turns: seq<Turn>, n0: nat, player: UnitList, computer: UnitList, health: seq<int>,
                      strike: Strike, baseAttack: seq<int>)
    requires RoundEnded(turns, n0, player, computer, health, strike, baseAttack)
    ensures Finished(turns[|turns| - 1], Cleaned(player, health), Cleaned(computer, health), health, strike, baseAttack)
  {
  }

  /** The loop ran past the end of its order. */
  lemma GuardExit(turns: seq<Turn>, n0: nat, player: UnitList, computer: UnitList, roundHealth: seq<int>,
                  health: seq<int>, allUnits: seq<UnitId>, index: nat, strike: Strike, baseAttack: seq<int>)
    requires RoundState(turns, n0, player, computer, roundHealth, health, allUnits, index, strike, baseAttack)
    requires index >= |allUnits|
    ensures RoundEnded(turns, n0, player, computer, health, strike, baseAttack)
  {
    TurnOrderAlive(player, computer, health, baseAttack);
  }

  /** An army has no living unit left. */
  lemma ArmyDownExit(turns: seq<Turn>, n0: nat, player: UnitList, computer: UnitList, roundHealth: seq<int>,
                     health: seq<int>, allUnits: seq<UnitId>, index: nat, strike: Strike, baseAttack: seq<int>)
    requires RoundState(turns, n0, player, computer, roundHealth, health, allUnits, index, strike, baseAttack)
    requires !HasAlive(player, health) || !HasAlive(computer, health)
    ensures RoundEnded(turns, n0, player, computer, health, strike, baseAttack)
  {
  }

  /** The unit at `index` died before its turn and the recomputed order is too short. */
  lemma ReorderExit(turns: seq<Turn>, n0: nat, player: UnitList, computer: UnitList, roundHealth: seq<int>,
                    health: seq<int>, allUnits: seq<UnitId>, index: nat, strike: Strike, baseAttack: seq<int>)
    requires RoundState(turns, n0, player, computer, roundHealth, health, allUnits, index, strike, baseAttack)
    requires index < |allUnits| && !Alive(health, allUnits[index])
    requires index >= |TurnOrder(player, computer, health, baseAttack)|
    ensures RoundEnded(turns, n0, player, computer, health, strike, baseAttack)
  {
    hide TurnOrder, Finished, StartsRound;
    assert |turns| > n0;
    var last := turns[|turns| - 1];
    assert InRound(last, player, computer, health, allUnits, index, strike, baseAttack);
    assert !Died(last, strike);
  }

  /** The cleanup after a round (lines 83-88): both lists drop their dead units. The two
      armies may be one object, whose list is then cleaned twice. */
  method RemoveDeadUnits(playerArmy: Army, computerArmy: Army, health: seq<int>)
    modifies playerArmy, computerArmy
    ensures playerArmy.units == Cleaned(old(playerArmy.units), health)
    ensures computerArmy.units == Cleaned(old(computerArmy.units), health)
  {
    if playerArmy.units.Some? {
      playerArmy.units := Some(RemoveDead(playerArmy.units.value, health));
    }
    if computerArmy.units.Some? {
      computerArmy.units := Some(RemoveDead(computerArmy.units.value, health));
    }
    CleanedTwice(old(playerArmy.units), health);
  }

  /** `SimulateBattleImpl`, with its optional battle log. */
  class BattleSimulator {
    var printBattleLog: BattleLog?

    /** The start of one pass of the loop of a round (lines 34-58): check both armies and take
        the unit at `index`, recomputing the order first if that unit died. `stop` is the
        source's `break`. */
    method NextAttacker(playerArmy: Army, computerArmy: Army, roundHealth: seq<int>, baseAttack: seq<int>,
                        strike: Strike, health: seq<int>, allUnits: seq<UnitId>, index: nat,
                        ghost turns: seq<Turn>, ghost n0: nat)
      returns (order: seq<UnitId>, stop: bool)
      requires RoundState(turns, n0, playerArmy.units, computerArmy.units, roundHealth, health, allUnits, index, strike, baseAttack)
      requires index < |allUnits|
      ensures stop ==> RoundEnded(turns, n0, playerArmy.units, computerArmy.units, health, strike, baseAttack)
      ensures !stop ==>
        && HasAlive(playerArmy.units, health) && HasAlive(computerArmy.units, health)
        && order == (if Alive(health, allUnits[index]) then allUnits
                     else TurnOrder(playerArmy.units, computerArmy.units, health, baseAttack))
        && index < |order| && Alive(health, order[index])
    {
      ghost var player, computer := playerArmy.units, computerArmy.units;
      order := allUnits;
      var playerAlive := HasAliveUnits(playerArmy, health);
      var computerAlive := HasAliveUnits(computerArmy, health);
      if !playerAlive || !computerAlive {
        ArmyDownExit(turns, n0, player, computer, roundHealth, health, allUnits, index, strike, baseAttack);
        return order, true;
      }
      var unit := allUnits[index];
      if !Alive(health, unit) {
        order := GetSortedAliveUnits(playerArmy, computerArmy, health, baseAttack);
        if order == [] || index >= |order| {
          ReorderExit(turns, n0, player, computer, roundHealth, health, allUnits, index, strike, baseAttack);
          return order, true;
        }
        // the recomputed order holds living units only: the source's re-check of the unit
        // and its `index++; continue` never take effect
        TurnOrderAlive(player, computer, health, baseAttack);
        assert Alive(health, order[index]);
      }
      stop := false;
    }

    /** The rest of one pass (lines 60-79): the unit at `index` of `order` attacks, the attack
        is logged, and after a death the order is recomputed and the index reset. `stop` is
        the source's `break` on an empty order. */
    method MakeAttack(playerArmy: Army, computerArmy: Army, roundHealth: seq<int>, baseAttack: seq<int>,
                      strike: Strike, health: seq<int>, allUnits: seq<UnitId>, order: seq<UnitId>, index: nat,
                      ghost turns: seq<Turn>, ghost n0: nat, ghost entries0: seq<Attack>)
      returns (health': seq<int>, allUnits': seq<UnitId>, index': nat, ghost turns': seq<Turn>, stop: bool)
      requires StrikeOk(strike, |health|)
      requires History(turns, strike, baseAttack)
      requires RoundState(turns, n0, playerArmy.units, computerArmy.units, roundHealth, health, allUnits, index, strike, baseAttack)
      requires index < |allUnits|
      requires HasAlive(playerArmy.units, health) && HasAlive(computerArmy.units, health)
      requires order == (if Alive(health, allUnits[index]) then allUnits
                         else TurnOrder(playerArmy.units, computerArmy.units, health, baseAttack))
      requires index < |order| && Alive(health, order[index])
      requires printBattleLog != null ==> printBattleLog.entries == entries0 + AttacksOf(turns)
      modifies printBattleLog
      ensures turns' == turns + [Turn(order[index], strike(health, order[index]).1, health,
                                      playerArmy.units, computerArmy.units, order, index)]
      ensures health' == strike(health, order[index]).0
      ensures History(turns', strike, baseAttack)
      ensures printBattleLog != null ==> printBattleLog.entries == entries0 + AttacksOf(turns')
      ensures |health'| == |health| && Total(health') < Total(health)
      ensures StartsRound(turns'[n0], playerArmy.units, computerArmy.units, roundHealth, baseAttack)
      ensures stop ==> RoundEnded(turns', n0, playerArmy.units, computerArmy.units, health', strike, baseAttack)
      ensures !stop ==>
        RoundState(turns', n0, playerArmy.units, computerArmy.units, roundHealth, health', allUnits', index', strike, baseAttack)
    {
      hide TurnOrder, History;
      ghost var player, computer := playerArmy.units, computerArmy.units;
      var unit := order[index];
      var (after, target) := strike(health, unit);
      StrikeLowers(strike, |health|, health, unit);
      ghost var t := Turn(unit, target, health, player, computer, order, index);
      TurnStep(turns, n0, player, computer, roundHealth, health, allUnits, order, index, strike, baseAttack);
      HistoryExtend(turns, t, strike, baseAttack);
      LogExtend(entries0, turns, t);
      turns', health' := turns + [t], after;
      if printBattleLog != null {
        printBattleLog.PrintBattleLog(unit, target);
      }
      if !Alive(health', unit) || (target.Some? && !Alive(health', target.value)) {
        allUnits' := GetSortedAliveUnits(playerArmy, computerArmy, health', baseAttack);
        RoundAfterTurn(turns, n0, t, player, computer, roundHealth, allUnits', 0, strike, baseAttack);
        if allUnits' == [] {
          GuardExit(turns', n0, player, computer, roundHealth, health', allUnits', 0, strike, baseAttack);
          return health', allUnits', 0, turns', true;
        }
        index' := 0;
      } else {
        allUnits' := order;
        RoundAfterTurn(turns, n0, t, player, computer, roundHealth, allUnits', index + 1, strike, baseAttack);
        index' := index + 1;
      }
      stop := false;
    }

    /** One round (lines 23-79): the turn order of the living units, then attacks until an
        army has no living unit or the order is used up. */
    method PlayRound(playerArmy: Army, computerArmy: Army, health0: seq<int>, baseAttack: seq<int>,
                     strike: Strike, ghost turns0: seq<Turn>, ghost player0: UnitList,
                     ghost computer0: UnitList, ghost start: seq<int>, ghost entries0: seq<Attack>)
      returns (health: seq<int>, ghost turns: seq<Turn>)
      requires StrikeOk(strike, |health0|)
      requires HasAlive(playerArmy.units, health0) && HasAlive(computerArmy.units, health0)
      requires History(turns0, strike, baseAttack)
      requires turns0 == [] ==> playerArmy.units == player0 && computerArmy.units == computer0 && health0 == start
      requires turns0 != [] ==>
        && StartsRound(turns0[0], player0, computer0, start, baseAttack)
        && Finished(turns0[|turns0| - 1], playerArmy.units, computerArmy.units, health0, strike, baseAttack)
      requires printBattleLog != null ==> printBattleLog.entries == entries0 + AttacksOf(turns0)
      modifies printBattleLog
      ensures |health| == |health0| && Total(health) < Total(health0)
      ensures History(turns, strike, baseAttack) && |turns| > |turns0|
      ensures RoundEnded(turns, |turns0|, playerArmy.units, computerArmy.units, health, strike, baseAttack)
      ensures StartsRound(turns[0], player0, computer0, start, baseAttack)
      ensures printBattleLog != null ==> printBattleLog.entries == entries0 + AttacksOf(turns)
    {
      hide *;
      ghost var player, computer := playerArmy.units, computerArmy.units;
      ghost var n0 := |turns0|;
      health, turns := health0, turns0;
      var allUnits := GetSortedAliveUnits(playerArmy, computerArmy, health, baseAttack);
      // both armies have a living unit, so the order is not empty and the source's check for
      // an empty order at the start of a round never fires
      TurnOrderAlive(player, computer, health, baseAttack);
      assert allUnits != [];
      var index: nat := 0;
      RoundBegins(turns, player, computer, health, allUnits, strike, baseAttack);
      ghost var ended := false;
      while index < |allUnits|
        invariant |health| == |health0|
        invariant History(turns, strike, baseAttack)
        invariant printBattleLog != null ==> printBattleLog.entries == entries0 + AttacksOf(turns)
        invariant |turns| >= n0 && turns[..n0] == turns0
        invariant RoundState(turns, n0, player, computer, health0, health, allUnits, index, strike, baseAttack)
        invariant |turns| > n0 ==> Total(health) < Total(health0)
        invariant |turns| > n0 ==> StartsRound(turns[n0], player, computer, health0, baseAttack)
        invariant !ended
        decreases Total(health)
      {
        var order, stop := NextAttacker(playerArmy, computerArmy, health0, baseAttack, strike, health,
                                        allUnits, index, turns, n0);
        if stop {
          ended := true;
          break;
        }
        ghost var turns1 := turns;
        health, allUnits, index, turns, stop :=
          MakeAttack(playerArmy, computerArmy, health0, baseAttack, strike, health, allUnits, order, index,
                     turns, n0, entries0);
        assert turns[..n0] == turns1[..n0];
        if stop {
          ended := true;
          break;
        }
      }
      if !ended {
        GuardExit(turns, n0, player, computer, health0, health, allUnits, index, strike, baseAttack);
      }
      assert turns[0] == if n0 > 0 then turns0[0] else turns[n0];
    }

    /** `simulate`: rounds until an army has no living unit. Returns the final healths and,
        as a ghost, every attack made. */
    method Simulate(playerArmy: Army?, computerArmy: Army?, health0: seq<int>, baseAttack: seq<int>, strike: Strike)
      returns (health: seq<int>, ghost turns: seq<Turn>)
      requires StrikeOk(strike, |health0|)
      modifies playerArmy, computerArmy, printBattleLog
      ensures playerArmy == null || computerArmy == null ==>
        && health == health0 && turns == []
        && (playerArmy != null ==> playerArmy.units == old(playerArmy.units))
        && (computerArmy != null ==> computerArmy.units == old(computerArmy.units))
      ensures playerArmy != null && computerArmy != null ==>
        && |health| == |health0|
        && History(turns, strike, baseAttack)
        && (turns == [] ==>
              health == health0 && playerArmy.units == old(playerArmy.units)
              && computerArmy.units == old(computerArmy.units))
        && (turns != [] ==>
              && StartsRound(turns[0], old(playerArmy.units), old(computerArmy.units), health0, baseAttack)
              && Finished(turns[|turns| - 1], playerArmy.units, computerArmy.units, health, strike, baseAttack))
        && !(HasAlive(playerArmy.units, health) && HasAlive(computerArmy.units, health))
      ensures printBattleLog != null ==> printBattleLog.entries == old(printBattleLog.entries) + AttacksOf(turns)
    {
      health, turns := health0, [];
      if playerArmy == null || computerArmy == null {
        return;
      }
      assert History(turns, strike, baseAttack) && AttacksOf(turns) == [];
      hide TurnOrder, History, AttacksOf, RoundEnded, Finished, StartsRound;
      ghost var player0, computer0 := playerArmy.units, computerArmy.units;
      ghost var entries0 := if printBattleLog != null then printBattleLog.entries else [];
      var playerAlive := HasAliveUnits(playerArmy, health);
      var computerAlive := HasAliveUnits(computerArmy, health);
      while playerAlive && computerAlive
        invariant |health| == |health0|
        invariant playerAlive == HasAlive(playerArmy.units, health)
        invariant computerAlive == HasAlive(computerArmy.units, health)
        invariant History(turns, strike, baseAttack)
        invariant printBattleLog != null ==> printBattleLog.entries == entries0 + AttacksOf(turns)
        invariant turns == [] ==> health == health0 && playerArmy.units == player0 && computerArmy.units == computer0
        invariant turns != [] ==>
          && StartsRound(turns[0], player0, computer0, health0, baseAttack)
          && Finished(turns[|turns| - 1], playerArmy.units, computerArmy.units, health, strike, baseAttack)
        decreases Total(health)
      {
        ghost var player, computer, n0 := playerArmy.units, computerArmy.units, |turns|;
        health, turns := PlayRound(playerArmy, computerArmy, health, baseAttack, strike, turns,
                                   player0, computer0, health0, entries0);
        RemoveDeadUnits(playerArmy, computerArmy, health);
        RoundFinishes(turns, n0, player, computer, health, strike, baseAttack);
        playerAlive := HasAliveUnits(playerArmy, health);
        computerAlive := HasAliveUnits(computerArmy, health);
      }
    }
  }
}
