/** `GeneratePresetImpl`: builds the computer's army from a catalog of unit templates and a
    point budget. Templates are ranked by attack per point, then health per point; units are
    then added one at a time, each time of the first ranked template that is below the cap of
    11 units and still affordable, until no template is. */
module GeneratePreset {
  import opened Basics
  import opened Units
  import Ranking

  /** `MAX_UNITS_PER_TYPE`. */
  const MaxUnitsPerType: nat := 11

  // ---------------------------------------------------------------------------------------
  // Type records and their ranking

  /** `UnitTypeInfo`: a template, its two efficiencies and the number of units added of it.
      The efficiencies are exact ratios (the source computes them as doubles). */
  datatype UnitTypeInfo = UnitTypeInfo(template: Unit, attackEfficiency: real, healthEfficiency: real, count: nat)

  /** The `UnitTypeInfo` constructor. */
  function TypeInfo(template: Unit): (r: UnitTypeInfo)
    requires template.cost > 0
    ensures r.template == template && r.count == 0
    ensures r.attackEfficiency * (template.cost as real) == template.baseAttack as real
    ensures r.healthEfficiency * (template.cost as real) == template.health as real
  {
    UnitTypeInfo(template, template.baseAttack as real / template.cost as real,
                 template.health as real / template.cost as real, 0)
  }

  /** Every template in the catalog has a positive cost, so that its ratios exist. */
  predicate CostsPositive(catalog: seq<Option<Unit>>) {
    forall i :: 0 <= i < |catalog| && catalog[i].Some? ==> catalog[i].value.cost > 0
  }

  /** The type records of the non-null catalog entries, in catalog order. */
  function TypeInfos(catalog: seq<Option<Unit>>): seq<UnitTypeInfo>
    requires CostsPositive(catalog)
  {
    if catalog == [] then []
    else
      var n := |catalog| - 1;
      assert forall i :: 0 <= i < n ==> catalog[..n][i] == catalog[i];
      TypeInfos(catalog[..n]) + (if catalog[n].Some? then [TypeInfo(catalog[n].value)] else [])
  }

  /** Each non-null entry gets its own record with count 0, and null entries get none. */
  lemma {:induction false} TypeInfosMeaning(catalog: seq<Option<Unit>>)
    requires CostsPositive(catalog)
    ensures forall t :: t in TypeInfos(catalog) ==> t.count == 0 && Some(t.template) in catalog && t == TypeInfo(t.template)
    ensures forall i :: 0 <= i < |catalog| && catalog[i].Some? ==> TypeInfo(catalog[i].value) in TypeInfos(catalog)
  {
    if catalog != [] {
      var n := |catalog| - 1;
      assert forall i :: 0 <= i < n ==> catalog[..n][i] == catalog[i];
      TypeInfosMeaning(catalog[..n]);
      assert catalog == catalog[..n] + [catalog[n]];
    }
  }

  /** The non-null entries of the catalog, in catalog order. */
  function NonNull(catalog: seq<Option<Unit>>): (r: seq<Unit>)
    ensures |r| <= |catalog|
    ensures forall k :: 0 <= k < |r| ==> Some(r[k]) in catalog
  {
    if catalog == [] then []
    else
      var n := |catalog| - 1;
      assert forall i :: 0 <= i < n ==> catalog[..n][i] == catalog[i];
      NonNull(catalog[..n]) + (if catalog[n].Some? then [catalog[n].value] else [])
  }

  /** One fresh record per non-null entry, in catalog order: a template listed twice gets two
      records, each with its own count. */
  lemma {:induction false} TypeInfosInOrder(catalog: seq<Option<Unit>>)
    requires CostsPositive(catalog)
    ensures |TypeInfos(catalog)| == |NonNull(catalog)|
    ensures forall k :: 0 <= k < |NonNull(catalog)| ==> TypeInfos(catalog)[k] == TypeInfo(NonNull(catalog)[k])
  {
    if catalog != [] {
      var n := |catalog| - 1;
      assert forall i :: 0 <= i < n ==> catalog[..n][i] == catalog[i];
      TypeInfosInOrder(catalog[..n]);
    }
  }

  /** The comparator: attack efficiency first, then health efficiency, larger first. */
  function RankKey(t: UnitTypeInfo): Ranking.Key {
    Ranking.Key(t.attackEfficiency, t.healthEfficiency)
  }

  /** The type records after `unitTypes.sort(...)`. */
  function Ranked(catalog: seq<Option<Unit>>): seq<UnitTypeInfo>
    requires CostsPositive(catalog)
  {
    Ranking.Sort(TypeInfos(catalog), RankKey)
  }

  /** The ranking holds the same records, ordered by non-increasing attack efficiency, ties by
      non-increasing health efficiency, and records equal in both keep their catalog order. */
  lemma RankedOrder(catalog: seq<Option<Unit>>)
    requires CostsPositive(catalog)
    ensures multiset(Ranked(catalog)) == multiset(TypeInfos(catalog))
    ensures var r := Ranked(catalog);
      forall i, j :: 0 <= i < j < |r| ==>
        || r[i].attackEfficiency > r[j].attackEfficiency
        || (r[i].attackEfficiency == r[j].attackEfficiency && r[i].healthEfficiency >= r[j].healthEfficiency)
    ensures forall k :: Ranking.WithKey(Ranked(catalog), RankKey, k) == Ranking.WithKey(TypeInfos(catalog), RankKey, k)
  {
    var infos := TypeInfos(catalog);
    var r := Ranked(catalog);
    Ranking.SortPermutes(infos, RankKey);
    Ranking.SortSorted(infos, RankKey);
    forall i, j | 0 <= i < j < |r|
      ensures || r[i].attackEfficiency > r[j].attackEfficiency
              || (r[i].attackEfficiency == r[j].attackEfficiency && r[i].healthEfficiency >= r[j].healthEfficiency)
    {
      assert Ranking.AtLeast(RankKey(r[i]), RankKey(r[j]));
    }
    forall k
      ensures Ranking.WithKey(r, RankKey, k) == Ranking.WithKey(infos, RankKey, k)
    {
      Ranking.SortStable(infos, RankKey, k);
    }
  }

  // ---------------------------------------------------------------------------------------
  // Unit copies

  /** The decimal digits of `n`, as `String.valueOf(int)` writes a non-negative number. */
  function DecimalString(n: nat): (s: string)
    ensures |s| > 0
    ensures n >= 10 ==> |s| >= 2
    ensures forall i :: 0 <= i < |s| ==> '0' <= s[i] <= '9'
  {
    if n < 10 then [Digit(n)] else DecimalString(n / 10) + [Digit(n % 10)]
  }

  /** The character of a decimal digit. */
  function Digit(d: nat): (c: char)
    requires d < 10
    ensures '0' <= c <= '9' && c as int - '0' as int == d
  {
    ('0' as int + d) as char
  }

  /** Different numbers are written differently. */
  lemma {:induction false} DecimalStringInjective(a: nat, b: nat)
    requires DecimalString(a) == DecimalString(b)
    ensures a == b
  {
    if a >= 10 && b >= 10 {
      var sa, sb := DecimalString(a), DecimalString(b);
      assert sa[..|sa| - 1] == DecimalString(a / 10);
      assert sb[..|sb| - 1] == DecimalString(b / 10);
      DecimalStringInjective(a / 10, b / 10);
      assert Digit(a % 10) == sa[|sa| - 1] == Digit(b % 10);
    }
  }

  /** `createUnitCopy`: a fresh unit with the template's type, statistics and bonus tables,
      named after its type and its index in the army, at (0, 0). */
  function CreateUnitCopy(template: Unit, index: nat): (u: Unit)
    ensures u.unitType == template.unitType && u.health == template.health
    ensures u.baseAttack == template.baseAttack && u.cost == template.cost
    ensures u.attackType == template.attackType
    ensures u.attackBonuses == template.attackBonuses && u.defenceBonuses == template.defenceBonuses
    ensures u.x == 0 && u.y == 0
  {
    Unit(template.unitType + "_" + DecimalString(index), template.unitType, template.health,
         template.baseAttack, template.cost, template.attackType,
         template.attackBonuses, template.defenceBonuses, 0, 0)
  }

  /** The characters after the last `_` of a name. */
  function AfterLastSeparator(s: string): (r: string)
    ensures |r| <= |s|
  {
    if s == [] || s[|s| - 1] == '_' then [] else AfterLastSeparator(s[..|s| - 1]) + [s[|s| - 1]]
  }

  lemma {:induction false} SuffixAfterSeparator(prefix: string, digits: string)
    requires forall i :: 0 <= i < |digits| ==> digits[i] != '_'
    ensures AfterLastSeparator(prefix + "_" + digits) == digits
  {
    if digits != [] {
      var n := |digits| - 1;
      assert (prefix + "_" + digits)[..|prefix| + 1 + n] == prefix + "_" + digits[..n];
      SuffixAfterSeparator(prefix, digits[..n]);
      assert digits == digits[..n] + [digits[n]];
    }
  }

  /** Units created at different indices have different names, whatever their templates. */
  lemma CopyNamesDistinct(t1: Unit, t2: Unit, i: nat, j: nat)
    requires i != j
    ensures CreateUnitCopy(t1, i).name != CreateUnitCopy(t2, j).name
  {
    var d1, d2 := DecimalString(i), DecimalString(j);
    SuffixAfterSeparator(t1.unitType, d1);
    SuffixAfterSeparator(t2.unitType, d2);
    if CreateUnitCopy(t1, i).name == CreateUnitCopy(t2, j).name {
      DecimalStringInjective(i, j);
    }
  }

  // ---------------------------------------------------------------------------------------
  // The greedy loop

  /** The state of the greedy loop: the ranked records with their counts, the units added so
      far, for each unit the index of its record, and `totalPoints`. */
  datatype Draft = Draft(types: seq<UnitTypeInfo>, units: seq<Unit>, origins: seq<nat>, total: int)

  /** A record the inner loop would take: below the cap, and affordable. */
  predicate Eligible(t: UnitTypeInfo, total: int, maxPoints: int) {
    t.count < MaxUnitsPerType && total + t.template.cost <= maxPoints
  }

  /** The index the inner loop breaks at, or `None` when it runs to the end. */
  function FirstEligible(types: seq<UnitTypeInfo>, total: int, maxPoints: int): (r: Option<nat>)
    ensures r.Some? ==>
      && r.value < |types| && Eligible(types[r.value], total, maxPoints)
      && forall j :: 0 <= j < r.value ==> !Eligible(types[j], total, maxPoints)
    ensures r.None? ==> forall j :: 0 <= j < |types| ==> !Eligible(types[j], total, maxPoints)
  {
    if types == [] then None
    else if Eligible(types[0], total, maxPoints) then Some(0)
    else
      match FirstEligible(types[1..], total, maxPoints)
      case None => None
      case Some(i) => Some(i + 1)
  }

  /** Adding one unit of record `i`. */
  function AddUnit(d: Draft, i: nat): Draft
    requires i < |d.types|
  {
    var t := d.types[i];
    Draft(d.types[i := t.(count := t.count + 1)], d.units + [CreateUnitCopy(t.template, |d.units|)],
          d.origins + [i], d.total + t.template.cost)
  }

  /** The room left under the cap, summed over the records: what bounds the loop. */
  function Slack(types: seq<UnitTypeInfo>): nat {
    if types == [] then 0
    else
      var n := |types| - 1;
      Slack(types[..n]) + (if types[n].count < MaxUnitsPerType then MaxUnitsPerType - types[n].count else 0)
  }

  lemma {:induction false} SlackBump(types: seq<UnitTypeInfo>, i: nat)
    requires i < |types| && types[i].count < MaxUnitsPerType
    ensures Slack(types[i := types[i].(count := types[i].count + 1)]) == Slack(types) - 1
  {
    var bumped := types[i := types[i].(count := types[i].count + 1)];
    var n := |types| - 1;
    if i == n {
      assert bumped[..n] == types[..n];
    } else {
      assert bumped[..n] == types[..n][i := types[i].(count := types[i].count + 1)];
      SlackBump(types[..n], i);
    }
  }

  /** One pass of `while (added)`: a unit of the first eligible record, if there is one. */
  function Step(d: Draft, maxPoints: int): (r: Option<Draft>)
    ensures r.Some? <==> FirstEligible(d.types, d.total, maxPoints).Some?
    ensures r.Some? ==> Slack(r.value.types) < Slack(d.types)
  {
    match FirstEligible(d.types, d.total, maxPoints)
    case None => None
    case Some(i) =>
      SlackBump(d.types, i);
      Some(AddUnit(d, i))
  }

  /** The greedy loop, run to the end. */
  function Greedy(d: Draft, maxPoints: int): Draft
    decreases Slack(d.types)
  {
    match Step(d, maxPoints)
    case None => d
    case Some(next) => Greedy(next, maxPoints)
  }

  /** The loop's final state for a catalog. */
  function GenerateDraft(catalog: seq<Option<Unit>>, maxPoints: int): Draft
    requires CostsPositive(catalog)
  {
    Greedy(Draft(Ranked(catalog), [], [], 0), maxPoints)
  }

  /** What `generate` returns: the units of the new `Army` and the points set on it. */
  datatype GeneratedArmy = GeneratedArmy(units: seq<Unit>, points: int)

  /** `generate`. A null or empty catalog gives an army without units (whose points the
      external `Army` class leaves at 0). */
  function Generated(unitList: Option<seq<Option<Unit>>>, maxPoints: int): GeneratedArmy
    requires unitList.Some? ==> CostsPositive(unitList.value)
  {
    if unitList.None? || unitList.value == [] then GeneratedArmy([], 0)
    else
      var d := GenerateDraft(unitList.value, maxPoints);
      GeneratedArmy(d.units, d.total)
  }

  // ---------------------------------------------------------------------------------------
  // What the loop keeps

  function SumCosts(units: seq<Unit>): int {
    if units == [] then 0 else SumCosts(units[..|units| - 1]) + units[|units| - 1].cost
  }

  lemma SumCostsAppend(units: seq<Unit>, u: Unit)
    ensures SumCosts(units + [u]) == SumCosts(units) + u.cost
  {
    assert (units + [u])[..|units|] == units;
  }

  /** The loop's invariant against the ranked records `base`: the records keep their templates
      and efficiencies; each count is the number of units taken from that record and at most
      the cap; unit `k` is the copy of its record's template made at index `k`; the points are
      the sum of the units' costs and within the budget once a unit was added. */
  predicate DraftOk(d: Draft, base: seq<UnitTypeInfo>, maxPoints: int) {
    && CountsOk(d, base)
    && UnitsOk(d, base)
    && d.total == SumCosts(d.units)
    && (d.total <= maxPoints || (d.units == [] && d.total == 0))
  }

  predicate CountsOk(d: Draft, base: seq<UnitTypeInfo>) {
    && |d.types| == |base|
    && (forall i :: 0 <= i < |base| ==> d.types[i] == base[i].(count := d.types[i].count))
    && (forall i :: 0 <= i < |base| ==> d.types[i].count == multiset(d.origins)[i] <= MaxUnitsPerType)
  }

  predicate UnitsOk(d: Draft, base: seq<UnitTypeInfo>) {
    && |d.origins| == |d.units|
    && (forall k :: 0 <= k < |d.units| ==>
          d.origins[k] < |base| && d.units[k] == CreateUnitCopy(base[d.origins[k]].template, k))
  }

  /** Before the loop: every record at count 0, nothing added. */
  lemma DraftOkInitially(base: seq<UnitTypeInfo>, maxPoints: int)
    requires forall i :: 0 <= i < |base| ==> base[i].count == 0
    ensures DraftOk(Draft(base, [], [], 0), base, maxPoints)
  {
    forall i | 0 <= i < |base|
      ensures base[i] == base[i].(count := base[i].count)
    {
    }
  }

  lemma AddUnitCounts(d: Draft, base: seq<UnitTypeInfo>, i: nat)
    requires CountsOk(d, base) && i < |d.types| && d.types[i].count < MaxUnitsPerType
    ensures CountsOk(AddUnit(d, i), base)
  {
    var next := AddUnit(d, i);
    assert multiset(next.origins) == multiset(d.origins) + multiset{i};
  }

  lemma AddUnitUnits(d: Draft, base: seq<UnitTypeInfo>, i: nat)
    requires UnitsOk(d, base) && |d.types| == |base| && i < |d.types| && d.types[i].template == base[i].template
    ensures UnitsOk(AddUnit(d, i), base)
  {
    var next := AddUnit(d, i);
    forall k | 0 <= k < |next.units|
      ensures next.origins[k] < |base| && next.units[k] == CreateUnitCopy(base[next.origins[k]].template, k)
    {
      if k < |d.units| {
        assert next.units[k] == d.units[k] && next.origins[k] == d.origins[k];
      }
    }
  }

  /** Adding a unit of an eligible record keeps the invariant. */
  lemma AddUnitKeepsDraftOk(d: Draft, base: seq<UnitTypeInfo>, maxPoints: int, i: nat)
    requires DraftOk(d, base, maxPoints) && i < |d.types| && Eligible(d.types[i], d.total, maxPoints)
    ensures DraftOk(AddUnit(d, i), base, maxPoints)
  {
    assert d.types[i] == base[i].(count := d.types[i].count);
    AddUnitCounts(d, base, i);
    AddUnitUnits(d, base, i);
    SumCostsAppend(d.units, CreateUnitCopy(d.types[i].template, |d.units|));
  }

  /** The whole loop keeps the invariant and stops only when no record is eligible. */
  lemma {:induction false} GreedyKeepsDraftOk(d: Draft, base: seq<UnitTypeInfo>, maxPoints: int)
    requires DraftOk(d, base, maxPoints)
    ensures DraftOk(Greedy(d, maxPoints), base, maxPoints)
    ensures var e := Greedy(d, maxPoints);
      forall i :: 0 <= i < |e.types| ==> !Eligible(e.types[i], e.total, maxPoints)
    decreases Slack(d.types)
  {
    match FirstEligible(d.types, d.total, maxPoints)
    case None =>
      assert Greedy(d, maxPoints) == d;
    case Some(i) =>
      var next := AddUnit(d, i);
      assert Step(d, maxPoints) == Some(next);
      assert Greedy(d, maxPoints) == Greedy(next, maxPoints);
      AddUnitKeepsDraftOk(d, base, maxPoints, i);
      GreedyKeepsDraftOk(next, base, maxPoints);
  }

  /** The ranked records all start at count 0. */
  lemma RankedFresh(catalog: seq<Option<Unit>>)
    requires CostsPositive(catalog)
    ensures forall i :: 0 <= i < |Ranked(catalog)| ==> Ranked(catalog)[i].count == 0
  {
    var base := Ranked(catalog);
    Ranking.SortPermutes(TypeInfos(catalog), RankKey);
    TypeInfosMeaning(catalog);
    forall i | 0 <= i < |base|
      ensures base[i].count == 0
    {
      assert base[i] in multiset(TypeInfos(catalog));
    }
  }

  lemma GenerateDraftOk(catalog: seq<Option<Unit>>, maxPoints: int)
    requires CostsPositive(catalog)
    ensures DraftOk(GenerateDraft(catalog, maxPoints), Ranked(catalog), maxPoints)
    ensures var e := GenerateDraft(catalog, maxPoints);
      forall i :: 0 <= i < |e.types| ==> !Eligible(e.types[i], e.total, maxPoints)
  {
    hide DraftOk, Ranked, Greedy, Step, FirstEligible, Eligible, TypeInfos, Slack;
    RankedFresh(catalog);
    DraftOkInitially(Ranked(catalog), maxPoints);
    GreedyKeepsDraftOk(Draft(Ranked(catalog), [], [], 0), Ranked(catalog), maxPoints);
    assert GenerateDraft(catalog, maxPoints) == Greedy(Draft(Ranked(catalog), [], [], 0), maxPoints);
  }

  /** The generated army spends within the budget, and its points are the sum of its units'
      costs; no record gives more than 11 units; each unit is the copy, made at its index, of
      a ranked template. */
  lemma GeneratedWithinLimits(catalog: seq<Option<Unit>>, maxPoints: int)
    requires CostsPositive(catalog)
    ensures var d := GenerateDraft(catalog, maxPoints);
      && d.total == SumCosts(d.units)
      && (d.total <= maxPoints || (d.units == [] && d.total == 0))
      && |d.origins| == |d.units|
      && (forall i :: 0 <= i < |Ranked(catalog)| ==> multiset(d.origins)[i] <= MaxUnitsPerType)
      && (forall k :: 0 <= k < |d.units| ==>
            d.origins[k] < |Ranked(catalog)| && d.units[k] == CreateUnitCopy(Ranked(catalog)[d.origins[k]].template, k))
  {
    GenerateDraftOk(catalog, maxPoints);
  }

  /** When the loop ends, every record is at the cap or costs more than the budget has left. */
  lemma GeneratedIsMaximal(catalog: seq<Option<Unit>>, maxPoints: int)
    requires CostsPositive(catalog)
    ensures var d := GenerateDraft(catalog, maxPoints);
      && |d.types| == |Ranked(catalog)|
      && forall i :: 0 <= i < |d.types| ==>
           d.types[i].count == MaxUnitsPerType || d.types[i].template.cost > maxPoints - d.total
  {
    GenerateDraftOk(catalog, maxPoints);
  }

  // ---------------------------------------------------------------------------------------
  // An example

  function ExampleHeavy(): Unit {
    Unit("Heavy", "Heavy", 20, 5, 10, "melee", map[], map[], 0, 0)
  }

  function ExampleLight(): Unit {
    Unit("Light", "Light", 5, 1, 5, "melee", map[], map[], 0, 0)
  }

  lemma GreedyUnfold(d: Draft, maxPoints: int, i: nat)
    requires FirstEligible(d.types, d.total, maxPoints) == Some(i)
    ensures Greedy(d, maxPoints) == Greedy(AddUnit(d, i), maxPoints)
  {
  }

  lemma GreedyStops(d: Draft, maxPoints: int)
    requires FirstEligible(d.types, d.total, maxPoints) == None
    ensures Greedy(d, maxPoints) == d
  {
  }

  function ExampleCatalog(): seq<Option<Unit>> {
    [Some(ExampleHeavy()), Some(ExampleLight())]
  }

  /** The heavier template ranks first: attack per point 0.5 against 0.2. */
  lemma ExampleRanked()
    ensures CostsPositive(ExampleCatalog())
    ensures Ranked(ExampleCatalog()) == [TypeInfo(ExampleHeavy()), TypeInfo(ExampleLight())]
  {
    var catalog := ExampleCatalog();
    var h, l := TypeInfo(ExampleHeavy()), TypeInfo(ExampleLight());
    assert TypeInfos(catalog) == [h, l] by {
      assert catalog[..1] == [Some(ExampleHeavy())];
      assert catalog[..1][..0] == [];
    }
    assert [h, l][1..] == [l];
    assert Ranking.Sort([l], RankKey) == [l] by {
      assert [l][1..] == [];
    }
    assert Ranking.AtLeast(RankKey(h), RankKey(l));
  }

  /** From `c` heavy units and no light one, the loop adds heavy units up to four, then a
      light one, and stops at 45 points. */
  lemma {:induction false} ExampleFromHeavy(d: Draft, c: nat)
    requires c <= 4
    requires d.types == [TypeInfo(ExampleHeavy()).(count := c), TypeInfo(ExampleLight())] && d.total == 10 * c
    ensures var e := Greedy(d, 45);
      e.types == [TypeInfo(ExampleHeavy()).(count := 4), TypeInfo(ExampleLight()).(count := 1)] && e.total == 45
    decreases 4 - c
  {
    var h, l := TypeInfo(ExampleHeavy()), TypeInfo(ExampleLight());
    if c < 4 {
      assert FirstEligible(d.types, d.total, 45) == Some(0);
      GreedyUnfold(d, 45, 0);
      var next := AddUnit(d, 0);
      assert next.types == [h.(count := c + 1), l];
      ExampleFromHeavy(next, c + 1);
    } else {
      assert d.types[1..] == [l];
      assert FirstEligible(d.types[1..], d.total, 45) == Some(0);
      GreedyUnfold(d, 45, 1);
      var next := AddUnit(d, 1);
      assert next.types == [h.(count := 4), l.(count := 1)] && next.total == 45;
      assert FirstEligible(next.types, next.total, 45) == None;
      GreedyStops(next, 45);
    }
  }

  /** Templates costing 10 (attack 5, health 20) and 5 (attack 1, health 5) with a budget of
      45: four units of the first, then one of the second, for 45 points. */
  lemma GenerateExample()
    ensures CostsPositive(ExampleCatalog())
    ensures var d := GenerateDraft(ExampleCatalog(), 45);
      && |d.types| == 2 && d.types[0].template == ExampleHeavy() && d.types[1].template == ExampleLight()
      && d.types[0].count == 4 && d.types[1].count == 1 && d.total == 45
  {
    ExampleRanked();
    var h, l := TypeInfo(ExampleHeavy()), TypeInfo(ExampleLight());
    assert h.(count := 0) == h && h.template == ExampleHeavy() && l.template == ExampleLight();
    ExampleFromHeavy(Draft([h, l], [], [], 0), 0);
  }

  // ---------------------------------------------------------------------------------------
  // The budget check in 32-bit arithmetic

  /** The inner loop as written: `totalPoints + unitCost > maxPoints` is a Java `int`
      addition, which wraps around. */
  function FirstEligibleAsWritten(types: seq<UnitTypeInfo>, total: int, maxPoints: int): (r: Option<nat>)
    requires IsInt32(total) && forall i :: 0 <= i < |types| ==> IsInt32(types[i].template.cost)
    ensures r.Some? ==> r.value < |types|
  {
    if types == [] then None
    else if types[0].count < MaxUnitsPerType && AddInt32(total, types[0].template.cost) <= maxPoints then Some(0)
    else
      match FirstEligibleAsWritten(types[1..], total, maxPoints)
      case None => None
      case Some(i) => Some(i + 1)
  }

  /** One pass as written: the check above, and `totalPoints += unitCost` wrapping too. */
  function StepAsWritten(d: Draft, maxPoints: int): (r: Option<Draft>)
    requires IsInt32(d.total) && forall i :: 0 <= i < |d.types| ==> IsInt32(d.types[i].template.cost)
    ensures r.Some? ==> IsInt32(r.value.total) && |r.value.types| == |d.types|
  {
    match FirstEligibleAsWritten(d.types, d.total, maxPoints)
    case None => None
    case Some(i) =>
      var t := d.types[i];
      Some(Draft(d.types[i := t.(count := t.count + 1)], d.units + [CreateUnitCopy(t.template, |d.units|)],
                 d.origins + [i], AddInt32(d.total, t.template.cost)))
  }

  function ExampleCostly(): Unit {
    Unit("Costly", "Costly", 1, 1, 0x4000_0001, "melee", map[], map[], 0, 0)
  }

  /** With a budget of `Integer.MAX_VALUE` and a template costing 2^30 + 1, the sum of two
      costs wraps to a negative number, so the check lets a second unit in: the army's units
      then cost more than the budget. In exact arithmetic the second step adds nothing. */
  lemma BudgetCheckOverflows()
    ensures var d0 := Draft([TypeInfo(ExampleCostly())], [], [], 0);
      && StepAsWritten(d0, IntMax).Some?
      && var d1 := StepAsWritten(d0, IntMax).value;
         && StepAsWritten(d1, IntMax).Some?
         && SumCosts(StepAsWritten(d1, IntMax).value.units) > IntMax
         && Step(Step(d0, IntMax).value, IntMax).None?
  {
    var t := TypeInfo(ExampleCostly());
    var d0 := Draft([t], [], [], 0);
    assert AddInt32(0, 0x4000_0001) == 0x4000_0001;
    var d1 := StepAsWritten(d0, IntMax).value;
    assert d1.units == [CreateUnitCopy(ExampleCostly(), 0)] && d1.total == 0x4000_0001;
    assert AddInt32(0x4000_0001, 0x4000_0001) < 0;
    var d2 := StepAsWritten(d1, IntMax).value;
    assert d2.units == d1.units + [CreateUnitCopy(ExampleCostly(), 1)];
    assert d2.units[..1] == d1.units;
    assert d1.units[..0] == [];
    assert FirstEligible(d0.types, 0, IntMax) == Some(0);
    var e1 := Step(d0, IntMax).value;
    assert !Eligible(e1.types[0], e1.total, IntMax);
  }

  // ---------------------------------------------------------------------------------------
  // The method

  /** One pass of `while (added)`: the inner loop tries the records in ranked order and adds
      a unit of the first one below the cap whose cost fits. */
  method AddFirstEligible(unitTypes: seq<UnitTypeInfo>, armyUnits: seq<Unit>, totalPoints: int,
                          ghost origins: seq<nat>, maxPoints: int)
    returns (unitTypes': seq<UnitTypeInfo>, armyUnits': seq<Unit>, totalPoints': int,
             ghost origins': seq<nat>, added: bool)
    ensures added <==> FirstEligible(unitTypes, totalPoints, maxPoints).Some?
    ensures added ==> var i := FirstEligible(unitTypes, totalPoints, maxPoints).value;
      && unitTypes' == unitTypes[i := unitTypes[i].(count := unitTypes[i].count + 1)]
      && armyUnits' == armyUnits + [CreateUnitCopy(unitTypes[i].template, |armyUnits|)]
      && totalPoints' == totalPoints + unitTypes[i].template.cost
    ensures !added ==> unitTypes' == unitTypes && armyUnits' == armyUnits && totalPoints' == totalPoints
    ensures var d := Draft(unitTypes, armyUnits, origins, totalPoints);
      Draft(unitTypes', armyUnits', origins', totalPoints') == (if added then Step(d, maxPoints).value else d)
  {
    hide CreateUnitCopy, Slack, DecimalString;
    unitTypes', armyUnits', totalPoints', origins' := unitTypes, armyUnits, totalPoints, origins;
    added := false;
    for j := 0 to |unitTypes|
      invariant forall k :: 0 <= k < j ==> !Eligible(unitTypes[k], totalPoints, maxPoints)
    {
      if unitTypes[j].count >= MaxUnitsPerType {
        continue;
      }
      var unitCost := unitTypes[j].template.cost;
      if totalPoints + unitCost > maxPoints {
        continue;
      }
      var newUnit := CreateUnitCopy(unitTypes[j].template, |armyUnits|);
      armyUnits' := armyUnits + [newUnit];
      origins' := origins + [j];
      totalPoints' := totalPoints + unitCost;
      unitTypes' := unitTypes[j := unitTypes[j].(count := unitTypes[j].count + 1)];
      added := true;
      assert FirstEligible(unitTypes, totalPoints, maxPoints) == Some(j);
      return;
    }
  }

  /** `generate`, step by step as the source runs it, with the budget test in exact
      arithmetic (the source's 32-bit test is `StepAsWritten`; see `BudgetCheckOverflows`). */
  method Generate(unitList: Option<seq<Option<Unit>>>, maxPoints: int) returns (army: GeneratedArmy)
    requires unitList.Some? ==> CostsPositive(unitList.value)
    ensures army == Generated(unitList, maxPoints)
  {
    if unitList.None? || unitList.value == [] {
      return GeneratedArmy([], 0);
    }
    hide Ranking.Sort, CreateUnitCopy, DecimalString, TypeInfo;
    var catalog := unitList.value;
    var unitTypes: seq<UnitTypeInfo> := [];
    for i := 0 to |catalog|
      invariant unitTypes == TypeInfos(catalog[..i])
    {
      assert catalog[..i + 1][..i] == catalog[..i];
      if catalog[i].Some? {
        unitTypes := unitTypes + [TypeInfo(catalog[i].value)];
      }
    }
    assert catalog[..|catalog|] == catalog;
    unitTypes := Ranking.Sort(unitTypes, RankKey);
    assert GenerateDraft(catalog, maxPoints) == Greedy(Draft(unitTypes, [], [], 0), maxPoints);
    hide GenerateDraft, Ranked, TypeInfos, FirstEligible;
    var armyUnits: seq<Unit> := [];
    ghost var origins: seq<nat> := [];
    var totalPoints := 0;
    var added := true;
    while added
      invariant Greedy(Draft(unitTypes, armyUnits, origins, totalPoints), maxPoints) == GenerateDraft(catalog, maxPoints)
      invariant !added ==> Step(Draft(unitTypes, armyUnits, origins, totalPoints), maxPoints).None?
      decreases Slack(unitTypes), if added then 1 else 0
    {
      unitTypes, armyUnits, totalPoints, origins, added :=
        AddFirstEligible(unitTypes, armyUnits, totalPoints, origins, maxPoints);
    }
    army := GeneratedArmy(armyUnits, totalPoints);
  }
}
