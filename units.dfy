/** The fields of the external `Unit` class that the algorithms read. */
module Units {

  /** Attack and defence bonus tables; the algorithms only copy them. */
  type Bonuses = map<string, real>

  datatype Unit = Unit(
    name: string,
    unitType: string,
    health: int,
    baseAttack: int,
    cost: int,
    attackType: string,
    attackBonuses: Bonuses,
    defenceBonuses: Bonuses,
    x: int,
    y: int)

  /** `Unit.isAlive()`: a unit lives while its health is positive. */
  predicate IsAlive(u: Unit) {
    u.health > 0
  }
}
