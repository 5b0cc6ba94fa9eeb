/** The records of one game snapshot: sites, the construction overlay on them,
    units, and the three integer-coded enumerations of the input protocol. */
module Entities {

  datatype Option<+T> = None | Some(value: T)

  /** Who controls a site or a unit (protocol codes -1, 0, 1). */
  datatype Owner = Unowned | Allied | Enemy

  /** What stands on a site (protocol codes -1, 1, 2). */
  datatype StructureType = NoStructure | Tower | Barrack

  /** The kind of a unit (protocol codes -1, 0, 1, 2). */
  datatype UnitType = Queen | Knight | Bowman | Giant

  datatype Position = Position(x: int, y: int)

  /** A building slot, fixed for the whole match. */
  datatype Site = Site(siteId: int, position: Position, radius: int)

  /** The per-turn overlay on a site; for a barrack, param2 is the unit type it trains. */
  datatype ConstructionSite = ConstructionSite(
    siteId: int,
    structureType: StructureType,
    owner: Owner,
    ignore1: int,
    ignore2: int,
    param1: int,
    param2: int)

  datatype Unit = Unit(position: Position, owner: Owner, unitType: UnitType, health: int)

  // The discriminants the enumerations are declared with.

  function OwnerCode(o: Owner): int
  {
    match o
    case Unowned => -1
    case Allied => 0
    case Enemy => 1
  }

  function StructureTypeCode(t: StructureType): int
  {
    match t
    case NoStructure => -1
    case Tower => 1
    case Barrack => 2
  }

  function UnitTypeCode(u: UnitType): int
  {
    match u
    case Queen => -1
    case Knight => 0
    case Bowman => 1
    case Giant => 2
  }

  // The conversions from protocol integers. An unknown code is a fatal protocol
  // violation in the game loop; here it is the None result.

  function OwnerFromCode(x: int): (r: Option<Owner>)
    ensures r.Some? <==> x in {-1, 0, 1}
    ensures r.Some? ==> OwnerCode(r.value) == x
  {
    match x
    case -1 => Some(Unowned)
    case 0 => Some(Allied)
    case 1 => Some(Enemy)
    case _ => None
  }

  function StructureTypeFromCode(x: int): (r: Option<StructureType>)
    ensures r.Some? <==> x in {-1, 1, 2}
    ensures r.Some? ==> StructureTypeCode(r.value) == x
  {
    match x
    case -1 => Some(NoStructure)
    case 1 => Some(Tower)
    case 2 => Some(Barrack)
    case _ => None
  }

  function UnitTypeFromCode(x: int): (r: Option<UnitType>)
    ensures r.Some? <==> x in {-1, 0, 1, 2}
    ensures r.Some? ==> UnitTypeCode(r.value) == x
  {
    match x
    case -1 => Some(Queen)
    case 0 => Some(Knight)
    case 1 => Some(Bowman)
    case 2 => Some(Giant)
    case _ => None
  }

  /** Decoding the code of any enumerator gives that enumerator back. */
  lemma CodesRoundTrip(o: Owner, t: StructureType, u: UnitType)
    ensures OwnerFromCode(OwnerCode(o)) == Some(o)
    ensures StructureTypeFromCode(StructureTypeCode(t)) == Some(t)
    ensures UnitTypeFromCode(UnitTypeCode(u)) == Some(u)
  {
  }
}
