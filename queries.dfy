/** The read-only queries of the game state over one snapshot: the allied
    queen, site lookups by id and by position, and the filters that list the
    ids of construction sites of one kind, in snapshot order. */
module Queries {
  import opened Entities

  // ---------------------------------------------------------------------------
  // The queen

  predicate IsAlliedQueen(u: Unit)
  {
    u.unitType == Queen && u.owner == Allied
  }

  /** The snapshot holds an allied queen (the game guarantees one every turn). */
  predicate HasQueen(units: seq<Unit>)
  {
    exists u :: u in units && IsAlliedQueen(u)
  }

  /** The index of the first allied queen in the unit list. */
  function QueenIndex(units: seq<Unit>): (k: nat)
    requires HasQueen(units)
    ensures k < |units| && IsAlliedQueen(units[k])
    ensures forall j :: 0 <= j < k ==> !IsAlliedQueen(units[j])
  {
    if IsAlliedQueen(units[0]) then 0
    else
      assert HasQueen(units[1..]) by {
        var u :| u in units && IsAlliedQueen(u);
        assert u in units[1..];
      }
      1 + QueenIndex(units[1..])
  }

  /** The first allied queen of the unit list. */
  function GetQueen(units: seq<Unit>): (q: Unit)
    requires HasQueen(units)
    ensures q in units && IsAlliedQueen(q)
    ensures (exists k :: 0 <= k < |units| && units[k] == q &&
              forall j :: 0 <= j < k ==> !IsAlliedQueen(units[j]))
  {
    units[QueenIndex(units)]
  }

  // ---------------------------------------------------------------------------
  // Site lookups: the first site with a given id, or with a given position

  function SiteIndexById(sites: seq<Site>, id: int): (k: nat)
    ensures k <= |sites|
    ensures k < |sites| ==> sites[k].siteId == id
    ensures forall j :: 0 <= j < k ==> sites[j].siteId != id
  {
    if sites == [] then 0
    else if sites[0].siteId == id then 0
    else 1 + SiteIndexById(sites[1..], id)
  }

  function GetSiteById(sites: seq<Site>, id: int): (r: Option<Site>)
    ensures r.None? <==> forall s :: s in sites ==> s.siteId != id
    ensures r.Some? ==> r.value in sites && r.value.siteId == id
    ensures r.Some? ==> (exists k :: 0 <= k < |sites| && sites[k] == r.value &&
                          forall j :: 0 <= j < k ==> sites[j].siteId != id)
  {
    var k := SiteIndexById(sites, id);
    if k < |sites| then Some(sites[k]) else None
  }

  function SiteIndexByPosition(sites: seq<Site>, pos: Position): (k: nat)
    ensures k <= |sites|
    ensures k < |sites| ==> sites[k].position == pos
    ensures forall j :: 0 <= j < k ==> sites[j].position != pos
  {
    if sites == [] then 0
    else if sites[0].position == pos then 0
    else 1 + SiteIndexByPosition(sites[1..], pos)
  }

  function GetSiteByPosition(sites: seq<Site>, pos: Position): (r: Option<Site>)
    ensures r.None? <==> forall s :: s in sites ==> s.position != pos
    ensures r.Some? ==> r.value in sites && r.value.position == pos
    ensures r.Some? ==> (exists k :: 0 <= k < |sites| && sites[k] == r.value &&
                          forall j :: 0 <= j < k ==> sites[j].position != pos)
  {
    var k := SiteIndexByPosition(sites, pos);
    if k < |sites| then Some(sites[k]) else None
  }

  /** The lookups find the site at index i when no earlier site matches. */
  lemma GetSiteAt(sites: seq<Site>, i: nat)
    requires i < |sites|
    ensures (forall k :: 0 <= k < i ==> sites[k].siteId != sites[i].siteId) ==>
              GetSiteById(sites, sites[i].siteId) == Some(sites[i])
    ensures (forall k :: 0 <= k < i ==> sites[k].position != sites[i].position) ==>
              GetSiteByPosition(sites, sites[i].position) == Some(sites[i])
  {
    if forall k :: 0 <= k < i ==> sites[k].siteId != sites[i].siteId {
      var k := SiteIndexById(sites, sites[i].siteId);
      assert k == i;
    }
    if forall k :: 0 <= k < i ==> sites[k].position != sites[i].position {
      var k := SiteIndexByPosition(sites, sites[i].position);
      assert k == i;
    }
  }

  // ---------------------------------------------------------------------------
  // Construction-site filters

  /** The five filters the game state applies to the construction list. */
  datatype Filter = WithoutConstruction | BowmanBarrack | KnightBarrack | AnyBarrack | OwnedTower

  /** Whether a construction site passes a filter. "Without construction"
      looks at the owner only, not at the structure type. A barrack's param2
      is the unit type it trains: 0 knights, 1 bowmen. */
  predicate Keeps(f: Filter, c: ConstructionSite)
  {
    match f
    case WithoutConstruction => c.owner == Unowned
    case BowmanBarrack => c.structureType == Barrack && c.owner == Allied && c.param2 == 1
    case KnightBarrack => c.structureType == Barrack && c.owner == Allied && c.param2 == 0
    case AnyBarrack => c.structureType == Barrack && c.owner == Allied
    case OwnedTower => c.structureType == Tower && c.owner == Allied
  }

  /** The ids of the construction sites that pass f, in list order. */
  function SelectIds(cs: seq<ConstructionSite>, f: Filter): (r: seq<int>)
    ensures |r| <= |cs|
    ensures forall id :: id in r <==> exists c :: c in cs && Keeps(f, c) && c.siteId == id
  {
    if cs == [] then []
    else (if Keeps(f, cs[0]) then [cs[0].siteId] else []) + SelectIds(cs[1..], f)
  }

  /** Filtering keeps list order: the ids of a concatenation are the ids of
      the first part followed by those of the second. */
  lemma {:induction false} SelectIdsAppend(a: seq<ConstructionSite>, b: seq<ConstructionSite>, f: Filter)
    ensures SelectIds(a + b, f) == SelectIds(a, f) + SelectIds(b, f)
  {
    if a != [] {
      var head := if Keeps(f, a[0]) then [a[0].siteId] else [];
      assert (a + b)[0] == a[0];
      assert (a + b)[1..] == a[1..] + b;
      assert SelectIds(a + b, f) == head + SelectIds(a[1..] + b, f);
      SelectIdsAppend(a[1..], b, f);
      AppendAssoc(head, SelectIds(a[1..], f), SelectIds(b, f));
    } else {
      assert a + b == b;
    }
  }

  lemma AppendAssoc<T>(x: seq<T>, y: seq<T>, z: seq<T>)
    ensures x + (y + z) == (x + y) + z
  {
  }

  /** The ids of sites nobody owns. */
  function SitesIdWithoutConstruction(cs: seq<ConstructionSite>): (r: seq<int>)
    ensures forall id :: id in r <==> exists c :: c in cs && c.owner == Unowned && c.siteId == id
  {
    SelectIds(cs, WithoutConstruction)
  }

  /** The ids of allied barracks that train bowmen. */
  function BarrackBowmanIds(cs: seq<ConstructionSite>): (r: seq<int>)
    ensures forall id :: id in r <==> (exists c :: c in cs && c.structureType == Barrack &&
                                        c.owner == Allied && c.param2 == 1 && c.siteId == id)
  {
    SelectIds(cs, BowmanBarrack)
  }

  /** The ids of allied barracks that train knights. */
  function BarrackKnightIds(cs: seq<ConstructionSite>): (r: seq<int>)
    ensures forall id :: id in r <==> (exists c :: c in cs && c.structureType == Barrack &&
                                        c.owner == Allied && c.param2 == 0 && c.siteId == id)
  {
    SelectIds(cs, KnightBarrack)
  }

  /** The ids of all allied barracks. */
  function BarrackIds(cs: seq<ConstructionSite>): (r: seq<int>)
    ensures forall id :: id in r <==> (exists c :: c in cs && c.structureType == Barrack &&
                                        c.owner == Allied && c.siteId == id)
  {
    SelectIds(cs, AnyBarrack)
  }

  /** The ids of allied towers. */
  function TowerIds(cs: seq<ConstructionSite>): (r: seq<int>)
    ensures forall id :: id in r <==> (exists c :: c in cs && c.structureType == Tower &&
                                        c.owner == Allied && c.siteId == id)
  {
    SelectIds(cs, OwnedTower)
  }

  /** Bowman and knight barracks are disjoint kinds of allied barracks, so
      together they are never more than all allied barracks. */
  lemma {:induction false} BarrackCounts(cs: seq<ConstructionSite>)
    ensures |BarrackBowmanIds(cs)| + |BarrackKnightIds(cs)| <= |BarrackIds(cs)|
  {
    if cs != [] {
      BarrackCounts(cs[1..]);
    }
  }

  /** Every id of a bowman or knight barrack is also an id of an allied barrack. */
  lemma BarrackKindsAreBarracks(cs: seq<ConstructionSite>, id: int)
    ensures id in BarrackBowmanIds(cs) ==> id in BarrackIds(cs)
    ensures id in BarrackKnightIds(cs) ==> id in BarrackIds(cs)
  {
  }

  /** A construction site passes at most one of the barrack, tower and
      unowned filters, so allied barracks, allied towers and unowned sites
      together are at most the whole list. */
  lemma {:induction false} StructureCounts(cs: seq<ConstructionSite>)
    ensures |BarrackIds(cs)| + |TowerIds(cs)| + |SitesIdWithoutConstruction(cs)| <= |cs|
  {
    if cs != [] {
      StructureCounts(cs[1..]);
    }
  }

  // ---------------------------------------------------------------------------
  // Candidate positions

  /** The positions of the sites with the given ids, in id order, skipping
      ids no site carries. */
  function PositionsOf(sites: seq<Site>, ids: seq<int>): (r: seq<Position>)
    ensures |r| <= |ids|
    ensures forall p :: p in r <==> (exists id :: id in ids && GetSiteById(sites, id).Some? &&
                                      GetSiteById(sites, id).value.position == p)
  {
    if ids == [] then []
    else
      (match GetSiteById(sites, ids[0])
       case Some(s) => [s.position]
       case None => [])
      + PositionsOf(sites, ids[1..])
  }

  /** Positions keep the order of their ids: the positions of a
      concatenation of ids are those of each part, in order. */
  lemma {:induction false} PositionsOfAppend(sites: seq<Site>, a: seq<int>, b: seq<int>)
    ensures PositionsOf(sites, a + b) == PositionsOf(sites, a) + PositionsOf(sites, b)
  {
    if a != [] {
      var head := match GetSiteById(sites, a[0]) case Some(s) => [s.position] case None => [];
      assert (a + b)[0] == a[0];
      assert (a + b)[1..] == a[1..] + b;
      assert PositionsOf(sites, a + b) == head + PositionsOf(sites, a[1..] + b);
      PositionsOfAppend(sites, a[1..], b);
      AppendAssoc(head, PositionsOf(sites, a[1..]), PositionsOf(sites, b));
    } else {
      assert a + b == b;
    }
  }

  /** The positions of the sites nobody owns, in construction-list order. */
  function SitesPosWithoutConstruction(sites: seq<Site>, cs: seq<ConstructionSite>): (r: seq<Position>)
    ensures forall p :: p in r <==> (exists id :: id in SitesIdWithoutConstruction(cs) &&
                                      GetSiteById(sites, id).Some? && GetSiteById(sites, id).value.position == p)
  {
    PositionsOf(sites, SitesIdWithoutConstruction(cs))
  }

  /** The candidate positions follow the construction list: those of a
      concatenation of construction lists are those of each part, in order. */
  lemma SitesPosAppend(sites: seq<Site>, a: seq<ConstructionSite>, b: seq<ConstructionSite>)
    ensures SitesPosWithoutConstruction(sites, a + b) ==
            SitesPosWithoutConstruction(sites, a) + SitesPosWithoutConstruction(sites, b)
  {
    SelectIdsAppend(a, b, WithoutConstruction);
    PositionsOfAppend(sites, SelectIds(a, WithoutConstruction), SelectIds(b, WithoutConstruction));
  }
}
