/** The bot's persistent state: the site list read once at the start of the
    match, the snapshot replaced every turn, and the movement target, the one
    value carried from turn to turn. Its methods are the per-turn decisions. */
module Game {
  import opened Entities
  import opened Text
  import opened Queries
  import opened Nearest
  import opened Decisions

  class GameState {
    var numSites: int
    var gold: int
    var touchedSite: int
    var sites: seq<Site>
    var constructionSites: seq<ConstructionSite>
    var numUnits: int
    var units: seq<Unit>
    var target: Option<int>

    /** The state before any site has been read: no touched site, no target. */
    constructor (numSites: int)
      ensures this.numSites == numSites && gold == 0 && touchedSite == -1
      ensures sites == [] && constructionSites == [] && numUnits == 0 && units == []
      ensures target == None
    {
      this.numSites := numSites;
      gold := 0;
      touchedSite := -1;
      sites := [];
      constructionSites := [];
      numUnits := 0;
      units := [];
      target := None;
    }

    /** Records one site of the match's initial site list. */
    method AddSite(site: Site)
      modifies this`sites
      ensures sites == old(sites) + [site]
    {
      sites := sites + [site];
    }

    /** Takes in one turn's snapshot: gold, touched site, the construction
        list and the unit list are replaced wholesale; the sites and the
        target are kept. */
    method LoadTurn(newGold: int, newTouchedSite: int, cs: seq<ConstructionSite>, newUnits: seq<Unit>)
      modifies this`gold, this`touchedSite, this`constructionSites, this`numUnits, this`units
      ensures gold == newGold && touchedSite == newTouchedSite
      ensures constructionSites == cs && units == newUnits && numUnits == |newUnits|
      ensures sites == old(sites) && target == old(target)
    {
      gold := newGold;
      touchedSite := newTouchedSite;
      constructionSites := cs;
      numUnits := |newUnits|;
      units := newUnits;
    }

    /** Keeps the target while it names a site nobody owns; otherwise moves
        it to the site at the unowned position nearest to the queen, or to 0
        when there is none. Only the target changes. */
    method UpdateTarget() returns (r: int)
      requires CacheValid(target, constructionSites) || HasQueen(units)
      modifies this`target
      ensures target == Some(r)
      ensures CacheValid(old(target), constructionSites) ==> r == old(target).value
      ensures !CacheValid(old(target), constructionSites) ==>
                r == RecomputeTarget(sites, constructionSites, GetQueen(units).position)
      ensures r == NextTarget(old(target), sites, constructionSites, units)
    {
      var stale := target == None || target.value !in SitesIdWithoutConstruction(constructionSites);
      if stale {
        var pos := SitesPosWithoutConstruction(sites, constructionSites);
        var nearest := FindNearest(GetQueen(units).position, pos);
        match nearest {
          case Some(p) =>
            match GetSiteByPosition(sites, p) {
              case Some(site) => target := Some(site.siteId);
              case None => target := Some(0);
            }
          case None => target := Some(0);
        }
      }
      r := target.value;
    }

    /** Chooses the structure by the build-order cascade, updates the target
        and returns the build command for it. */
    method ChooseWhatToBuild() returns (command: string)
      requires CacheValid(target, constructionSites) || HasQueen(units)
      modifies this`target
      ensures target == Some(NextTarget(old(target), sites, constructionSites, units))
      ensures command == BuildCommand(target.value, BuildChoice(constructionSites))
    {
      var cs := constructionSites;
      var building := DefenceTower;
      if |BarrackBowmanIds(cs)| < 1 {
        building := ArcherBarracks;
      } else if |BarrackKnightIds(cs)| < 1 {
        building := KnightBarracks;
      } else if |TowerIds(cs)| < 1 {
        building := DefenceTower;
      } else if |BarrackBowmanIds(cs)| < |BarrackKnightIds(cs)| && |BarrackIds(cs)| < 4 {
        building := ArcherBarracks;
      } else if |BarrackBowmanIds(cs)| >= |BarrackKnightIds(cs)| && |BarrackIds(cs)| < 4 {
        building := KnightBarracks;
      }
      var site := UpdateTarget();
      command := "BUILD " + IntToString(site) + " " + Keyword(building);
    }

    /** Lists every allied barrack, in construction-list order, in one
        training command. */
    method ChooseWhatToTrain() returns (command: string)
      ensures command == TrainCommand(BarrackIds(constructionSites))
    {
      var ids := BarrackIds(constructionSites);
      if |ids| == 0 {
        return "TRAIN";
      }
      var toTrain := "";
      for i := 0 to |ids|
        invariant toTrain == SpaceLed(ids[..i])
      {
        SpaceLedPrefix(ids, i);
        toTrain := toTrain + " " + IntToString(ids[i]);
      }
      assert ids[..|ids|] == ids;
      TrimmedSpaceLed(ids);
      command := "TRAIN " + TrimStart(TrimEnd(toTrain));
    }

    /** One turn's two output lines: the build command, then the training
        command. */
    method TakeTurn() returns (build: string, train: string)
      requires CacheValid(target, constructionSites) || HasQueen(units)
      modifies this`target
      ensures target == Some(NextTarget(old(target), sites, constructionSites, units))
      ensures build == BuildCommand(target.value, BuildChoice(constructionSites))
      ensures train == TrainCommand(BarrackIds(constructionSites))
    {
      build := ChooseWhatToBuild();
      train := ChooseWhatToTrain();
    }
  }

  /** Two target updates in a row on an unchanged snapshot return the same
      site, and the target then holds it. */
  method UpdateTargetTwice(g: GameState) returns (first: int, second: int)
    requires CacheValid(g.target, g.constructionSites) || HasQueen(g.units)
    modifies g`target
    ensures second == NextTarget(old(g.target), g.sites, g.constructionSites, g.units)
    ensures first == second && g.target == Some(second)
  {
    first := g.UpdateTarget();
    NextTargetIdempotent(old(g.target), g.sites, g.constructionSites, g.units);
    second := g.UpdateTarget();
  }
}
