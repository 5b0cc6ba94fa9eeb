/** The three decisions of a turn, as functions of the snapshot: which
    structure to build (a fixed priority cascade over counts of allied
    structures), which barracks train (every allied barrack, in list order),
    and where the queen goes (a target kept until it is taken, otherwise
    the site listed first at the nearest unowned position). Also the wire
    text of the two commands and the decoders that read it back. */
module Decisions {
  import opened Entities
  import opened Text
  import opened Queries
  import opened Nearest

  // ---------------------------------------------------------------------------
  // Build order

  datatype Building = DefenceTower | ArcherBarracks | KnightBarracks

  function Keyword(b: Building): string
  {
    match b
    case DefenceTower => "TOWER"
    case ArcherBarracks => "BARRACKS-ARCHER"
    case KnightBarracks => "BARRACKS-KNIGHT"
  }

  function BuildingFromKeyword(w: string): (r: Option<Building>)
    ensures r.Some? ==> Keyword(r.value) == w
  {
    if w == "TOWER" then Some(DefenceTower)
    else if w == "BARRACKS-ARCHER" then Some(ArcherBarracks)
    else if w == "BARRACKS-KNIGHT" then Some(KnightBarracks)
    else None
  }

  /** The build-order cascade over the counts of allied bowman barracks,
      knight barracks, towers and barracks of any kind; the first rule that
      applies decides. The three ensures clauses give, for each structure,
      exactly the counts under which it is chosen. */
  function BuildRule(bowman: nat, knight: nat, towers: nat, barracks: nat): (b: Building)
    ensures b == ArcherBarracks <==>
              bowman == 0 || (knight >= 1 && towers >= 1 && bowman < knight && barracks < 4)
    ensures b == KnightBarracks <==>
              bowman >= 1 && (knight == 0 || (towers >= 1 && bowman >= knight && barracks < 4))
    ensures b == DefenceTower <==>
              bowman >= 1 && knight >= 1 && (towers == 0 || barracks >= 4)
  {
    if bowman < 1 then ArcherBarracks
    else if knight < 1 then KnightBarracks
    else if towers < 1 then DefenceTower
    else if bowman < knight && barracks < 4 then ArcherBarracks
    else if bowman >= knight && barracks < 4 then KnightBarracks
    else DefenceTower
  }

  /** The cascade applied to the counts of a construction snapshot. */
  function BuildChoice(cs: seq<ConstructionSite>): Building
  {
    BuildRule(|BarrackBowmanIds(cs)|, |BarrackKnightIds(cs)|, |TowerIds(cs)|, |BarrackIds(cs)|)
  }

  /** On a real snapshot: once one barrack of each kind and a tower stand,
      the queen builds a tower exactly when four barracks stand, and
      otherwise the barrack kind there are fewer of (knights on a tie); a
      barrack of the missing kind always comes first. */
  lemma {:induction false} BuildChoiceOnSnapshot(cs: seq<ConstructionSite>)
    ensures |BarrackBowmanIds(cs)| == 0 ==> BuildChoice(cs) == ArcherBarracks
    ensures |BarrackBowmanIds(cs)| >= 1 && |BarrackKnightIds(cs)| == 0 ==>
              BuildChoice(cs) == KnightBarracks
    ensures |BarrackBowmanIds(cs)| >= 1 && |BarrackKnightIds(cs)| >= 1 ==>
              2 <= |BarrackIds(cs)| &&
              (BuildChoice(cs) == DefenceTower <==> |TowerIds(cs)| == 0 || |BarrackIds(cs)| >= 4)
    ensures BuildChoice(cs) == ArcherBarracks && |BarrackBowmanIds(cs)| >= 1 ==>
              |BarrackBowmanIds(cs)| < |BarrackKnightIds(cs)| && |BarrackIds(cs)| <= 3
  {
    BarrackCounts(cs);
  }

  // ---------------------------------------------------------------------------
  // Command text

  /** The build command: the target site id and the structure keyword. */
  function BuildCommand(target: int, b: Building): string
  {
    "BUILD " + IntToString(target) + " " + Keyword(b)
  }

  /** Reads a build command back: exactly three words, the first BUILD. */
  function DecodeBuild(s: string): Option<(int, Building)>
  {
    var ws := Split(s);
    if |ws| != 3 || ws[0] != "BUILD" then None
    else match (ParseInt(ws[1]), BuildingFromKeyword(ws[2]))
      case (Some(t), Some(b)) => Some((t, b))
      case _ => None
  }

  lemma IntToStringNoSpace(n: int)
    ensures NoSpace(IntToString(n))
  {
    var s := IntToString(n);
    forall i | 0 <= i < |s| ensures s[i] != ' ' {
      assert IsDigit(s[i]) || s[i] == '-';
    }
  }

  lemma SplitBuildCommand(target: int, b: Building)
    ensures Split(BuildCommand(target, b)) == ["BUILD", IntToString(target), Keyword(b)]
  {
    var t, k := IntToString(target), Keyword(b);
    IntToStringNoSpace(target);
    assert NoSpace("BUILD") && NoSpace(k);
    assert BuildCommand(target, b) == "BUILD" + " " + t + " " + k;
    SplitThreeWords("BUILD", t, k);
  }

  lemma KeywordRoundTrip(b: Building)
    ensures BuildingFromKeyword(Keyword(b)) == Some(b)
  {
  }

  /** A build command reads back as the target and the structure it names. */
  lemma DecodeBuildCommand(target: int, b: Building)
    ensures DecodeBuild(BuildCommand(target, b)) == Some((target, b))
  {
    SplitBuildCommand(target, b);
    ParseIntOfIntToString(target);
    KeywordRoundTrip(b);
  }

  /** The text the training loop accumulates: a space before every id. */
  function SpaceLed(ids: seq<int>): string
  {
    if ids == [] then "" else SpaceLed(ids[..|ids| - 1]) + " " + IntToString(ids[|ids| - 1])
  }

  /** The train command: TRAIN, then each id after a single space. */
  function TrainCommand(ids: seq<int>): string
  {
    "TRAIN" + SpaceLed(ids)
  }

  /** Parses every word as an integer. */
  function ParseAll(ws: seq<string>): Option<seq<int>>
  {
    if ws == [] then Some([])
    else match (ParseAll(ws[..|ws| - 1]), ParseInt(ws[|ws| - 1]))
      case (Some(vs), Some(v)) => Some(vs + [v])
      case _ => None
  }

  lemma ParseAllSnoc(ws: seq<string>, w: string, vs: seq<int>, v: int)
    requires ParseAll(ws) == Some(vs) && ParseInt(w) == Some(v)
    ensures ParseAll(ws + [w]) == Some(vs + [v])
  {
    assert (ws + [w])[..|ws|] == ws;
  }

  lemma TrainCommandSnoc(ids: seq<int>)
    requires ids != []
    ensures TrainCommand(ids) == TrainCommand(ids[..|ids| - 1]) + " " + IntToString(ids[|ids| - 1])
  {
  }

  lemma InitPlusLast<T>(s: seq<T>)
    requires |s| >= 1
    ensures s[..|s| - 1] + [s[|s| - 1]] == s
  {
  }

  lemma PairIsConcat<T>(x: T, y: T)
    ensures [x, y] == [x] + [y]
  {
  }

  lemma TailOfSnoc<T>(a: seq<T>, x: T)
    requires |a| >= 1
    ensures (a + [x])[1..] == a[1..] + [x]
  {
  }

  /** Reads a train command back: TRAIN and then the ids. */
  function DecodeTrain(s: string): Option<seq<int>>
  {
    var ws := Split(s);
    if ws[0] != "TRAIN" then None else ParseAll(ws[1..])
  }

  /** The pieces of a train command are TRAIN and then one piece per id,
      each of which parses back to its id. */
  lemma {:induction false} SplitTrainCommand(ids: seq<int>)
    ensures |Split(TrainCommand(ids))| == |ids| + 1
    ensures Split(TrainCommand(ids))[0] == "TRAIN"
    ensures ParseAll(Split(TrainCommand(ids))[1..]) == Some(ids)
  {
    if ids == [] {
      assert NoSpace("TRAIN");
      SplitWord("TRAIN");
    } else {
      var init, last := ids[..|ids| - 1], ids[|ids| - 1];
      var w := IntToString(last);
      SplitTrainCommand(init);
      var before := Split(TrainCommand(init));
      TrainCommandSnoc(ids);
      IntToStringNoSpace(last);
      SplitSnoc(TrainCommand(init), w);
      TailOfSnoc(before, w);
      ParseIntOfIntToString(last);
      ParseAllSnoc(before[1..], w, init, last);
      InitPlusLast(ids);
    }
  }

  /** A train command reads back as exactly the ids it was made from, in
      order; in particular it is TRAIN alone only for no ids. */
  lemma DecodeTrainCommand(ids: seq<int>)
    ensures DecodeTrain(TrainCommand(ids)) == Some(ids)
  {
    SplitTrainCommand(ids);
  }

  lemma TrainCommandExamples()
    ensures TrainCommand([]) == "TRAIN"
    ensures TrainCommand([3, 7]) == "TRAIN 3 7"
  {
    assert IntToString(3) == "3" && IntToString(7) == "7";
    assert [3, 7][..1] == [3];
    assert [3][..0] == [];
  }

  lemma {:induction false} SpaceLedShape(ids: seq<int>)
    requires ids != []
    ensures |SpaceLed(ids)| >= 2 && SpaceLed(ids)[0] == ' '
    ensures !IsWhitespace(SpaceLed(ids)[1])
    ensures !IsWhitespace(SpaceLed(ids)[|SpaceLed(ids)| - 1])
  {
    var init := ids[..|ids| - 1];
    var w := IntToString(ids[|ids| - 1]);
    assert IsDigit(w[0]) || w[0] == '-';
    if init != [] {
      SpaceLedShape(init);
    }
    SpaceLedAppend(SpaceLed(init), w);
  }

  /** Accumulating one more id extends the text by a space and that id. */
  lemma SpaceLedPrefix(ids: seq<int>, i: nat)
    requires i < |ids|
    ensures SpaceLed(ids[..i + 1]) == SpaceLed(ids[..i]) + " " + IntToString(ids[i])
  {
    assert ids[..i + 1][..i] == ids[..i];
  }

  /** Trimming the accumulated text and putting "TRAIN " in front gives the
      train command. */
  lemma TrimmedSpaceLed(ids: seq<int>)
    requires ids != []
    ensures "TRAIN " + TrimStart(TrimEnd(SpaceLed(ids))) == TrainCommand(ids)
  {
    var s := SpaceLed(ids);
    assert TrainCommand(ids) == "TRAIN" + s;
    SpaceLedShape(ids);
    assert "TRAIN " == "TRAIN" + " ";
    TrimmedAfterWord("TRAIN ", "TRAIN", s);
  }

  // ---------------------------------------------------------------------------
  // Target cache

  /** No two sites share a position. The bot does not check this; it is an
      assumption of the lemmas that take it, and without it a fresh target
      can be a site that is not unowned (SharedPositionTargetsFirstListedSite). */
  predicate DistinctPositions(sites: seq<Site>)
  {
    forall i, j :: 0 <= i < j < |sites| ==> sites[i].position != sites[j].position
  }

  /** The cached target still names a site nobody owns. */
  predicate CacheValid(target: Option<int>, cs: seq<ConstructionSite>)
  {
    target.Some? && target.value in SitesIdWithoutConstruction(cs)
  }

  /** A fresh target: the site at the unowned position nearest to the queen,
      or 0 when there is no such position or no site stands there. */
  function RecomputeTarget(sites: seq<Site>, cs: seq<ConstructionSite>, queen: Position): (r: int)
    ensures SitesPosWithoutConstruction(sites, cs) == [] ==> r == 0
    ensures r == 0 || exists s :: s in sites && s.siteId == r &&
                                  s.position in SitesPosWithoutConstruction(sites, cs)
    ensures var near := FindNearest(queen, SitesPosWithoutConstruction(sites, cs));
            near.Some? && (exists s :: s in sites && s.position == near.value) ==>
              (exists k :: 0 <= k < |sites| && sites[k].position == near.value && r == sites[k].siteId &&
                 forall j :: 0 <= j < k ==> sites[j].position != near.value)
    ensures var near := FindNearest(queen, SitesPosWithoutConstruction(sites, cs));
            near.None? || (forall s :: s in sites ==> s.position != near.value) ==> r == 0
  {
    var candidates := SitesPosWithoutConstruction(sites, cs);
    FindNearestIsFirstMinimum(queen, candidates);
    match FindNearest(queen, candidates)
    case None => 0
    case Some(pos) =>
      match GetSiteByPosition(sites, pos)
      case Some(site) => site.siteId
      case None => 0
  }

  /** The target after one update: the cached one while it is valid,
      otherwise a fresh one measured from the first allied queen (the queen
      is looked up only then). */
  function NextTarget(target: Option<int>, sites: seq<Site>, cs: seq<ConstructionSite>, units: seq<Unit>): (r: int)
    requires CacheValid(target, cs) || HasQueen(units)
    ensures CacheValid(target, cs) ==> r == target.value
    ensures !CacheValid(target, cs) ==>
              r == 0 || exists s :: s in sites && s.siteId == r &&
                                    s.position in SitesPosWithoutConstruction(sites, cs)
  {
    if CacheValid(target, cs) then target.value else RecomputeTarget(sites, cs, GetQueen(units).position)
  }

  /** Updating twice on an unchanged snapshot gives the same target as
      updating once. */
  lemma NextTargetIdempotent(target: Option<int>, sites: seq<Site>, cs: seq<ConstructionSite>, units: seq<Unit>)
    requires CacheValid(target, cs) || HasQueen(units)
    ensures var once := NextTarget(target, sites, cs, units);
            (CacheValid(Some(once), cs) || HasQueen(units)) &&
            NextTarget(Some(once), sites, cs, units) == once
  {
  }

  /** With sites at distinct positions and some site nobody owns, a fresh
      target is the id of an unowned site whose position is nearest to the
      queen among all unowned positions. */
  lemma RecomputedTargetIsNearestUnowned(sites: seq<Site>, cs: seq<ConstructionSite>, queen: Position)
    requires DistinctPositions(sites)
    requires SitesPosWithoutConstruction(sites, cs) != []
    ensures var r := RecomputeTarget(sites, cs, queen);
            r in SitesIdWithoutConstruction(cs) &&
            GetSiteById(sites, r).Some? &&
            GetSiteById(sites, r).value.position in SitesPosWithoutConstruction(sites, cs) &&
            forall q :: q in SitesPosWithoutConstruction(sites, cs) ==>
              SqDistance(queen, GetSiteById(sites, r).value.position) <= SqDistance(queen, q)
  {
    var candidates := SitesPosWithoutConstruction(sites, cs);
    FindNearestIsFirstMinimum(queen, candidates);
    var pos := FindNearest(queen, candidates).value;
    var id :| id in SitesIdWithoutConstruction(cs) && GetSiteById(sites, id).Some? &&
              GetSiteById(sites, id).value.position == pos;
    var s0 := GetSiteById(sites, id).value;
    var found := GetSiteByPosition(sites, pos);
    assert found.Some?;
    var s1 := found.value;
    assert s1 == s0 by {
      var a :| 0 <= a < |sites| && sites[a] == s0;
      var b :| 0 <= b < |sites| && sites[b] == s1;
      assert a == b;
    }
  }

  /** Ties go to the construction list's order: construction entries listed
      after the ones that already offer a candidate change a fresh target
      only with a position strictly nearer to the queen. */
  lemma RecomputeTargetPrefersEarlierListed(sites: seq<Site>, a: seq<ConstructionSite>, b: seq<ConstructionSite>,
                                            queen: Position)
    requires SitesPosWithoutConstruction(sites, a) != []
    requires forall q :: q in SitesPosWithoutConstruction(sites, b) ==>
               SqDistance(queen, FindNearest(queen, SitesPosWithoutConstruction(sites, a)).value) <= SqDistance(queen, q)
    ensures RecomputeTarget(sites, a + b, queen) == RecomputeTarget(sites, a, queen)
  {
    SitesPosAppend(sites, a, b);
    FindNearestKeepsEarlierOnTie(queen, SitesPosWithoutConstruction(sites, a), SitesPosWithoutConstruction(sites, b));
  }

  /** The candidates of an unowned entry alone: the position of its site. */
  lemma SingleUnownedCandidate(sites: seq<Site>, c: ConstructionSite, i: nat)
    requires i < |sites| && sites[i].siteId == c.siteId && c.owner == Unowned
    requires forall j :: 0 <= j < i ==> sites[j].siteId != c.siteId
    ensures SitesPosWithoutConstruction(sites, [c]) == [sites[i].position]
  {
    assert [c][1..] == [];
    assert SitesIdWithoutConstruction([c]) == [c.siteId];
    assert [c.siteId][1..] == [];
    GetSiteAt(sites, i);
  }

  /** Of two unowned entries, the one listed first gives the fresh target
      when its site is at most as far from the queen as the other's (equally
      near included) and is the first site listed at its position. */
  lemma FirstOfTwoEquidistant(sites: seq<Site>, c: ConstructionSite, d: ConstructionSite, i: nat, j: nat,
                              queen: Position)
    requires i < |sites| && sites[i].siteId == c.siteId && c.owner == Unowned
    requires forall k :: 0 <= k < i ==> sites[k].siteId != c.siteId
    requires j < |sites| && sites[j].siteId == d.siteId && d.owner == Unowned
    requires forall k :: 0 <= k < j ==> sites[k].siteId != d.siteId
    requires forall k :: 0 <= k < i ==> sites[k].position != sites[i].position
    requires SqDistance(queen, sites[i].position) <= SqDistance(queen, sites[j].position)
    ensures RecomputeTarget(sites, [c, d], queen) == c.siteId
  {
    var p := sites[i].position;
    SingleUnownedCandidate(sites, c, i);
    SingleUnownedCandidate(sites, d, j);
    FindNearestIsFirstMinimum(queen, [p]);
    assert FindNearest(queen, [p]) == Some(p);
    GetSiteAt(sites, i);
    PairIsConcat(c, d);
    RecomputeTargetPrefersEarlierListed(sites, [c], [d], queen);
  }

  /** Sites 1 at (1, 0) and 2 at (0, 1) are equally near a queen at the
      origin: the unowned entry listed first becomes the target. */
  lemma RecomputeTargetTieBreak()
    ensures var sites := [Site(1, Position(1, 0), 10), Site(2, Position(0, 1), 10)];
            var one := ConstructionSite(1, NoStructure, Unowned, -1, -1, -1, -1);
            var two := ConstructionSite(2, NoStructure, Unowned, -1, -1, -1, -1);
            RecomputeTarget(sites, [two, one], Position(0, 0)) == 2 &&
            RecomputeTarget(sites, [one, two], Position(0, 0)) == 1
  {
    var sites := [Site(1, Position(1, 0), 10), Site(2, Position(0, 1), 10)];
    var one := ConstructionSite(1, NoStructure, Unowned, -1, -1, -1, -1);
    var two := ConstructionSite(2, NoStructure, Unowned, -1, -1, -1, -1);
    FirstOfTwoEquidistant(sites, two, one, 1, 0, Position(0, 0));
    FirstOfTwoEquidistant(sites, one, two, 0, 1, Position(0, 0));
  }

  /** An owned entry followed by one unowned entry: the only candidate is the
      unowned entry's position, and the fresh target is the first site listed
      there, whichever site that is. */
  lemma OwnedThenUnowned(sites: seq<Site>, c: ConstructionSite, d: ConstructionSite, j: nat, k: nat,
                         queen: Position)
    requires c.owner != Unowned
    requires j < |sites| && sites[j].siteId == d.siteId && d.owner == Unowned
    requires forall m :: 0 <= m < j ==> sites[m].siteId != d.siteId
    requires k < |sites| && sites[k].position == sites[j].position
    requires forall m :: 0 <= m < k ==> sites[m].position != sites[k].position
    ensures RecomputeTarget(sites, [c, d], queen) == sites[k].siteId
  {
    var p := sites[j].position;
    SingleUnownedCandidate(sites, d, j);
    assert [c][1..] == [];
    assert SitesPosWithoutConstruction(sites, [c]) == [];
    PairIsConcat(c, d);
    SitesPosAppend(sites, [c], [d]);
    FindNearestIsFirstMinimum(queen, [p]);
    assert FindNearest(queen, [p]) == Some(p);
    GetSiteAt(sites, k);
  }

  /** When two sites share a position, the position lookup answers the first
      site listed there, even if that one is owned: sites 1 and 2 both at
      (5, 5), site 1 an allied tower and site 2 unowned. */
  lemma SharedPositionTargetsFirstListedSite()
    ensures var sites := [Site(1, Position(5, 5), 10), Site(2, Position(5, 5), 10)];
            var cs := [ConstructionSite(1, Tower, Allied, -1, -1, -1, -1),
                       ConstructionSite(2, NoStructure, Unowned, -1, -1, -1, -1)];
            RecomputeTarget(sites, cs, Position(0, 0)) == 1 &&
            1 !in SitesIdWithoutConstruction(cs)
  {
    var sites := [Site(1, Position(5, 5), 10), Site(2, Position(5, 5), 10)];
    var tower := ConstructionSite(1, Tower, Allied, -1, -1, -1, -1);
    var free := ConstructionSite(2, NoStructure, Unowned, -1, -1, -1, -1);
    OwnedThenUnowned(sites, tower, free, 1, 0, Position(0, 0));
  }

  /** Hence such a fresh target is kept by the next update while the
      snapshot does not change: the queen commits to it. */
  lemma RecomputedTargetIsKept(sites: seq<Site>, cs: seq<ConstructionSite>, queen: Position)
    requires DistinctPositions(sites)
    requires SitesPosWithoutConstruction(sites, cs) != []
    ensures CacheValid(Some(RecomputeTarget(sites, cs, queen)), cs)
  {
    RecomputedTargetIsNearestUnowned(sites, cs, queen);
  }
}
