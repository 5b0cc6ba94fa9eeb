# Code Royale bot: decision engine

A Dafny model of the per-turn decision engine of a bot for the Code Royale
game. At the start of a match the bot reads the fixed list of building
sites. Every turn it then takes in a snapshot of the board: gold, the
construction overlay on each site, and the units. It answers with two
commands:

- `BUILD <site> <KEYWORD>`: the queen builds on the target site.
  - The structure comes from a fixed priority cascade over the counts of
    allied bowman barracks, knight barracks, towers and barracks of any kind.
  - The target is sticky. It is kept while the site is still unowned.
    Otherwise it moves to the site listed first at the unowned position
    nearest to the allied queen. When sites stand at distinct positions,
    that is the nearest unowned site; when two sites share the position it
    may be an owned one (see `RecomputeTarget`). When there is no unowned
    position it falls back to `0`.
- `TRAIN` or `TRAIN id id ...`: every allied barrack trains, listed in
  construction-list order.

Modules, in dependency order:

- `Entities` (`entities.dfy`): the snapshot records and the three
  integer-coded enumerations, with their decoders from protocol codes.
- `Text` (`text.dfy`): decimal formatting as the `{}` placeholder writes
  integers, whitespace trimming, and the inverses a reader of the commands
  would apply (splitting on spaces, integer parsing).
- `Queries` (`queries.dfy`): the read-only queries over one snapshot: the
  allied queen, site lookup by id and by position, and the id filters.
- `Nearest` (`nearest.dfy`): squared distance and nearest-candidate
  selection. The selection is a stable sort by distance followed by taking
  the head. It is proved equal to an independent "first index of the
  minimum" scan.
- `Decisions` (`decisions.dfy`): the build cascade, the command text and
  its decoders, and the target-cache transition as functions.
- `Game` (`game_state.dfy`): the bot's state as the class `GameState`.
  - `UpdateTarget` changes only the `target` field.
  - `ChooseWhatToBuild` walks the if/else-if chain on a local variable.
  - `ChooseWhatToTrain` accumulates the training text in a loop.
  - Each method is proved against the functions of `Decisions`.

Points where the model follows the code:

- The fifth rule of the build cascade (bowman count at least knight count,
  fewer than four barracks) yields `BARRACKS-KNIGHT`. A tower is chosen
  only when no tower stands yet, or when four or more barracks stand
  (`src/main.rs:300-310`).
- "Without construction" means owner `-1` only. The structure type is not
  looked at (`src/main.rs:240`).
- The fallback target `0` may coincide with a real site id. If a site 0
  exists and no site is unowned, the bot emits `BUILD 0 ...` whoever owns
  site 0. `RecomputeTarget` states when the fallback is taken.
- Ties between equally near unowned sites go to the one listed first in the
  construction list, because the candidate positions keep that order and
  the sort is stable (`RecomputeTargetPrefersEarlierListed`).
- The bot never checks that sites stand at distinct positions, and
  nothing in the code guarantees it. The position lookup answers the first
  site listed at a position (`src/main.rs:234`, `src/main.rs:339-340`).
  The lemmas that conclude "the fresh target is the nearest unowned site"
  take distinct positions as an explicit assumption. Without it the target
  can be an owned site (`SharedPositionTargetsFirstListedSite`).
- The queen is looked up only when the cached target is stale. So the
  methods require "the cache is valid or an allied queen exists", not an
  allied queen unconditionally (`src/main.rs:334-337`).

Distances are compared as integer squared distances instead of `f64`
square roots. The square root is monotone, so the order of two candidates
is the same, ties included. This holds as long as two different squared
distances never round to the same floating-point root, which is true for
the game's coordinate range. Integers are unbounded throughout.

## Model

| member | source | states |
|---|---|---|
| Entities.OwnerFromCode | src/main.rs:179-188 | defined exactly on codes -1, 0, 1, and the decoded owner's code is the input |
| Entities.StructureTypeFromCode | src/main.rs:190-199 | defined exactly on codes -1, 1, 2, and the decoded structure type's code is the input |
| Entities.UnitTypeFromCode | src/main.rs:201-211 | defined exactly on codes -1, 0, 1, 2, and the decoded unit type's code is the input |
| Entities.CodesRoundTrip | src/main.rs:157-211 | decoding the declared discriminant of every enumerator gives that enumerator back |
| Text.IntToString | src/main.rs:312 | the canonical decimal text: digits, a leading '-' exactly for negatives, and no leading zeros ("0" alone for zero) |
| Text.ParseIntOfIntToString | src/main.rs:312 | parsing the formatted text of any integer gives the integer back |
| Text.SplitSnoc | src/main.rs:324 | appending a space and a space-free word to text appends exactly that word to its pieces |
| Text.SplitThreeWords | src/main.rs:312 | three space-free words joined by single spaces split back into exactly those three words |
| Text.TrimLeadingSpace | src/main.rs:326 | trimming text made of one space and a word that neither starts nor ends with whitespace leaves that word |
| Text.TrimStart | src/main.rs:326 | the result is a suffix of the text, everything cut off is whitespace, and it does not start with whitespace |
| Text.TrimEnd | src/main.rs:326 | the result is a prefix of the text, everything cut off is whitespace, and it does not end with whitespace |
| Queries.GetQueen | src/main.rs:220-227 | when an allied queen exists, the result is the first unit of the list that is an allied queen |
| Queries.GetSiteById | src/main.rs:229-231 | None exactly when no site has the id; otherwise the first site with that id |
| Queries.GetSiteByPosition | src/main.rs:233-235 | None exactly when no site stands at the position; otherwise the first site there |
| Queries.SelectIds | src/main.rs:237-291 | an id is in the result iff some construction site passing the filter carries it; never longer than the list |
| Queries.SelectIdsAppend | src/main.rs:237-291 | filtering keeps list order: the ids of a concatenation are the ids of each part, in order |
| Queries.SitesIdWithoutConstruction | src/main.rs:237-243 | an id is listed iff a construction site with owner -1 carries it, whatever its structure |
| Queries.BarrackBowmanIds | src/main.rs:253-263 | an id is listed iff an allied barrack training bowmen (param2 = 1) carries it |
| Queries.BarrackKnightIds | src/main.rs:265-275 | an id is listed iff an allied barrack training knights (param2 = 0) carries it |
| Queries.BarrackIds | src/main.rs:277-283 | an id is listed iff an allied barrack carries it |
| Queries.TowerIds | src/main.rs:285-291 | an id is listed iff an allied tower carries it |
| Queries.BarrackKindsAreBarracks | src/main.rs:253-283 | every bowman- or knight-barrack id is also an allied-barrack id |
| Queries.BarrackCounts | src/main.rs:253-283 | the bowman-barrack count plus the knight-barrack count is at most the allied-barrack count |
| Queries.StructureCounts | src/main.rs:237-291 | allied barracks, allied towers and unowned sites together are at most the construction list |
| Queries.PositionsOf | src/main.rs:246-250 | a position is listed iff it is the position of the first site carrying one of the ids; ids with no site are dropped |
| Queries.PositionsOfAppend | src/main.rs:246-250 | positions keep the order of their ids: those of a concatenation of ids are those of each part, in order |
| Queries.SitesPosWithoutConstruction | src/main.rs:245-251 | a position is listed iff it belongs to the site found for some unowned id |
| Queries.SitesPosAppend | src/main.rs:245-251 | candidate positions follow the construction list: those of a concatenation of lists are those of each part, in order |
| Nearest.SqDistance | src/main.rs:213-216 | squared distance is non-negative and zero exactly for equal positions |
| Nearest.SqDistanceSymmetric | src/main.rs:352-364 | the distance is the same measured from either end |
| Nearest.SqDistanceExamples | src/main.rs:352-364 | the distances of the game's distance test, squared: 100, 100, 200, and 50 for the queen test positions |
| Nearest.Insert | src/main.rs:406-417 | inserting into a sorted list keeps it sorted and adds exactly one occurrence of the element |
| Nearest.SortBy | src/main.rs:406-417 | the result is sorted by distance and is a permutation of the input |
| Nearest.FirstMinIndex | src/main.rs:406-420 | reference scan: the index of a minimum-distance candidate with every earlier candidate strictly farther |
| Nearest.SortHeadIsFirstMin | src/main.rs:406-420 | the head of the stable sort is the first candidate of minimum distance |
| Nearest.FirstMinIndexUnique | src/main.rs:406-420 | the first minimum is the only index at minimum distance whose predecessors are all strictly farther |
| Nearest.FindNearest | src/main.rs:401-423 | the nearest candidate; its contract is carried by Nearest.FindNearestIsFirstMinimum |
| Nearest.FindNearestIsFirstMinimum | src/main.rs:401-423 | None exactly for no candidates; otherwise a candidate at minimum distance, the earliest such in input order |
| Nearest.NearestAmongFartherCandidates | src/main.rs:367-399 | a candidate strictly nearer than all others is chosen wherever it sits in the list |
| Nearest.FindNearestKeepsEarlierOnTie | src/main.rs:406-420 | appending candidates none strictly nearer than the current choice, ties included, leaves the choice unchanged |
| Nearest.FindNearestSingle | src/main.rs:372-374 | the only candidate is chosen |
| Nearest.FindNearestFirstOfTwo | src/main.rs:376-378 | the near candidate is chosen ahead of a far one |
| Nearest.FindNearestInTheMiddle | src/main.rs:380-386 | the near candidate is chosen between two far ones |
| Nearest.FindNearestOneAxisClose | src/main.rs:388-394 | candidates close on one axis only do not win |
| Nearest.FindNearestAmongNearbyOnes | src/main.rs:396-398 | the nearest of three nearby candidates is chosen |
| Decisions.BuildingFromKeyword | src/main.rs:294-309 | a recognised keyword is the keyword of the decoded structure |
| Decisions.KeywordRoundTrip | src/main.rs:294-309 | every structure's keyword decodes to that structure |
| Decisions.BuildRule | src/main.rs:294-310 | for each structure, exactly the counts under which the first-match cascade picks it; the three cases cover all counts |
| Decisions.BuildChoice | src/main.rs:294-310 | the cascade on a snapshot's counts; its contract is carried by Decisions.BuildRule and Decisions.BuildChoiceOnSnapshot |
| Decisions.BuildChoiceOnSnapshot | src/main.rs:293-310 | on a real snapshot: archer barracks first, then knight barracks; once both stand, a tower exactly when no tower stands or four barracks do |
| Decisions.BuildCommand | src/main.rs:312 | the build command text; its contract is carried by Decisions.DecodeBuildCommand |
| Decisions.SplitBuildCommand | src/main.rs:312 | the build command's pieces are BUILD, the target's text and the keyword |
| Decisions.DecodeBuildCommand | src/main.rs:312 | the build command reads back as exactly the target and the structure |
| Decisions.SpaceLed | src/main.rs:322-325 | the text the training loop accumulates; its contract is carried by Decisions.TrimmedSpaceLed |
| Decisions.TrainCommand | src/main.rs:318-326 | the train command text; its contract is carried by Decisions.DecodeTrainCommand |
| Decisions.SplitTrainCommand | src/main.rs:315-327 | the train command has one piece per barrack after TRAIN, each parsing back to its id |
| Decisions.DecodeTrainCommand | src/main.rs:315-327 | the train command reads back as exactly the barrack ids, in order |
| Decisions.TrainCommandExamples | src/main.rs:318-326 | no barracks give "TRAIN"; ids 3 and 7 give "TRAIN 3 7" |
| Decisions.TrimmedSpaceLed | src/main.rs:322-326 | trimming the accumulated text and prefixing "TRAIN " gives TRAIN and the ids, single-spaced, with no leading or trailing space |
| Decisions.RecomputeTarget | src/main.rs:335-344 | a fresh target is 0 without a candidate or without a site at the nearest position; otherwise the id of the first site at the nearest unowned position |
| Decisions.RecomputeTargetPrefersEarlierListed | src/main.rs:335-344 | construction entries listed later change a fresh target only with a strictly nearer position: ties go to list order |
| Decisions.FirstOfTwoEquidistant | src/main.rs:335-344 | of two unowned entries, when the first one's site is at most as far from the queen as the second's and is the first site listed at its position, the first entry gives the fresh target |
| Decisions.OwnedThenUnowned | src/main.rs:335-344 | an owned entry then an unowned one: the fresh target is the first site listed at the unowned entry's position, whichever site that is |
| Decisions.SharedPositionTargetsFirstListedSite | src/main.rs:337-341 | two sites at one position, the first an allied tower and the second unowned: the fresh target is the allied site 1, which is not unowned |
| Decisions.RecomputeTargetTieBreak | src/main.rs:335-344 | sites 1 at (1, 0) and 2 at (0, 1) with a queen at the origin: listing 2 first gives 2, listing 1 first gives 1 |
| Decisions.NextTarget | src/main.rs:329-348 | a valid cached target is kept; a stale one becomes 0 or the id of a site at an unowned candidate position |
| Decisions.NextTargetIdempotent | src/main.rs:329-347 | updating the target twice on an unchanged snapshot gives the same id as updating once |
| Decisions.RecomputedTargetIsNearestUnowned | src/main.rs:335-344 | with distinct site positions and some candidate, a fresh target is an unowned site's id, and its position is at minimum distance from the queen |
| Decisions.RecomputedTargetIsKept | src/main.rs:330-334 | such a fresh target makes the cache valid, so the next update keeps it |
| Game.GameState.constructor | src/main.rs:14-23 | the initial state: no sites, no snapshot, touched site -1, no target |
| Game.GameState.AddSite | src/main.rs:110 | the site is appended to the site list |
| Game.GameState.LoadTurn | src/main.rs:55-94 | the snapshot fields are replaced wholesale; the sites and the target are kept |
| Game.GameState.UpdateTarget | src/main.rs:329-348 | only the target changes; it keeps a valid cached id, otherwise becomes the recomputed one, and the returned id is the new target |
| Game.GameState.ChooseWhatToBuild | src/main.rs:293-313 | the command is BUILD, the updated target and the keyword of the cascade's choice |
| Game.GameState.ChooseWhatToTrain | src/main.rs:315-327 | the command is the train command of the allied barrack ids in list order; nothing changes |
| Game.GameState.TakeTurn | src/main.rs:44-45 | one turn's two commands, build then train, and the target after the build decision |
| Game.UpdateTargetTwice | src/main.rs:329-348 | only the target changes; two updates in a row return the same id, the one transition of the old state gives, and the target then holds it |

## Left out

- Input parsing (`main`, `init_loop`, `first_loop_init`, `parse_input!`, `src/main.rs:3-111`) is stdin plumbing. The model takes site, construction and unit records as given. `AddSite` and `LoadTurn` keep the state effect of those routines.
- A unit's owner, unit type and health are read from the field before the one the input line puts them in (`src/main.rs:89-91`). The model takes `Unit` records as given, so this parsing defect is outside it.
- The turn loop itself, the `Instant` timing and the `eprintln!` diagnostics are clock and console I/O.
- Nearest.SqDistance: compares integer squared distances, not `f64` square roots. The floating-point literal of the distance test is not reproduced; its squared value 200 is.
- Fixed-width integer behaviour is not modelled. Coordinates, ids and counts are unbounded integers, and overflow of the squared distance cannot occur in the model.
- Text.TrimStart and Text.TrimEnd treat ASCII whitespace only. Unicode whitespace is not modelled; the commands hold only spaces, digits, '-' and upper-case letters.
- Nearest.SortBy: the sort of a moved-in vector is modelled as a pure stable sort on a sequence. The in-place reordering is not observable by any caller.
- Entities.OwnerFromCode, Entities.StructureTypeFromCode and Entities.UnitTypeFromCode return None where the game panics on an unknown code.
- Queries.GetQueen: the panic when no allied queen exists is a precondition.
- The `expect` in the unowned-position query is unreachable, because the same lookup was checked just before. The model looks the site up once.
