# Panther degree planner: a verified model of its planning and scheduling core

This Dafny project models the logic at the heart of the FIU degree-planning
assistant. The assistant has a Python back end, used by two agents, and a
Chrome extension front end.

The back end part covers:

- the requisite grammar: comma-separated AND-groups of `|`-separated
  alternatives;
- course-code normalisation and the satisfaction check;
- the diff of a major's requirement template against the completed courses;
- section lookup;
- the greedy section scheduler;
- the placeholder route service.

The extension part covers:

- the popup's timestamped cache and its course-details cache;
- the weekly schedule editor (add, edit, move, delete, with overlap rejection);
- the taken-course list and the prerequisite-alternative check;
- the route layer's colours and markers;
- the portal scraper and its text formatter;
- the background worker's sync merge, badge, plan append and alarm names.

Every operation is stated in Dafny's own terms:

- Pure code becomes functions.
- Loops become methods with invariants, proved against a specification function.
- Objects and storage that the source updates in place become classes whose
  fields the methods reassign.
- I/O becomes parameters. The HTTP client, the database, the clock
  (`now`, in milliseconds for the popup cache, as ISO text for the sync
  time), the fetch and the decoded polyline paths are all passed in.
- Errors become `Result` and `Option` values: a raised exception, a JavaScript
  TypeError on `null`, a missing key.

Modules, one per source concern:

- `Wrappers`: `Option`, `Result`.
- `Text`: split, join, the Python and JavaScript trimming rules, substring
  tests, ASCII upper case, and Python's string order.
- `Seqs`: filter, first-occurrence de-duplication, removal at an index, and a
  stable insertion sort.
- `Requisites`, `Planning`, `Scheduler`, `AgentTools`, `PlannerTools`: the
  back end.
- `GoogleApi`: the placeholder route service.
- `PopupCache`, `BlockEditor`, `TakenCourses`, `RouteLayer`, `Scraper`,
  `Background`: the extension.

Two points where the code promises less than its own comments or naming:

- The route layer does not decode polylines itself: each leg is decoded by
  the map library (`google.maps.geometry.encoding.decodePath`,
  frontend/popup.js:214), so the model takes each leg already decoded, or as
  a failed decoding. Markers are pushed one by one, and a waypoint landing on
  the previous leg's end is not merged with it (`RouteLayer.TwoLegs`).
- The solver's docstring (backend/panther-planner/tools.py:48-49) lists
  "credits >= target" as a hard constraint and speaks of one to three
  schedules. The code returns one schedule and guarantees only "target
  reached, or no further section fits" (`Scheduler.SolverTargetOrMaximal`);
  the credits can stay below the target.

## Model

| member | source | states |
|---|---|---|
| Requisites.Norm | backend/panther_agent/tools.py:9-10 | the normal form has no space and no lower-case ASCII letter |
| Requisites.NormIdempotent | backend/panther_agent/tools.py:9-10 | normalising twice is normalising once |
| Requisites.ParseRequisite | backend/panther_agent/tools.py:12-22 | the parse: no groups for a blank expression, else one group of trimmed non-blank `\|`-alternatives per non-blank comma piece; its shape is `ParseShape`, and `ParseRender` shows it inverts writing the groups out |
| Requisites.ParseRequisiteString | backend/panther_agent/tools.py:12-22 | the loop over comma pieces builds exactly the groups of the parse |
| Requisites.ParseBlank | backend/panther_agent/tools.py:13-14 | an empty or white-space-only expression has no groups |
| Requisites.ParseShape | backend/panther_agent/tools.py:12-22 | one group per non-blank comma piece; every alternative is non-empty, trimmed, and free of `,` and `\|` |
| Requisites.ParseRender | backend/panther_agent/tools.py:12-22 | groups of codes written with `\|` inside a group and `,` between groups parse back to exactly those groups: every non-blank trimmed alternative survives, in order |
| Requisites.GroupsSnoc | backend/panther_agent/tools.py:16-21 | each comma piece appends its own group (none when blank), after the earlier pieces' groups |
| Requisites.AnyCompleted | backend/panther_agent/tools.py:27 | true iff some alternative's normal form is a normalised completed code |
| Requisites.Satisfied | backend/panther_agent/tools.py:24-29 | an expression is met when every group is empty or has an alternative whose normal form is a normalised completed code; it is monotone in the completed set (`SatisfiedMonotone`) |
| Requisites.RequirementsSatisfied | backend/panther_agent/tools.py:24-29 | the early-return loop answers true iff every non-empty group has a completed alternative |
| Requisites.EmptyExpressionSatisfied | backend/panther_agent/tools.py:24-29 | an empty expression is satisfied by any completed set |
| Requisites.BarsOnlyGroup | backend/panther_agent/tools.py:20-21 | "\|\|" parses to one empty group, and an empty group is satisfied |
| Requisites.SatisfiedMonotone | backend/panther_agent/tools.py:24-29 | completing more courses never un-satisfies an expression |
| Requisites.SingleCodeMet | backend/panther_agent/tools.py:24-29 | a one-code expression is met by a completed code of the same normal form |
| Planning.SortedUnique | backend/panther_agent/tools.py:81 | `sorted(set)`: strictly increasing, and holds exactly the input codes |
| Planning.StrictlySortedUnique | backend/panther_agent/tools.py:81 | two strictly sorted lists with the same elements are equal, so the sorted set is unique |
| Planning.SortedUniqueBySet | backend/panther-planner/tools.py:32 | the sorted set depends only on which codes occur |
| Planning.AllRemaining | backend/panther-planner/tools.py:32 | a code is in the flattened remaining list iff some needed entry lists it |
| Planning.AllRemainingSnoc | backend/panther_agent/tools.py:79 | each bucket adds its remaining codes after the earlier buckets' |
| Planning.StrLeTotalPreorder | backend/panther-planner/tools.py:32 | Python's string `<=` is a total preorder, so sorting by it is well defined |
| Scheduler.ScheduleSolver | backend/panther_agent/tools.py:90-113 | one plan: the greedy choice, the sum of its credits, and its morning score (the same code as backend/panther-planner/tools.py:47-81) |
| Scheduler.SolverSectionsFromInput | backend/panther_agent/tools.py:95-101 | every chosen section is an input section that meets on no avoided day |
| Scheduler.SolverConflictFree | backend/panther_agent/tools.py:96-108 | no two chosen sections overlap (a shared day, and neither ends before the other starts) |
| Scheduler.SolverSorted | backend/panther-planner/tools.py:69-76 | chosen sections come in (start, course) order |
| Scheduler.SolverTargetOrMaximal | backend/panther-planner/tools.py:72-78 | either the credits reach the target, or every left-out eligible section overlaps a chosen one |
| Scheduler.SolverStopsAtTarget | backend/panther_agent/tools.py:109-110 | the credits stay below the target until the last chosen section |
| Scheduler.Score | backend/panther_agent/tools.py:112 | the score lies between 0 and the number of chosen sections, and is 0 unless morning is preferred |
| Scheduler.ScoreCountsMornings | backend/panther-planner/tools.py:80 | with morning preferred, the score counts the sections starting before "12:00" |
| Scheduler.CreditsSnoc | backend/panther_agent/tools.py:109 | appending a section adds its credits |
| Scheduler.SectionLeTotalPreorder | backend/panther_agent/tools.py:102 | the (start, course) key order is a total preorder |
| Scheduler.Greedy | backend/panther_agent/tools.py:104-110 | the walk over the sorted pool: skip a section that overlaps a chosen one, else choose it and stop once the credits reach the target; its properties are the `Greedy…` lemmas below |
| Scheduler.GreedyExtends | backend/panther_agent/tools.py:104-110 | the loop only appends to `chosen` |
| Scheduler.GreedyFrom | backend/panther_agent/tools.py:105-108 | every chosen section was chosen before or comes from the pool |
| Scheduler.GreedyConflictFree | backend/panther_agent/tools.py:106-108 | a section is appended only when it overlaps none already chosen |
| Scheduler.GreedyTargetOrMaximal | backend/panther_agent/tools.py:105-110 | at the end the target is reached or every pool section is chosen or overlaps a chosen one |
| Scheduler.GreedyStopsAtTarget | backend/panther_agent/tools.py:109-110 | the loop breaks at the first section that reaches the target |
| Scheduler.GreedySorted | backend/panther_agent/tools.py:102-108 | picking from a sorted pool keeps the choice sorted |
| AgentTools.MajorId | backend/panther_agent/tools.py:53 | the id looked up is the major itself or "COMPSC:BS", and never one whose upper case starts with "CS"; the two cases are the lemmas below |
| AgentTools.MajorIdOfCsPrefix | backend/panther_agent/tools.py:53 | any major whose first two letters are "cs" in some case maps to "COMPSC:BS" |
| AgentTools.MajorIdOther | backend/panther_agent/tools.py:53 | any other major is looked up unchanged |
| AgentTools.MajorIdIdempotent | backend/panther_agent/tools.py:53 | mapping an id twice is mapping it once |
| AgentTools.UpperAppend | backend/panther_agent/tools.py:53 | upper case distributes over concatenation |
| AgentTools.DocCodes | backend/panther_agent/tools.py:58-59 | a document list gives each document's `code`, and fails iff some entry is not a document with a code |
| AgentTools.PlainCodes | backend/panther_agent/tools.py:60-61 | a code list is taken as it is, and fails iff some entry is a document |
| AgentTools.LoadMajorTemplate | backend/panther_agent/tools.py:48-62 | an error status is raised; otherwise one bucket `core` with `choose` 2 |
| AgentTools.LoadMajorTemplateCodes | backend/panther_agent/tools.py:57-62 | a major stored with plain codes gives those codes, in order, as the one bucket |
| AgentTools.LoadMajorTemplateDocs | backend/panther_agent/tools.py:57-62 | a major stored with course documents that all carry `code` gives those codes, in order, as the one bucket |
| AgentTools.LoadMajorTemplateDocFails | backend/panther_agent/tools.py:58-59 | a list starting with a document fails at its first entry without a code: a KeyError for a document without `code`, a TypeError for a string |
| AgentTools.LoadMajorTemplateNoRequired | backend/panther_agent/tools.py:57 | a major without `required_courses` gives one empty bucket |
| AgentTools.SafeGetCourse | backend/panther_agent/tools.py:38-45 | a found course is returned; a 404 gives the fallback record; any other status is raised |
| AgentTools.NonStringPrereqsMet | backend/panther_agent/tools.py:75 | a course with missing or non-string prerequisites has them met |
| AgentTools.FallbackPrereqsMet | backend/panther_agent/tools.py:44 | the fallback record of an unknown course has no prerequisites to meet |
| AgentTools.RemainingCourses | backend/panther_agent/tools.py:70-77 | the inner loop over one bucket keeps, in order, exactly the uncompleted courses whose prerequisites are met, or stops with the first lookup status raised |
| AgentTools.DiffRequirements | backend/panther_agent/tools.py:64-81 | the nested loops compute exactly the diff (or the first raised status) |
| AgentTools.RemainingIsFilter | backend/panther_agent/tools.py:70-77 | without lookup errors, `remaining` is the bucket's courses filtered by "not completed and prerequisites met", in order |
| AgentTools.RemainingMembers | backend/panther_agent/tools.py:71-77 | a code is remaining iff it is a bucket course that is not completed and whose prerequisites are met |
| AgentTools.NeededShape | backend/panther_agent/tools.py:69-78 | one needed entry per bucket, with the bucket's id and choose |
| AgentTools.DiffRemaining | backend/panther_agent/tools.py:64-81 | no completed code is remaining, and each remaining code has its prerequisites met |
| AgentTools.DiffRemainingOrder | backend/panther_agent/tools.py:70-77 | each remaining list keeps its bucket's order |
| AgentTools.DiffEligible | backend/panther_agent/tools.py:79-81 | `eligible` is sorted, duplicate-free, and holds exactly the remaining codes of all buckets |
| AgentTools.DiffRaises | backend/panther_agent/tools.py:38-45 | the diff raises iff some non-completed bucket course has an error status other than 404 |
| AgentTools.RemainingRaises | backend/panther_agent/tools.py:71-77 | a bucket's loop raises iff one of its non-completed courses has a non-404 error |
| AgentTools.NeededRaises | backend/panther_agent/tools.py:69-78 | the bucket loop raises iff some bucket does |
| AgentTools.RemainingErrorPersists | backend/panther_agent/tools.py:71-77 | once a course raises, the rest of the bucket is not looked at |
| AgentTools.NeededErrorFrom | backend/panther_agent/tools.py:69-78 | once a bucket raises, the later buckets are not looked at |
| AgentTools.NeededErrorPersists | backend/panther_agent/tools.py:69-78 | a raising bucket makes the whole diff raise with its status |
| AgentTools.GetSections | backend/panther_agent/tools.py:85-88 | a section is kept iff its term matches, its campus is listed and its normalised course is a normalised requested code |
| AgentTools.GetSectionsAppend | backend/panther_agent/tools.py:87-88 | the comprehension distributes over concatenation, so it keeps input order and every duplicate |
| AgentTools.GetSectionsOne | backend/panther_agent/tools.py:87-88 | a single section is kept, once, exactly when its term, campus and normalised course match |
| AgentTools.GetSectionsNormalises | backend/panther_agent/tools.py:86-88 | a requested code finds a section whose course differs only in spacing or case |
| PlannerTools.LoadMajorTemplate | backend/panther-planner/tools.py:11-15 | a known major gets its own template |
| PlannerTools.LoadMajorTemplateIsCs | backend/panther-planner/tools.py:11-15 | every major, known or not, gets the CS template: bucket `core`, choose 2, [COP3530, CDA3103, COT3100] |
| PlannerTools.DiffRequirements | backend/panther-planner/tools.py:17-33 | the loop builds exactly the diff for the keys of `completed` |
| PlannerTools.NeededOfShape | backend/panther-planner/tools.py:29-31 | one needed entry per bucket, in bucket order |
| PlannerTools.DiffNeeded | backend/panther-planner/tools.py:29-31 | each entry keeps id and choose; `remaining` is the bucket's non-completed courses in order |
| PlannerTools.DiffEligible | backend/panther-planner/tools.py:32 | `eligible` is sorted, duplicate-free, and holds exactly the non-completed bucket courses |
| PlannerTools.GetSections | backend/panther-planner/tools.py:44-45 | a section is kept iff term, campus and exact course code match |
| PlannerTools.GetSectionsAppend | backend/panther-planner/tools.py:44-45 | the lookup is an order-preserving filter |
| PlannerTools.GetSectionsExact | backend/panther-planner/tools.py:45 | codes are compared exactly: a different spelling finds nothing |
| GoogleApi.GetRoute | backend/google_api.py:10-28 | fails with the ValueError message iff the key is unset or empty |
| GoogleApi.GetRouteConstant | backend/google_api.py:18-28 | the route is the placeholder (772 m, "165s", the fixed polyline) whatever the classes |
| GoogleApi.GetRouteTimes | backend/google_api.py:31-45 | fails with the same message iff the key is unset or empty |
| GoogleApi.Pairs | backend/google_api.py:37-45 | n classes give max(n-1, 0) entries, one per consecutive pair; the entries themselves are `PairsShape` |
| GoogleApi.PairsShape | backend/google_api.py:37-45 | n classes give max(n-1, 0) entries; entry i goes from class i to class i+1, at "1000" and "800" |
| GoogleApi.PairsChain | backend/google_api.py:40-41 | each entry ends where the next begins |
| GoogleApi.ShortListsEmpty | backend/google_api.py:44 | no class or one class gives no entries |
| PopupCache.CachedData | frontend/popup.js:3-14 | data is returned iff the key holds a readable entry written less than an hour before `now` |
| PopupCache.Storage.SetCachedData | frontend/popup.js:16-18 | stores the data under the key with the current time, leaving other keys alone |
| PopupCache.ReadAfterWrite | frontend/popup.js:3-18 | a write read back within the hour returns the data written |
| PopupCache.ReadExpired | frontend/popup.js:9-13 | an entry an hour old or older reads as missing |
| PopupCache.WriteOtherKey | frontend/popup.js:16-18 | a write leaves every other key's reading unchanged |
| PopupCache.Resolve | frontend/popup.js:557-595 | a fetched record is used; a 404, another status or a failure gives the basic record |
| PopupCache.FetchCourseDetails | frontend/popup.js:546-596 | returns and stores exactly what the cache logic prescribes |
| PopupCache.Details | frontend/popup.js:546-596 | the details lookup on the stored items: a fresh cached code is answered from the cache with the items unchanged, otherwise the resolved record is answered and added to the fresh cache |
| PopupCache.DetailsHit | frontend/popup.js:550-554 | a cached code is returned without a fetch and without a write |
| PopupCache.DetailsCached | frontend/popup.js:571-580 | after a miss, asking again within the hour returns the same record, whatever a new fetch would give |
| PopupCache.DetailsMissCache | frontend/popup.js:571-595 | a miss adds the code to the fresh cache, keeps its other courses, and touches no other key |
| PopupCache.DetailsFallback | frontend/popup.js:561-594 | a course not found or not fetchable is `{code, name: code, credits: 3, prereqs: [], coreqs: []}` |
| BlockEditor.JsNumber | frontend/popup.js:1156 | `Number` of decimal text: blank reads as 0, never negative |
| BlockEditor.JsNumberOfDigits | frontend/popup.js:1156 | a string of digits reads as its decimal value |
| BlockEditor.ToMinutes | frontend/popup.js:1155-1158 | `h * 60 + m` of the first two `:` pieces read as numbers, NaN (`None`) when a piece is missing or unreadable; its values are `ToMinutesOfPieces` and `ToMinutesOfValues` |
| BlockEditor.ToMinutesOfPieces | frontend/popup.js:1155-1158 | the minutes come from the first two `:` pieces |
| BlockEditor.ToMinutesOfValues | frontend/popup.js:1155-1158 | "H:M", alone or before a further `:` piece, whose pieces read as x and y is x*60+y minutes; anything after a second colon is ignored |
| BlockEditor.ToMinutesExample | frontend/popup.js:1155-1158 | "09:30" is 570 minutes |
| BlockEditor.Clash | frontend/popup.js:1171-1173 | the source's three-case overlap test with NaN comparisons false; it is interval intersection for proper intervals (`ClashIsOverlap`) and `ClashOfNaN` shows the NaN cases |
| BlockEditor.ClashIsOverlap | frontend/popup.js:1171-1173 | for proper intervals the three-case test is `s < be && bs < e` |
| BlockEditor.ClashOfNaN | frontend/popup.js:1171-1173 | an unreadable new start or end takes part in no comparison |
| BlockEditor.FindLocation | frontend/popup.js:1139 | the first location with the code, or none iff no location has it |
| BlockEditor.SortByStartSorted | frontend/popup.js:1192 | the re-sorted day is ordered by start and holds the same blocks |
| BlockEditor.HasConflict | frontend/popup.js:1165-1177 | the loop with `break` finds a clash iff one of the blocks clashes |
| BlockEditor.NewDayContents | frontend/popup.js:1183-1190 | the new day holds the checked blocks plus the new block |
| BlockEditor.Decide | frontend/popup.js:1139-1181 | the submit decision in the source's order: location, then end after start, then conflicts with the other blocks of the day, then placement; its outcomes are the `Decide…` lemmas |
| BlockEditor.DecideRejects | frontend/popup.js:1139-1181 | a missing location, an inverted interval or a clash leaves the schedule unchanged |
| BlockEditor.DecideDay | frontend/popup.js:1183-1208 | an accepted block's day is sorted and holds the new block with the day's other blocks |
| BlockEditor.DecideOtherDays | frontend/popup.js:1183-1208 | days other than the target and the source of a move are untouched |
| BlockEditor.DecideMoveSource | frontend/popup.js:1189 | a move removes the block from its old day, keeping the rest in order |
| BlockEditor.SubmittedInverted | frontend/popup.js:1159-1164 | an end not after the start is refused before any conflict check |
| BlockEditor.WeeklySchedule.Submit | frontend/popup.js:1132-1210 | the handler's outcome and new schedule are exactly the submission's |
| BlockEditor.WeeklySchedule.Apply | frontend/popup.js:1159-1208 | the checks and the placement, on already-read times and location |
| BlockEditor.WeeklySchedule.Place | frontend/popup.js:1182-1208 | overwrite, move or append, then re-sort the target day |
| BlockEditor.WeeklySchedule.Delete | frontend/popup.js:1116-1118 | removes exactly index `idx` of the day and nothing else |
| BlockEditor.DeleteKeepsSorted | frontend/popup.js:1118 | deleting keeps a sorted day sorted and drops exactly that block |
| TakenCourses.UserData.SaveCompletedCourse | frontend/popup.js:1343-1354 | appends the code only when absent |
| TakenCourses.UserData.RemoveCompletedCourse | frontend/popup.js:1356-1368 | removes the first occurrence of the code, if any |
| TakenCourses.SavedNoDup | frontend/popup.js:1346-1347 | saving never creates a duplicate and leaves the code present |
| TakenCourses.SavedIdempotent | frontend/popup.js:1346-1347 | saving twice is saving once |
| TakenCourses.RemovedFirst | frontend/popup.js:1359-1361 | removal takes out exactly one copy, the first, or nothing when absent |
| TakenCourses.RemovedAbsent | frontend/popup.js:1359-1361 | in a duplicate-free list, removal leaves the code absent |
| TakenCourses.SaveThenRemove | frontend/popup.js:1343-1368 | saving a new code and removing it restores the list |
| TakenCourses.AnyTaken | frontend/popup.js:773 | true iff some alternative is a taken course |
| TakenCourses.MissingPrereqs | frontend/popup.js:769-776 | the missing list is the prerequisites none of whose alternatives is taken, in order |
| TakenCourses.MissingExactly | frontend/popup.js:769-776 | an entry is missing iff it is unmet, and the list splits along the prerequisites |
| TakenCourses.AlternativeMet | frontend/popup.js:772-773 | "A \| B" is met when B is taken: spaces around `\|` are trimmed |
| RouteLayer.Layer.AddMultiplePolylines | frontend/popup.js:201-242 | clears the layer, then draws each decoded leg's line and markers |
| RouteLayer.LegColor | frontend/popup.js:210-215 | leg i is coloured `['#003366', '#B8860B'][i % 2]` |
| RouteLayer.LinesPerLeg | frontend/popup.js:213-225 | one line per decoded leg with its path; neighbouring legs differ in colour |
| RouteLayer.LegMarkers | frontend/popup.js:227-240 | the markers one leg adds, in push order: a start if first, an end if last, a waypoint if not first, none for an empty path; counted by `LegMarkerCount` |
| RouteLayer.SkippedAndEmptyLegs | frontend/popup.js:213-244 | a leg that fails to decode adds nothing; an empty path adds a line and no marker |
| RouteLayer.MarkersPlaced | frontend/popup.js:227-240 | start at leg 0's first point, end at the last leg's last point, waypoints at later legs' first points |
| RouteLayer.MarkerCount | frontend/popup.js:227-240 | n non-empty legs give n+1 markers, the start first |
| RouteLayer.OneLeg | frontend/popup.js:227-235 | a one-leg route has exactly a start and an end marker |
| RouteLayer.TwoLegs | frontend/popup.js:227-240 | in two legs the end comes before the waypoint, and coincident points are not merged |
| RouteLayer.LinesBound | frontend/popup.js:213-225 | no leg adds more than one line |
| Scraper.ScrapeSubjectRows | frontend/scraper.js:1-37 | the `while (true)` loop collects exactly the scrape |
| Scraper.ScrapeStops | frontend/scraper.js:18 | rows after the first missing class element are never looked at |
| Scraper.ScrapeMembers | frontend/scraper.js:20-33 | every record is a trimmed enrolled row, and there are no more records than rows |
| Scraper.ScrapeComplete | frontend/scraper.js:20-34 | every enrolled row gives its record, the first one first |
| Scraper.ScrapeFailsOnMissingEnrolment | frontend/scraper.js:20 | a row without an enrolment element makes the scrape raise |
| Scraper.FormatScrapedRows | frontend/scraper.js:39-97 | the loop builds exactly the formatted records, or raises on a missing text |
| Scraper.FormatRow | frontend/scraper.js:51-91 | the record of one row, or the TypeError of reading a property of a null days, time or room text; its fields are the lemmas below |
| Scraper.FormatOnePerRow | frontend/scraper.js:49-93 | formatting succeeds iff every row does, with one record per row in order |
| Scraper.TextPastNthSpace | frontend/scraper.js:41-45 | `''` when the text has at most n space-separated pieces, else the pieces from the third on joined by spaces, whatever n is (`PastNthIgnoresN`) |
| Scraper.PastNthIgnoresN | frontend/scraper.js:41-45 | the helper always skips two words: asking for one gives the same as asking for two |
| Scraper.TwoWordDays | frontend/scraper.js:41-45 | a two-word days text gives an empty day |
| Scraper.ClassCode | frontend/scraper.js:52 | the first two space-separated pieces run together, a missing one reading as "undefined" (`ClassCodeAndName`, `OneWordClass`) |
| Scraper.ClassCodeAndName | frontend/scraper.js:52-53 | the code is the first two words run together; the name is the rest joined by spaces |
| Scraper.OneWordClass | frontend/scraper.js:52-53 | a one-word class text gives the word plus "undefined" as its code, and an empty name |
| Scraper.ToBeAnnounced | frontend/scraper.js:55-58 | "To Be Announced" gives a null day, start and end |
| Scraper.TimeFields | frontend/scraper.js:61-62 | "d s - e" gives start s and end e |
| Scraper.ShortTime | frontend/scraper.js:62 | fewer than four time words leave the end undefined |
| Scraper.Place | frontend/scraper.js:65-79 | the building and room of a room text: both null online, the whole text and null for one piece, else all but the last piece and the last piece (`PlaceFields`) |
| Scraper.PlaceFields | frontend/scraper.js:65-78 | online gives no building or room; one word is the building; else the last word is the room, and building, space and room rebuild the text |
| Scraper.Token | frontend/scraper.js:52 | a word index within the split gives text, past it `undefined` |
| Background.CompletedCodesMembers | frontend/background.js:98-100 | a code is reported iff some enrolled or graded course has it, in input order |
| Background.CodesAppend | frontend/background.js:100 | the code list of concatenated course lists is the concatenation of their code lists |
| Background.Merge | frontend/background.js:103-104 | `[...new Set([...existing, ...completed])]`: the first occurrences of the concatenation, in order (`MergeProperties`) |
| Background.MergeProperties | frontend/background.js:103-104 | the merge holds every old and new code once, starting with the old list in order, then the first occurrences of the new codes |
| Background.MergeKnown | frontend/background.js:103-104 | syncing only known codes leaves a duplicate-free list unchanged |
| Background.CurrentCoursesEnrolled | frontend/background.js:109 | the current courses are exactly the enrolled ones, in order |
| Background.SyncStorage.HandleCourseDataSync | frontend/background.js:95-115 | stores the merged codes, the current courses and the sync time, and nothing else changes |
| Background.SyncStorage.HandleTranscriptDataSync | frontend/background.js:118-130 | the transcript codes replace the completed list, the transcript is stored as given, and the sync time is set; the current and planned courses are untouched |
| Background.TranscriptReplaces | frontend/background.js:121-125 | after a transcript sync a code is completed iff the transcript lists it |
| Background.Percentage | frontend/background.js:165-167 | the integer percentage of 40 required courses; monotone (`PercentageMonotone`) |
| Background.BadgeColor | frontend/background.js:173-175 | green from 75, orange from 50, red below; in courses, `BadgeThresholds` |
| Background.BadgeThresholds | frontend/background.js:163-176 | green from 30 courses, orange from 20 to 29, red below 20; 40 courses are 100 % |
| Background.PercentageMonotone | frontend/background.js:167 | more completed courses never lower the percentage |
| Background.MatchAt | frontend/background.js:286 | a match at a position is a code-shaped piece there, the spaced form tried first |
| Background.FirstMatch | frontend/background.js:286 | the first match of `/[A-Z]{3}\s?\d{4}/` scanning from a position: the match at the first position with one (`FirstMatchLeftmost`) |
| Background.FirstMatchLeftmost | frontend/background.js:286 | the match is the leftmost one, and none means no position matches |
| Background.CodeAtStart | frontend/background.js:286 | a selection starting with a seven-character code not followed by a digit yields that code |
| Background.SyncStorage.AddToPlan | frontend/background.js:285-292 | appends the first code match, duplicates allowed, and changes nothing without one |
| Background.AlarmCourse | frontend/background.js:204-205 | alarms named with the "class-" prefix, and only those, give a course |
| Background.AlarmRoundTrip | frontend/background.js:195-205 | the reminder alarm of a course names that course back |
| Background.AlarmCourseInverse | frontend/background.js:195-205 | a reminder alarm's name is the reminder name of its course |
| Seqs.DedupAppend | frontend/background.js:104 | de-duplicating `a + b` is `a` de-duplicated, then the first occurrences in `b` of what `a` lacks |
| Seqs.InsertionSortSorted | backend/panther-planner/tools.py:70 | the stable sort yields a sorted permutation of its input |
| Text.JoinSplit | frontend/scraper.js:42-44 | joining the pieces of a split gives the text back |
| Text.IndexOf | frontend/popup.js:1358 | the first index of an element, -1 iff absent |

## Left out

- I/O of every kind is outside the model, and becomes parameters where the logic needs it:
  - HTTP (`httpx`, `fetch`);
  - the Mongo database;
  - `localStorage` and `chrome.storage`;
  - notifications and the DOM.
- The single shared storage is modelled as separate classes:
  - `PopupCache.Storage` for the cache;
  - `BlockEditor.WeeklySchedule` and `TakenCourses.UserData` for the user record;
  - `Background.SyncStorage` for the synced lists.
- Asynchrony (`async`/`await`, storage callbacks) is not modelled. Each handler runs as one atomic step.
- Floating point is not modelled: the GPA calculation, the progress bar, and the badge arithmetic (see `Background.BadgeThresholds` below).
- Background.BadgeThresholds: the badge computes `Math.floor(n / 40 * 100)` in floating point. The model uses the integer `(n * 100) / 40`. The two first differ at n = 46 (114 against 115), above the thresholds. The badge text formatting (`percentage + '%'`) is left out.
- Polyline decoding belongs to the Google Maps geometry library (frontend/popup.js:214). The route layer takes the decoded paths, with `None` for a leg whose decoding threw. Drawing markers on the map, their icons and their titles are left out.
- Text.Upper: Python's `upper()` is modelled on ASCII letters only, with no Unicode case mapping.
- BlockEditor.JsNumber: JavaScript `Number` is modelled for decimal digits with surrounding white space. Signs, fractions, exponents and hexadecimal text read as NaN.
- BlockEditor.SortByStart: a block whose start is NaN sorts with key 0. The source's comparator order for NaN is engine-defined.
- BlockEditor.WeeklySchedule.Submit: the edit state is required to name an existing block. A missing `schedule` object being initialised to seven empty days (frontend/popup.js:1149-1151) is not modelled separately: the schedule is a map in which any absent day reads as empty, as frontend/popup.js:1152-1154 makes it.
- PopupCache.FetchCourseDetails: the source stores the course details under the key 'coursesCache', which fetchAllCourses also uses for the course list. The model gives the details their own typed entry. The read and the write share one clock reading `now`.
- PopupCache.CachedData: a stored entry is either readable data with its timestamp or unreadable. JSON parsing itself is not modelled.
- TakenCourses.UserData.SaveCompletedCourse: a user record without `taken_courses` makes the source throw and log. The model starts from a list.
- AgentTools.LoadMajorTemplate: a list that starts with a code and later holds a document is an error in the model. The source passes that document through as a dict.
- Scheduler.ScheduleSolver: preference values of the wrong type (a non-integer target, non-string days) are not modelled. Only the three keys, present or absent, are.
- `SAMPLE_SECTIONS`, `_safe_get_course`'s HTTP call and the major lookup are passed in as parameters (sections, `getCourse`, `getMajor`).
- Not modelled, because they are UI glue, randomness or date arithmetic:
  - the popup's tabs, dropdowns, search and map styling;
  - frontend/content.js and frontend/maps-loader.js;
  - the reminder's date arithmetic;
  - `generateUserId`.
- backend/app (the FastAPI routes, Mongo services, the Anthropic client) and the agent definition are not part of this model.
- Scraper.ScrapeSubjectRows: the page's DOM lookups are a sequence of optional rows.
- Scraper.FormatScrapedRows: the undeclared globals the loop assigns are not modelled. Each record is built from its own row.
- Background.SyncStorage.HandleCourseDataSync: a grade is modelled as text, truthy when non-empty. The `lastSync` time is a parameter holding the ISO text of the clock, not read from a clock.
- Background.SyncStorage.HandleTranscriptDataSync: the `gpa` key is not stored, because its value is floating-point arithmetic over the grades (`calculateGPA`). The `transcriptData` and `lastSync` keys are stored; `lastSync` is the ISO time text passed in.
