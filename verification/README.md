# NDNS: authenticated denial and iterative resolution, verified

NDNS stores zones of resource records, answers queries for them from an
authoritative server, proves the absence of records with a chain of
denial-of-existence (DoE) ranges, and resolves names by walking from zone to
zone along NS delegations. This project models those four parts together and
proves what they promise jointly:

* **Order.** A label is stored as its concatenated component TLVs, and SQLite
  compares BLOBs bytewise. That order is the canonical order of names, for all names.
* **Denial.** For a record set that is absent, the DoE row that the server picks in
  stored order is accepted by the client exactly under a condition on the chain's
  first and last keys, which the guard row alone shows. The condition holds for every
  zone that keeps its two key certificates and has no record at its apex or at `/KEY`; it
  survives any sequence of server updates; and one TXT record at the apex can break it.
* **Management runs.** Every sequence of operations keeps one row per record set,
  rows only of live zones and packets named after their rows. Each operation keeps the
  delegation invariants if and only if a stated condition on its arguments and the table
  holds, which the tools' discipline implies; disciplined runs also keep a denial chain in
  every zone.
* **Resolution.** Over such zones every run ends at the one zone that the delegations
  lead to, with that zone's record or an accepted denial of it, after at most
  N - s + 1 queries, and a sound delegation cache changes none of this.

`EndToEnd.ManagedZonesResolve` composes all of it: from the empty database, through
any disciplined run of management operations and updates, to the resolver's last reply.
`EndToEnd.ControllerResolves` says the same of the controller with its cache.

The discipline comes with a policy. Its weakest form asks only NS records to have AUTH
rows above them, so files may bring any other record and updates any other record but a
DoE one; operators may also ask it of TXT records, as the tools do, or keep the zone
certificates. Every theorem about disciplined runs holds for every policy.

## Files

| file | content |
|---|---|
| `Tlv.dfy`, `Names.dfy` | byte order, variable-size numbers, components, names, stored form |
| `Records.dfy` | packets, rows, `Rrset::operator<` |
| `Chain.dfy`, `ZoneChain.dfy` | the DoE chain, the client's test, the rows of a zone's chain |
| `Database.dfy` | tables and the class `DbMgr` |
| `Management.dfy` | the operations as functions and the class `ManagementTool` |
| `Server.dfy` | query and packet names, the class `NameServer`, updates |
| `Runs.dfy`, `Delegation.dfy`, `Discipline.dfy`, `Effects.dfy` | whole runs, their invariants, what each operation achieves |
| `Resolver.dfy` | the resolver's transitions and the class `IterativeQueryController` |
| `Resolution.dfy`, `CachedRuns.dfy`, `EndToEnd.dfy` | runs over a world of zones |
| `Scenario.dfy` | a delegation set up from the empty database |
| `UnmarkedRecords.dfy`, `ApexRecord.dfy` | runs on which natural-looking promises fail |
| `Wire.dfy` | byte form of contents and responses |

State that the program updates in place is a class (`DbMgr`, `ManagementTool`,
`NameServer`, `IterativeQueryController`) whose methods are proved equal to functions
on values (`After...`, `Rebuilt`, `Receive`); the theorems are about those functions.

## Where code and comments disagree

The model follows the code.

* src/mgmt/management-tool.cpp:666 says the records are sorted "same as in the
  database". `Rrset::operator<` sorts by label and then type, while DoE keys are the
  single name label+type. The orders differ when one label extends another
  (`Records.SortOrderVsKeyOrder`, `Chain.AscendingExact`). Denial of absent records
  still works (`Chain.DenialExact`), but an inner range may then also deny stored
  records (`Chain.InnerRowsSoundExact`). Every accepted two-level addition whose second
  component precedes `NS` does that (`Discipline.NestedAddInvertsRow`).
* src/mgmt/management-tool.cpp:688-690 says the guard row serves every name below the
  lowest label. The client rejects it when the first sorted key is not before the last
  one (`Chain.ApexRecordBreaksDenial`); a run that ends that way is
  `ApexRecord.ApexRecordStopsResolution`.
* src/clients/iterative-query-controller.cpp:276-277 means to test the outer gap, but on
  an inverted range the test holds for every name (`Chain.AbsentByRangeMeaning`).
* addMultiLevelLabelRrset inserts AUTH rows before it checks the version, so a refused
  call can leave rows behind (`UnmarkedRecords.RefusedAddLeavesRow`;
  `Discipline.RefusalExact` says exactly when).

## Model

| member | source | states |
|---|---|---|
| `Tlv.VarNumberMonotone` | src/daemon/db-mgr.cpp:128-140 | The variable-size numbers inside a stored label compare like the numbers themselves, whatever bytes follow: the code is monotone and prefix-free |
| `Tlv.VarNumberShortest` | src/daemon/db-mgr.cpp:128-140 | Types and lengths are written in the shortest of the four forms |
| `Tlv.ReadElementExact` | src/daemon/db-mgr.cpp:142-162 | An element is read exactly from bytes that start with a type, a length and that many bytes, in any form; all else is malformed |
| `Tlv.IntegerShortest` | src/daemon/rrset-factory.cpp:75-102 | Version numbers are written in the shortest of the widths 1, 2, 4 and 8 |
| `Names.OrderEmbedding` | src/daemon/db-mgr.cpp:439-460 | For all names, bytewise order of the stored TLVs is the canonical order, so `label<? ORDER BY label DESC` yields the canonical predecessor |
| `Names.NameRoundTrip` | src/daemon/db-mgr.cpp:128-162 | restoreName inverts saveName for every name |
| `Names.ReadNameExact` | src/daemon/db-mgr.cpp:142-162 | restoreName accepts exactly the concatenations of component elements, and yields those components |
| `Names.RestoreName` | src/daemon/db-mgr.cpp:142-162 | The loop over the shrinking buffer decodes exactly what the recursive decoder does, malformed input included |
| `Names.VersionOrder` | src/mgmt/management-tool.cpp:641-646 | Comparing version components compares their 64-bit numbers |
| `Names.VersionExact` | src/ndns-label.cpp:58-65 | A component counts as a version exactly if it is a number of one of the four widths under type 54 |
| `Records.SortOrderVsKeyOrder` | src/daemon/rrset.cpp:60-77 | For records in sort order, their DoE keys are in the same order unless the first label is a proper prefix of the second and the second's next component precedes the first's type |
| `Chain.AbsentByRangeMeaning` | src/clients/iterative-query-controller.cpp:267-281 | An ordered range denies exactly the names strictly inside, an equal pair none, an inverted range every name |
| `Chain.DenialExact` | src/mgmt/management-tool.cpp:672-694 | For every name that is no key, the range at its lower bound is accepted if and only if the first key precedes the last, or there are two keys and one precedes the name; no sort order is needed |
| `Chain.OuterRangeExact` | src/mgmt/management-tool.cpp:681-694 | When the ends are inverted by name, the closing range covers a name exactly if some key precedes it |
| `Chain.CellExists` | src/mgmt/management-tool.cpp:672-694 | The keys, the gaps between neighbours and the outer gap cover every name |
| `Chain.CellUnique` | src/mgmt/management-tool.cpp:672-694 | No name lies in two of those cells |
| `Chain.ChainSemantics` | src/clients/iterative-query-controller.cpp:272-279 | With keys in name order, each inner row denies exactly its own gap; the closing row and the guard deny every name |
| `Chain.InnerRowsSoundExact` | src/mgmt/management-tool.cpp:672-679 | No inner row denies a stored record if and only if the sorted keys are in name order |
| `Chain.NestedLabelInvertsRow` | src/mgmt/management-tool.cpp:672-679 | Wherever a record's label is extended by another one whose next component precedes the record's type, some inner row is inverted and denies every name |
| `Chain.NestedPairDenied` | src/mgmt/management-tool.cpp:672-679 | The AUTH row and the TXT record that a two-level addition leaves: the row between them denies both |
| `Chain.AscendingExact` | src/daemon/rrset.cpp:60-77 | That is so exactly when no label is extended by one whose next component precedes its type |
| `Chain.GuardCondition` | src/mgmt/management-tool.cpp:174-186 | Two key certificates and no record at the apex or at /KEY put the first key before the last, whatever else the zone holds |
| `Chain.ApexRecordBreaksDenial` | src/mgmt/management-tool.cpp:688-694 | A zone with one apex TXT record and two certificates: of the absent names, exactly those that precede the first certificate's key get a row that the client rejects |
| `Chain.FirstBeforeLastNeeded` | src/mgmt/management-tool.cpp:681-694 | If the first key does not precede the last, some record set is outside the chain and not denied by it |
| `Database.DbMgr.NextZoneId` | src/daemon/db-mgr.cpp:174-191 | A new zone id is one more than the largest in use, or 1: positive, unused, and the id of the last zone comes back after its deletion |
| `Database.DbMgr.InsertZone` | src/daemon/db-mgr.cpp:168-192 | Adds the zone under a fresh id exactly if its name is free, and touches no row |
| `Database.DbMgr.FindZone` | src/daemon/db-mgr.cpp:260-283 | Finds the zone of that name or reports that there is none |
| `Database.DbMgr.InsertRow` | src/daemon/db-mgr.cpp:339-379 | Adds the row unless the unique index on zone, label, type and version forbids it |
| `Database.DbMgr.FindRow` | src/daemon/db-mgr.cpp:381-423 | Returns a row at zone, label and type exactly if there is one |
| `Database.DbMgr.FindLowerBound` | src/daemon/db-mgr.cpp:425-467 | Returns a row of the type whose stored label is the greatest below the given one, or none if none is below |
| `Database.BoundUnique` | src/daemon/db-mgr.cpp:439-460 | With unique slots the first row of that query is determined |
| `Database.DbMgr.FindRrsets` | src/daemon/db-mgr.cpp:469-506 | Returns exactly the zone's rows, each once, in stored label order |
| `ZoneChain.SortSlots` | src/mgmt/management-tool.cpp:666-667 | Every set of slots has a strictly sorted arrangement with the same elements |
| `ZoneChain.SortedUnique` | src/mgmt/management-tool.cpp:666-667 | A sorted arrangement is determined by its elements, so the chain is |
| `ZoneChain.SortRrsets` | src/mgmt/management-tool.cpp:666-667 | Sorting by `Rrset::operator<` yields a permutation of any list in which no row precedes an earlier one |
| `ZoneChain.SortedOnce` | src/mgmt/management-tool.cpp:666-667 | A list in which every record set occurs once comes out strictly sorted by label and type |
| `ZoneChain.ChainRowFresh` | src/daemon/db-mgr.cpp:56-57 | No row of a rebuilt chain violates the unique index |
| `ZoneChain.RebuiltIsChain` | src/mgmt/management-tool.cpp:652-696 | After generateDoe the zone's DoE rows are exactly the chain over its other record sets |
| `ZoneChain.RebuiltUnique` | src/mgmt/management-tool.cpp:652-696 | generateDoe keeps one row per zone, label and type |
| `ZoneChain.ChainHasBound` | src/daemon/name-server.cpp:101-106 | With a chain in place the lower-bound lookup never fails, so the server never throws |
| `ZoneChain.BoundPosition` | src/daemon/db-mgr.cpp:439-460 | The row found in stored byte order sits at the lower bound in canonical order |
| `ZoneChain.DenialOfAbsentSlot` | src/daemon/name-server.cpp:95-110 | For every absent record set the row picked by the server is accepted by the client if and only if the chain allows it |
| `ZoneChain.DenialComplete` | src/clients/iterative-query-controller.cpp:267-281 | If the first key precedes the last, every absent record set is denied acceptably, nested labels or not |
| `ZoneChain.DenialCompleteExact` | src/mgmt/management-tool.cpp:652-696 | Right after a rebuild, every absent record set is denied acceptably if and only if the first key precedes the last |
| `ZoneChain.GuardRowTells` | src/mgmt/management-tool.cpp:688-694 | The guard row's range is inverted if and only if the first key precedes the last |
| `ZoneChain.CoveredMeaning` | src/mgmt/management-tool.cpp:664-694 | A chain over all record sets, row by row: at the key of each the range to the one that follows it in label and type order, cyclically, at the empty label the range from the last to the first, and nothing else, with the DoE time to live |
| `Management.ManagementTool.GenerateDoe` | src/mgmt/management-tool.cpp:652-696 | Deletes, sorts and reinserts: the new table is the specified rebuilt one; an unknown zone is an error |
| `Management.ManagementTool.InsertChain` | src/mgmt/management-tool.cpp:672-694 | The loop and the two last inserts add exactly the rows of the chain |
| `Management.ManagementTool.InsertRange` | src/daemon/rrset-factory.cpp:215-243 | One DoE record, named after its label, at the next position of the chain; the insert cannot fail |
| `Management.ManagementTool.CheckRrsetVersion` | src/mgmt/management-tool.cpp:635-650 | Refuses an equal or older version without change; otherwise removes the old row so that the new one cannot clash |
| `Management.ManagementTool.StoreRow` | src/mgmt/management-tool.cpp:290-293 | Version check, insert and rebuild together |
| `Management.ManagementTool.AddRrset` | src/mgmt/management-tool.cpp:296-312 | Result and new table of addRrset, refusals included |
| `Management.ManagementTool.IsBelowLink` | src/mgmt/management-tool.cpp:250-262 | The first loop finds a delegation above the label exactly if there is one |
| `Management.ManagementTool.AddAuthRows` | src/mgmt/management-tool.cpp:274-288 | The second loop gives each proper prefix without NS row an AUTH row |
| `Management.ManagementTool.AddMultiLevelLabelRrset` | src/mgmt/management-tool.cpp:243-294 | Result and new table of addMultiLevelLabelRrset, refusals included |
| `Management.ManagementTool.AddRrsetFromFile` | src/mgmt/management-tool.cpp:314-387 | Unknown zone, unfit certificate, missing file and unreadable packet are refused in that order; otherwise label, type and version come from the packet's name and the row is stored |
| `Management.ManagementTool.RemoveRrSet` | src/mgmt/management-tool.cpp:539-554 | Removes the record if present and rebuilds; otherwise no change |
| `Management.ManagementTool.AddIdCert` | src/mgmt/management-tool.cpp:575-597 | Adds the certificate at /KEY/id unless one is there |
| `Management.ManagementTool.CreateZone` | src/mgmt/management-tool.cpp:57-188 | All refusals in order, then zone, two certificates and chain; two certificates of one key leave a partial zone |
| `Management.ManagementTool.DeleteZone` | src/mgmt/management-tool.cpp:190-207 | The loop removes all rows of the zone, then the zone |
| `Effects.AddEffect` | src/mgmt/management-tool.cpp:296-312 | Succeeds exactly if the label is not AUTH and the version is new; then the record is in place and no other record changed; each refusal has its own reason and changes nothing |
| `Effects.AddMultiEffect` | src/mgmt/management-tool.cpp:243-294 | Succeeds exactly if not below a delegation, not an NS record over AUTH, and newer; then exactly the record and the missing AUTH records are added; each refusal has its reason, and one by version adds the AUTH records only |
| `Effects.UpdateEffect` | src/daemon/name-server.cpp:176-206 | Accepted exactly if new or newer; a query for it is then answered with the packet, and no other row changed |
| `Effects.RemoveEffect` | src/mgmt/management-tool.cpp:539-554 | Afterwards the record is absent and every other one is still there; without such a record or zone nothing changes |
| `Effects.CreateEffect` | src/mgmt/management-tool.cpp:69-97 | Succeeds exactly if the name is free, the parent a proper prefix (or the root has a D-Key), the certificates match and the keys differ; then the zone and its two certificates are added; refusals in order, without change except that equal keys leave the zone with one certificate |
| `Effects.DeleteEffect` | src/mgmt/management-tool.cpp:190-207 | Succeeds exactly if the zone is there; then neither it nor any of its rows remains, and other zones are untouched |
| `Effects.FileRefusals` | src/mgmt/management-tool.cpp:323-354 | Unknown zone, unfit certificate, missing file and unreadable packet are refused in that order, without change |
| `Effects.FileEffect` | src/mgmt/management-tool.cpp:367-386 | A packet that was read is stored exactly if no equal or newer version is: with the label, type and version of its name and the given or the zone's time to live, and no other record changes |
| `Effects.RebuildsChain` | src/mgmt/management-tool.cpp:290-312 | After every create, add, multi-level add, file load and removal that goes through, the zone's DoE rows are a chain over every record set it then holds |
| `Effects.OthersKeepDoe` | src/mgmt/management-tool.cpp:652-696 | Every management operation that does not go through leaves the DoE rows alone |
| `Server.QueryRoundTrip` | src/clients/query.cpp:38-75 | fromInterest restores zone, query type, label, type and hint from toInterest, for every type that is not a version |
| `Server.FromInterestDecides` | src/clients/query.cpp:38-56 | fromInterest fails exactly on the bare zone prefix, and otherwise yields the query whose name the Interest carries, with or without a version |
| `Server.MatchVersionedName` | src/ndns-label.cpp:45-71 | A trailing version is split off the query name |
| `Server.MatchInterestExact` | src/ndns-label.cpp:45-71 | For every query name, what it matches: nothing, label and type, or label, type and version |
| `Server.MatchRecordName` | src/ndns-label.cpp:73-91 | A packet name yields the label, type and version it was made of, and extends the query's name |
| `Server.MatchExact` | src/ndns-label.cpp:73-91 | A packet name matches label, type and version exactly if it is made of them, and nothing exactly if it is too short |
| `Server.AnswerMatchesQuestion` | src/daemon/name-server.cpp:79-117 | Whatever the server sends, hit or NACK, the Interest name is a prefix of the packet's name |
| `Server.QueryDecides` | src/daemon/name-server.cpp:79-117 | The stored packet if one answers the query, version included; else a NACK named by the query around the DoE row just before it; the fatal error only without such a row |
| `Server.VersionedQueryDecides` | src/daemon/name-server.cpp:87-110 | A query for a version gets the stored packet if and only if that version is stored, otherwise a NACK, and under a chain never the error |
| `Server.NameServer.Respond` | src/daemon/name-server.cpp:79-117 | The stored packet on an exact hit with matching version, else a NACK around the lower-bound DoE record, else the fatal error |
| `Server.NameServer.DoUpdate` | src/daemon/name-server.cpp:152-207 | Insert, replace by newer version, refuse or ignore, with the new table |
| `Server.UpdateDecides` | src/daemon/name-server.cpp:152-207 | An update is ignored exactly if the packet's name is too short to hold a type and a version |
| `Server.RecordUpdateDecides` | src/daemon/name-server.cpp:176-206 | It is refused exactly if the stored version is not older, and otherwise the record set has one row, with the new version and packet, and the old or the zone's time to live |
| `Server.UpdateKeepsChain` | src/daemon/name-server.cpp:176-206 | An update of any type but DOE keeps a chain a chain, though it never rebuilds it |
| `Server.DenialSurvivesUpdates` | src/daemon/name-server.cpp:152-207 | After any sequence of such updates, every record set that is still absent is denied exactly as when the chain was built |
| `Runs.ApplyStep` | src/mgmt/management-tool.cpp:243-387 | Every operation keeps integrity, leaves other zones' rows alone and replaces a record only by a newer version |
| `Runs.RunKeepsIntegrity` | src/daemon/db-mgr.cpp:30-58 | All runs: one row per zone, label and type, rows of live zones only, packets named zone/NDNS/label/type/version |
| `Runs.VersionsGrow` | src/mgmt/management-tool.cpp:635-650 | A replaced record's version strictly increases, by management or by update |
| `Runs.ZonesAreIsolated` | src/daemon/db-mgr.cpp:395-407 | An operation on one zone changes neither lookups nor denials in another |
| `Runs.ReusedIdStartsClean` | src/mgmt/management-tool.cpp:190-207 | A zone created under a freed id holds its two certificates and its chain and nothing else |
| `Delegation.WithAuthDelegated` | src/mgmt/management-tool.cpp:274-288 | The AUTH loop marks every proper prefix and keeps the delegation invariants |
| `Delegation.ApplyDelegated` | src/mgmt/management-tool.cpp:243-387 | Any operation on any arguments keeps the delegation invariants if and only if it is refused by its guards, or what it stores fits (a delegation above no managed record, a managed record below AUTH rows only), or the NS row it removes has no managed record below |
| `Delegation.DelegatedHalves` | src/mgmt/management-tool.cpp:244-312 | The invariants are: NS rows are LINK or AUTH, every proper prefix of a managed record has an NS row, and none of those is a LINK |
| `Delegation.DisciplineRespects` | tools/ndns-add-rr.cpp:195-201 | Choosing the add operation by the label's length, keeping AUTH rows that have records below, and updates and files that fit is enough |
| `Delegation.RemovalExact` | src/mgmt/management-tool.cpp:539-554 | Removing an NS row keeps the invariants if and only if no managed record lies below it; removing any other row always does |
| `Delegation.LinkNeedsPrefixes` | src/mgmt/management-tool.cpp:296-312 | Where a prefix of a record has no NS row, addRrset puts a LINK above the record |
| `Delegation.RemovalNeedsNoLink` | src/mgmt/management-tool.cpp:539-554 | Where a LINK lies above a record, its removal leaves the prefix without a row |
| `Discipline.RefusalExact` | src/mgmt/management-tool.cpp:243-294 | A refused multi-level add changes nothing if and only if a LINK lies above the label, or an NS record would replace an AUTH row, or all prefixes already have NS rows |
| `Discipline.RefusedAddChangesNothing` | src/mgmt/management-tool.cpp:243-312 | Under the delegation invariants no refused add of a managed record changes the database |
| `Discipline.ApplyChained` | src/mgmt/management-tool.cpp:652-696 | Every disciplined operation leaves every zone with a chain, over two key certificates if those are kept |
| `Discipline.DisciplinedRunHealthy` | tools/ndns-add-rr.cpp:195-201 | All disciplined runs, under any policy, keep integrity, delegations and chains |
| `Discipline.HealthyZoneDenies` | src/mgmt/management-tool.cpp:688-694 | In such a state a zone whose guard row is inverted denies every absent record set acceptably, records added by updates or not |
| `Discipline.CertifiedZoneCloses` | src/mgmt/management-tool.cpp:174-186 | Kept certificates and no record at the apex or at /KEY make the guard row inverted |
| `Discipline.NestedAddInvertsRow` | src/mgmt/management-tool.cpp:243-294 | Every accepted multi-level add whose second component precedes `NS` leaves an inner row of the zone's chain that denies every name, stored records included |
| `Resolver.StartInv` | src/clients/iterative-query-controller.cpp:187-195 | The first query is within the label and carries no hint |
| `Resolver.ReactKeepsInv` | src/clients/iterative-query-controller.cpp:98-179 | Whatever arrives: finished + tried stays within the label in QUERY_NS, tried is at least 1, and each query sent is the one for the state |
| `Resolver.ParsedInAskedZone` | src/clients/iterative-query-controller.cpp:156-178 | Whatever arrives, an answer is parsed with the zone that was last asked |
| `Resolver.DenialDecides` | src/clients/iterative-query-controller.cpp:107-118 | In every zone and at every point of the walk, a DoE record, in a NACK or not, leads to the record query if and only if its range denies what was asked; otherwise the client throws and its state stays |
| `Resolver.LinkDecides` | src/clients/iterative-query-controller.cpp:119-136 | A LINK takes the walk into the zone it names with its names as the hint, or is the answer for type NS; without a delegation list it throws |
| `Resolver.AuthDecides` | src/clients/iterative-query-controller.cpp:137-155 | AUTH lengthens the tried prefix; at the label's end the record is asked for, or AUTH is the answer for type NS |
| `Resolver.OthersRepeat` | src/clients/iterative-query-controller.cpp:140-144 | Any other packet in the NS phase repeats the query |
| `Resolver.LastReplyDecides` | src/clients/iterative-query-controller.cpp:156-178 | Any packet ends the record query with success, and any later one aborts |
| `Resolver.FailuresDecide` | src/clients/iterative-query-controller.cpp:48-96 | Timeouts and rejected packets fail the query without a change of state; success needs an accepted packet |
| `Resolver.AtMostOneSuccess` | src/clients/iterative-query-controller.cpp:156-178 | Over any sequence of replies, timeouts and rejections the success callback fires at most once |
| `Resolver.Progress` | src/clients/iterative-query-controller.cpp:105-168 | LINK, AUTH and accepted denials strictly decrease the remaining queries; any other packet leaves the state and repeats the query |
| `Resolver.QueriesBounded` | src/clients/iterative-query-controller.cpp:98-217 | On any sequence of replies at all, a run sends no more queries than remain, plus one for each reply in its NS phase that is neither LINK, AUTH nor denial |
| `Resolver.RunIsBounded` | src/clients/iterative-query-controller.cpp:98-217 | Without such replies, a run from prefix s sends at most N - s + 1 queries |
| `Resolver.Receive` | src/clients/iterative-query-controller.cpp:66-217 | The recursion through cached answers ends, and keeps the invariants and a cache of delegations only |
| `Resolver.IterativeQueryController.Begin` | src/clients/iterative-query-controller.cpp:187-195 | start, including the direct record query when nothing is left to walk |
| `Resolver.IterativeQueryController.MakeLatestInterest` | src/clients/iterative-query-controller.cpp:229-265 | The query for the state, with hint, and the remembered label and type |
| `Resolver.IterativeQueryController.Express` | src/clients/iterative-query-controller.cpp:198-217 | A cached answer re-enters onData, otherwise the query is sent |
| `Resolver.IterativeQueryController.OnData` | src/clients/iterative-query-controller.cpp:66-179 | NACK unwrapping, cache insertion, transition and reaction together |
| `Resolver.IterativeQueryController.Transition` | src/clients/iterative-query-controller.cpp:105-165 | The switch on the step, exceptions included |
| `Resolution.ServeSettles` | src/daemon/name-server.cpp:64-117 | In a good world every question to an existing zone is answered with its record or with a denial the client accepts |
| `Resolution.DeepestIsUnique` | src/mgmt/management-tool.cpp:250-272 | The delegations along a label end in exactly one zone |
| `Resolution.BoundedTermination` | src/clients/iterative-query-controller.cpp:98-217 | If zones answer NS queries with LINK, AUTH or denials, no run repeats a query for ever: it stops at a query without reply, or ends within the remaining number of queries |
| `Resolution.WalkSolves` | src/clients/iterative-query-controller.cpp:98-179 | From every walking state the run meets the specification |
| `Resolution.ResolutionCorrect` | src/clients/iterative-query-controller.cpp:98-265 | Every run from an existing start zone ends in ANSWER_STUB at the deepest delegated zone, parses with that zone, returns its record for the rest of the label or an accepted DoE, within N - s + 1 queries; for type NS the parent's LINK |
| `CachedRuns.HintInvariant` | src/clients/iterative-query-controller.cpp:239-242 | At every query of every run the forwarding hint lists the names of the LINK that delegated the zone being asked, and is empty at the start zone |
| `CachedRuns.QueryNameInjective` | src/clients/query.cpp:58-75 | If zone names do not contain NDNS, a query name determines zone, label and type |
| `CachedRuns.CacheTransparent` | src/clients/iterative-query-controller.cpp:198-217 | A run with a sound cache ends with the same state, answer and number of questions as without, and keeps the cache sound |
| `CachedRuns.RememberExact` | src/clients/iterative-query-controller.cpp:101-103 | A LINK is cached under the name of the question it answers, other entries stay, and no other packet is cached |
| `CachedRuns.MetDelegationIsCached` | src/clients/iterative-query-controller.cpp:101-103 | A delegation that a run comes across is in the cache afterwards |
| `CachedRuns.CachedRunBounded` | src/clients/iterative-query-controller.cpp:198-217 | The same bound, counting answers from the cache, for any cache of delegations, sound or not |
| `CachedRuns.ControllerFollowsCachedRun` | src/clients/iterative-query-controller.cpp:66-217 | One call of the controller does what the cached run does up to the next query on the network |
| `CachedRuns.ControllerRunFollows` | src/clients/iterative-query-controller.cpp:66-217 | From start to finish the controller ends with the state, cache and event of the cached run |
| `EndToEnd.HealthyWorld` | src/mgmt/management-tool.cpp:243-312 | The zones of a healthy database with inverted guard rows, no stored NACK and a zone behind every delegation form a world that resolution can rely on |
| `EndToEnd.CertifiedZonesWellKept` | src/mgmt/management-tool.cpp:174-186 | Such a database is one whose zones keep their certificates and have no record at the apex or at /KEY |
| `EndToEnd.ManagedZonesResolve` | src/clients/iterative-query-controller.cpp:98-265 | After any disciplined run from the empty database, under any policy, resolving any goal from any of its zones ends with the answer of the deepest zone |
| `EndToEnd.ControllerResolves` | src/clients/iterative-query-controller.cpp:66-265 | The controller with a sound cache, driven by the servers' replies, ends with that answer and leaves the cache sound |
| `Scenario.DelegationSetUp` | tools/ndns-add-rr.cpp:179-202 | Creating a parent and a child zone and adding the NS record is a disciplined run whose result meets every assumption of the end-to-end theorem |
| `Scenario.ResolvesThroughDelegation` | src/clients/iterative-query-controller.cpp:98-265 | Resolving any name below that child from the parent ends at the child or deeper, never at the parent |
| `UnmarkedRecords.RefusedAddLeavesRow` | src/mgmt/management-tool.cpp:274-294 | After an update stored TXT at /a/b, adding that version again is refused and leaves a new AUTH row at /a |
| `UnmarkedRecords.HalvesNeedEachOther` | src/mgmt/management-tool.cpp:296-312 | A run on which one half of the delegation invariants is lost, and disciplined steps then lose the other |
| `ApexRecord.ApexRecordStopsResolution` | src/mgmt/management-tool.cpp:688-694 | After creating a zone and adding one TXT record at its apex, resolution throws for every name whose first component below the zone precedes `KEY` |
| `Wire.Estimate` | src/daemon/rrset-factory.cpp:260-275 | The estimator pass returns exactly the length of the encoding |
| `Wire.PrependList` | src/daemon/rrset-factory.cpp:267-270 | The loop from the last record to the first leaves exactly the list's encoding at the buffer's end |
| `Wire.WireDecode` | src/clients/response.cpp:80-94 | The loop that appends the elements returns exactly the decoded list, or fails on malformed bytes |
| `Wire.Prepend` | src/clients/response.cpp:56-63 | Writing in front of a position keeps what follows it |
| `Wire.WireEncode` | src/daemon/rrset-factory.cpp:277-285 | The back-to-front pass fills the estimated buffer exactly, and decoding it gives the records back |
| `Wire.ContentRoundTrip` | src/clients/response.cpp:80-94 | Decoding an encoded record list returns it |
| `Wire.ReadContentExact` | src/clients/response.cpp:80-94 | A record list is read exactly from one Content element around its elements |
| `Wire.DoeRoundTrip` | src/clients/response.cpp:96-104 | Decoding an encoded DoE pair returns both names |
| `Wire.DecodeDoeExact` | src/clients/response.cpp:96-104 | A DoE pair is read exactly from a content of two Name elements with well-formed names |
| `Wire.DoeNeedsPair` | src/clients/response.cpp:96-104 | Any other number of elements is an error |
| `Wire.ResponseRoundTrip` | src/clients/response.cpp:106-160 | For every content type fromData after toData yields an equal response; toData only fills in a missing version |
| `Wire.FromDataDecides` | src/clients/response.cpp:106-130 | fromData fails exactly on a name too short for a type and a version or on a malformed record list |

## Left out

- Signing, key chain, certificates' contents and validation: signatures are not modelled, and the validator is an arbitrary verdict per packet.
- ManagementTool.GenerateDoe: a failing key chain, which would stop the rebuild after the old chain is deleted, is not modelled; neither is a zone without any other record, where the unsigned size underflows (a precondition here).
- ManagementTool.AddIdCert: certificate names have the form zone/NDNS/KEY/id/CERT/version that createZone generates; given certificates with another issuer component are not modelled.
- ManagementTool.CreateZone: key generation and the zone_info table are not modelled; the key chain's verdict on given certificates is an argument.
- ManagementTool.AddMultiLevelLabelRrset: an empty label, for which the loop bound underflows, is excluded by a precondition.
- ManagementTool.AddRrset: the row comes from the record factory for a zone that exists; reusing an Rrset object that already carries a row id, which makes insert a no-op, is not modelled.
- ManagementTool.AddRrsetFromFile: re-signing and the lookup of the default certificate; what the file holds and the verdict on the certificate are arguments. Packets too short to hold a type and version are modelled, but excluded from runs because their rows are not named after their packets.
- Clock: one reading per operation, as an argument; generateDoe reads it once per row.
- Query, Response and RrsetFactory: modelled as values; the assignment of their fields in place, addRr and removeRr, and the factory's "zone has been checked" flag are not captured.
- SortRrsets: std::sort is library code; an insertion sort with the same comparison, on a sequence, stands for it, so the exchange of elements in place is not captured.
- RestoreName: the TLV parser belongs to ndn-cxx, which is not part of this model; it is taken to accept every variable-size number, shortest form or not.
- MatchVersionedName: versions are typed components (type 54); the older marker encoding of versions is not modelled, nor is a query name that consists of a version only, where the label length underflows.
- SQLite: statements become operations on a set of rows; files, locking and errors other than the unique index are left out. Row ids are not modelled.
- Face, event loop and forwarding: each query gets the reply of the server of the zone it names, or none. Prefix matching against other zones' servers and in the cache is left out; `CachedRuns` assumes zone names without the component NDNS instead.
- Cache eviction: entries are only added; dropping entries keeps a cache sound, since the condition speaks of each entry alone.
- handleUpdate: decoding the packet inside the update Interest and building the reply; `DoUpdate` starts from the packet.
- Delegation.Managed: the delegation invariants cover NS and, by policy, TXT records. Certificates are inserted without AUTH rows and may lie below a delegation.
- ControllerRun: one query is outstanding at a time, each reply is accepted by the validator, and all replies come from one state of the zones.
- Certificate fetchers, configuration, command-line tools (beyond the choice of the add operation), listing and export: input, output and formatting only.
