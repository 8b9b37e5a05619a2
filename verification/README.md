# dumbarp, modelled and proved in Dafny

dumbarp makes a host answer ARP for leased addresses, tags the traffic for each
address with the DSCP id of the daemon that brought it in, and keeps a fleet of
routers sending replies back through that daemon. Its correctness lives in small
reconcilers that run for ever against things that fail: the kernel's rule and
route tables, HTTP fetches, eBPF maps, the Kubernetes API. This project models
those reconcilers and the packet path between them, and proves what they
guarantee over every run.

`dafny verify dfyconfig.toml` checks everything.

## How the model is organised

| files | part of the system |
|---|---|
| `Base.dfy` | options, machine words, splitting a list by key |
| `Routing.dfy`, `Messages.dfy`, `RoutingSafety.dfy`, `RoutingConvergence.dfy`, `RoutingConfluence.dfy`, `RouteManager.dfy` | the policy-routing reconciler |
| `Cache.dfy`, `Identity.dfy`, `Specs.dfy`, `Freshness.dfy`, `IdAge.dfy` | lease caches, id ownership, route specs, and how old they can be |
| `Checksum.dfy`, `Edge.dfy`, `RouterDatapath.dfy`, `ReturnPath.dfy` | header arithmetic, the daemon's packet programs, the router's steering, the end-to-end return path |
| `Engine.dfy`, `Dhcp.dfy` | attachment with rollback, and the DHCP tasks around it |
| `Pools.dfy` | the Kubernetes pool controller |

Code that updates state step by step is a class or a method with loops, proved
against a function of the old state; the theorems are about those functions, over
whole runs. Each such function is also compared with a reading of its inputs that
does not use it: attributes, header bytes, call arguments. Concurrency is a state machine over the points where locks are
released. Failures are parameters: an oracle answers every kernel request, every
fetch and every API call.

Every lemma carries `{:induction false}`: inductions are written out, and no proof
rests on an automatic induction hypothesis.

The main theorems:

* **Routing.** Every request of every run leaves foreign rules and routes alone
  (`Ownership`); no table ever holds two of ours (`FailureSafety`), and the start
  states for which that holds are characterised (`SafeExactlyIfGuarded`). Repeated
  passes reach the desired state within max(1, n) passes exactly where it is
  attainable (`Convergence`), then go quiet (`GoalIsKept`); after any failures one
  good pass recovers (`Recovery`); visiting order does not matter (`Confluence`).
  The goal is stated by which packets a rule covers (`Holds`, `Exact`), not by the
  program's own test.
* **Freshness and identity.** The cache is a function of the calls' own arguments
  (`CacheIsCalls`). A routed lease is younger than both stale windows
  plus the gap plus two latencies (`TwoTierFreshness`); an id in force is younger
  than two windows, and that is tight (`BoundedIdAge`, `TwoWindowsIsTight`); the
  mutating id loop equals the first-claim rule (`FirstClaim`, `FirstToStand`).
* **Datapath.** `ORIG_DSCP` is a function of history in every interleaving with
  eviction (`RestorationHistory`); the tag never leaks (`TagNeverLeaks`); the
  incremental checksum is the full one (`IncrementalIsFull`); replies go back to
  the daemon their connection came through (`ReturnPathTheorem`).
* **Engine, DHCP, pools.** `EngineInvariant`, `LeasesMatchEngine`; what a pass
  does to the pools of any address on any cluster (`CarriersAfterPass`,
  `AllHostsOk`), and both sides of staleness (`StalePoolIsGone`,
  `YoungPoolIsKept`, `PoolsAreHistory`).

## What is taken as given

* A kernel request may be refused, and then changes nothing. A delete succeeds
  only if something matches it. Attributes absent from a delete request are
  wildcards: the mask and any further selector always, the mark for an unmarked
  rule. The action is always sent, and must match. If several objects match, any one of them may go
  (`FirstMatch` is the special case of the first in kernel order).
* Convergence and confluence start from at most one route of ours per table, each
  naming a gateway and an output interface (`TidyRoutes`): the listing keeps one
  route per table and a delete removes one. (`FailureSafety` needs less, and
  exactly what it needs is proved.) Each pass lists rules and routes
  atomically, and the interface table does not change during a pass.
* A packet reaches a router with mark 0, and no rule of another owner comes before
  ours in the lookup; `SelectsTable` is about our rules only, and about what a rule
  does to every packet with a given source and mark (`Covers`). Attributes beyond
  those modelled either narrow a rule (`Narrowing`) or do not affect matching.
* The kernel's checksum helper on egress is the RFC 1624 update. `ihl()` is the
  header length in bytes, as its comparison with the header size implies.
* Names in a configuration are distinct, and stale windows positive, where a
  theorem says so. Clocks never run backwards.
* An interface index is not shared by two attached interfaces (`Unnumbered`).

## What turned out not to hold as one would expect

* `parse_dumbarp_rule` recognises a rule of any action, but `del_rule` names one
  action. A recognised rule with another action can never be deleted, and blocks
  its table for ever (`OtherActionIsStuck`).
* The in-sync test reads source, mark and mask only. A rule that reads as wanted but
  has another action, a further selector, or a mask under mark 0 is taken for the
  wanted one if the route is right, and no pass ever touches it (`LookAlikeIsKept`,
  `LookAlikes`). `ExactIffPlain` says which rules those are. `Convergence`,
  `GrantedPassReachesGoal` and `SuccessfulPassAgrees` are therefore equivalences,
  with conditions on what the tables hold at the start.
* `list_routes` skips a route of our protocol without gateway or interface. In a
  table whose rules can be deleted, a rule and a second route are then added on
  top of it (`UnreadableRouteIsUnsafe`, `SafeExactlyIfGuarded`).
* A desired mark of 0 would never settle (`ZeroMarkNeverSettles`); `validate_id`
  rules it out (`WantedMarksInRange`).
* `table_id_for` maps a reserved number and the number 0x10000 above it to one
  table (`TableCollisions`). If the other address comes last, it displaces the
  first, whose packets then select no table (`DisplacedExample`,
  `ReturnPathTheorem`).
* A failed `add_interface` clears the entries under its own keys even if they were
  another interface's. `FailedAddUnchanged` says exactly when nothing changes;
  `ClashingRollback` is an instance of the other case.
* A pool listed under a name that is not its address's makes every pass that
  desires the address fail (`MisnamedExample`, `Pools.Cluster.ReconcileOnce`).
  Of several pools for one address a pass deletes one (`DuplicateSurvives`).
  Another's pool under an address's name is touched in place of creating one, and
  the address stays unrecognised (`TakenNameShadows`); if that pool carries another
  address, the touching keeps it alive (`ShadowedPoolIsKept`).
* Ingress ignores a refused insert into `ORIG_DSCP`, so replies may get the DSCP of
  an older packet (`EntryOfLatestRewritten`, `RefusedInsertLeavesOlder`).
* Undoing a checksum update restores every check except 0xFFFF (`ReplaceBack`).

## Model

| member | source | states |
|---|---|---|
| `Routing.TableIdFor` | dumbarp-routing/src/lib.rs:324-332 | a lease's table is never one of the kernel's reserved ones |
| `Routing.TableCollisions` | dumbarp-routing/src/lib.rs:324-332 | no address gets table 0, 253, 254 or 255, every other number is its own table, and two addresses share a table if and only if they are equal or one is a reserved number and the other the number it is nudged to |
| `Routing.ResolveIsLast` | dumbarp-routing/src/lib.rs:40-66 | a table is wanted if and only if some spec for it has an existing interface, and then as the last such spec says |
| `Routing.FinishRule` | dumbarp-routing/src/lib.rs:353-370 | a recognised rule never has mark 0 |
| `Routing.BuiltRuleParses` | dumbarp-routing/src/lib.rs:184-209 | round trip: a rule we add is recognised in its table, and matches its spec if and only if the mark is not 0 |
| `Routing.ExactIffPlain` | dumbarp-routing/src/lib.rs:289-299 | a rule that reads back as wanted covers exactly the packets of the spec if and only if it looks up its table, has no further selector and does not test for mark 0 |
| `Routing.BuiltRuleIsPlain` | dumbarp-routing/src/lib.rs:184-209 | a rule we add for a non-zero mark reads back as wanted and is plain |
| `Routing.BuiltRouteParses` | dumbarp-routing/src/lib.rs:236-258 | round trip: a route we add reads back with its table, gateway, interface and on-link flag, under our protocol |
| `Messages.ParseRuleMeans` | dumbarp-routing/src/lib.rs:334-370 | `parse_dumbarp_rule` returns (t, rule) if and only if the message is IPv4 for a /32 source with last priority 9876, and t, source, mark and mask are its last attributes (header table, no mark for 0, mask only with a mark) |
| `Messages.ParseRouteMeans` | dumbarp-routing/src/lib.rs:372-400 | `parse_dumbarp_route` returns (t, route) if and only if the message is IPv4 under protocol 0x9A with last gateway and interface as returned, in t by its last table attribute or header |
| `Messages.LastRouteMeans` | dumbarp-routing/src/lib.rs:171-182 | of several readable routes of ours in a table the listing shows the last |
| `Messages.SelectsMeans` | dumbarp-routing/src/lib.rs:211-234 | a delete request matches exactly our rules with its action, table and source, and its mark if it names one |
| `Messages.DelRuleRemovesOurs` | dumbarp-routing/src/lib.rs:211-234 | a granted rule delete removes one such rule and leaves everything else in place |
| `Messages.DelRouteRemovesOurs` | dumbarp-routing/src/lib.rs:260-272 | a granted route delete removes one IPv4 route under protocol 0x9A of the table named and leaves everything else in place; it is refused if there is none |
| `Messages.RuleTableMeans` | dumbarp-routing/src/lib.rs:334-370 | a rule is recognised as ours if and only if it is IPv4 for a /32 source with last priority 9876, in the table its attributes or header name |
| `Messages.RouteOwnerMeans` | dumbarp-routing/src/lib.rs:372-378 | a route is ours if and only if it is IPv4 under protocol 0x9A |
| `RoutingSafety.RequestFrame` | dumbarp-routing/src/lib.rs:184-272 | a request about one table, granted or not, changes nothing of ours in another table and nothing foreign |
| `RoutingSafety.DelRulesCount` | dumbarp-routing/src/lib.rs:106-112 | deleting a list of rules reports success exactly if it removed as many rules of the table as were listed |
| `RoutingSafety.Ownership` | dumbarp-routing/src/lib.rs:71-139 | over every run with any desired lists and failures, no request changes the sequence of rules that are not IPv4 /32-source at priority 9876 or of routes not IPv4 under protocol 0x9A, all read from the messages, and a refused request changes nothing |
| `RoutingSafety.FailureSafety` | dumbarp-routing/src/lib.rs:76-139 | over every such run from at most one rule and route of ours per table, each table guarded (its route is one we list, or a rule we cannot delete keeps us from adding), no intermediate state has two of either, a rule is added only where no earlier rule or route of ours remains, and a route is asked for only next to the rule just added |
| `RoutingSafety.SafeExactlyIfGuarded` | dumbarp-routing/src/lib.rs:76-139 | from at most one rule and route per table, every run is safe if and only if no table has both an unlisted route of ours and only deletable rules |
| `RoutingSafety.UnreadableRouteIsUnsafe` | dumbarp-routing/src/lib.rs:372-400 | a single route under our protocol without a gateway is a start state with an unsafe run |
| `RoutingConvergence.SyncProgress` | dumbarp-routing/src/lib.rs:76-139 | one visit with a cooperative kernel leaves a table the program is content with alone, brings a deletable one to its goal or removes some of its rules, and leaves a stuck one stuck without a route |
| `RoutingConvergence.HoldsIffPlain` | dumbarp-routing/src/lib.rs:84-92 | a table holds exactly what is wanted if and only if the program is content with it and its rule is plain |
| `RoutingConvergence.Convergence` | dumbarp-routing/src/lib.rs:38-142 | from at most n rules of ours in any table, max(1, n) passes bring each table to exactly one rule covering exactly the wanted packets and one wanted route, or to nothing, if and only if its wanted mark is not 0, its rules all look up a table, and a rule taken for the wanted one at the start is plain |
| `RoutingConvergence.ConvergenceFromPlain` | dumbarp-routing/src/lib.rs:38-142 | where all recognised rules are plain, the whole desired state is reached if and only if no wanted mark is 0 |
| `RoutingConvergence.OtherActionIsStuck` | dumbarp-routing/src/lib.rs:211-234 | a recognised rule with another action and no route keeps its table from ever reaching its goal, for every table, spec and number of passes |
| `RoutingConvergence.LookAlikeIsKept` | dumbarp-routing/src/lib.rs:84-96 | a rule that only reads as wanted, next to the right route, draws no request from any pass and is not the goal |
| `RoutingConvergence.LookAlikes` | dumbarp-routing/src/lib.rs:334-370 | for every wanted rule, another action or a further selector gives such a look-alike, and so does a mask on an unmarked one |
| `RoutingConvergence.ZeroMarkNeverSettles` | dumbarp-routing/src/lib.rs:360-369 | no kernel state counts as settled, or as the goal, for a spec with mark 0 |
| `RoutingConvergence.Quiescence` | dumbarp-routing/src/lib.rs:84-96 | a pass over a kernel it is content with sends no request |
| `RoutingConvergence.GoalIsKept` | dumbarp-routing/src/lib.rs:84-96 | once every table holds its goal, later passes send no request |
| `RoutingConvergence.OnePass` | dumbarp-routing/src/lib.rs:106-139 | if the kernel unlinks the first match, one pass brings every attainable table to its goal, however many rules it had |
| `RoutingConvergence.Recovery` | dumbarp-routing/src/lib.rs:106-139 | after any run of passes with any desired lists and failures, one cooperative pass brings about exactly what is wanted |
| `RoutingConfluence.Confluence` | dumbarp-routing/src/lib.rs:71-139 | two passes from one state whose requests were all granted agree on every table and on everything foreign, for any visiting orders and kernel choices |
| `RoutingConfluence.GrantedPassReachesGoal` | dumbarp-routing/src/lib.rs:76-139 | a pass whose requests were all granted brings a table with a non-zero mark to its goal if and only if it does not find a look-alike there |
| `RouteManagerImpl.ParseDumbarpRule` | dumbarp-routing/src/lib.rs:334-370 | the attribute loop computes the declarative reading of a rule message |
| `RouteManagerImpl.ParseDumbarpRoute` | dumbarp-routing/src/lib.rs:372-400 | the attribute loop computes the declarative reading of a route message |
| `RouteManagerImpl.ResolveSpecs` | dumbarp-routing/src/lib.rs:39-66 | the interface-index cache does not change which specs win |
| `RouteManagerImpl.ListRules` | dumbarp-routing/src/lib.rs:159-169 | per table exactly the recognised rules in kernel order, and no key for a table without any |
| `RouteManagerImpl.ListRoutes` | dumbarp-routing/src/lib.rs:171-182 | per table the last parseable route of ours, and no key for a table without one |
| `RouteManagerImpl.RouteManager.SyncOne` | dumbarp-routing/src/lib.rs:76-139 | the imperative loop body is the table step the theorems are about, with its log of requests |
| `RouteManagerImpl.RouteManager.Reconcile` | dumbarp-routing/src/lib.rs:38-142 | a call whose listings succeed is a pass, visiting every table of ours or wanted once; one whose listings fail is an error and changes nothing |
| `LeaseCache.Cache.ApplyRound` | dumbarp-api/src/cache.rs:35-79 | the cache becomes the replay of the round's fetches, the view shows it, and the three counters sum to the number of results |
| `LeaseCache.CallOutcome` | dumbarp-api/src/cache.rs:43-72 | what one call leaves for a name, in terms of its arguments: unchanged if unlisted, the last value brought at the call's time, or the old entry if less than a window old |
| `LeaseCache.CacheIsCalls` | dumbarp-api/src/cache.rs:35-79 | over every sequence of calls with a forward clock, a name is cached if and only if less than a window lies between the latest call in which it succeeded and the last that listed it, with that call's value and time |
| `LeaseCache.CountersCount` | dumbarp-api/src/cache.rs:58-68 | for distinct names the counters are the numbers of successes, of failed names still cached, and of failed names no longer cached |
| `LeaseCache.Cache.Snapshot` | dumbarp-api/src/cache.rs:81-88 | a name is shown if and only if it is cached, with its cached value |
| `LeaseCache.SnapshotIsHistory` | dumbarp-api/src/cache.rs:81-88 | in terms of the fetches alone, a snapshot shows a name if and only if its latest success was not found too old by a later attempt, with the value that success brought |
| `LeaseCache.CacheIsHistory` | dumbarp-api/src/cache.rs:43-79 | over all histories an entry is present if and only if its latest success was not found too old by a later attempt, with that success's value and time |
| `LeaseCache.CacheIsLatestYoungSuccess` | dumbarp-api/src/cache.rs:43-79 | with a forward clock and a positive window, present if and only if the latest success is younger than the window at the last poll |
| `Identity.ValidateId` | dumbarp-routerd/src/reconcile.rs:297-319 | an id passes if and only if it is in 1..63 and unclaimed, and then it is claimed for the name; nothing else changes |
| `Identity.KnownIds.ResolveIds` | dumbarp-routerd/src/reconcile.rs:259-295 | the mutating loop yields the ids and the memory that the theorems below are about |
| `Identity.IdsInjective` | dumbarp-routerd/src/reconcile.rs:284-290 | even with repeated names, ids are in 1..63 and no two names share one |
| `Identity.FirstClaim` | dumbarp-routerd/src/reconcile.rs:259-319 | for distinct names a daemon gets its candidate (advertised, else unexpired remembered from before the round) if and only if it is in 1..63 and no earlier daemon has the same one |
| `Identity.FirstToStand` | dumbarp-routerd/src/reconcile.rs:268-291 | daemon k gets id if and only if it advertises it, or advertises nothing and was remembered with it less than a window ago, it is in 1..63, and no earlier daemon stands for it |
| `Identity.RememberedAfterRound` | dumbarp-routerd/src/reconcile.rs:284-293 | a round overwrites a name's memory exactly when it accepts that name's advertisement, and otherwise only expires it |
| `Identity.RememberedIsLatestAccepted` | dumbarp-routerd/src/reconcile.rs:268-295 | after every round a name's memory is its most recent accepted advertisement if younger than the window, and nothing otherwise; reuse never extends it |
| `Identity.RememberedWasAccepted` | dumbarp-routerd/src/reconcile.rs:287-293 | whatever is remembered was accepted in some round, at the time it says |
| `Specs.Policy.BuildGatewaySpecs` | dumbarp-routerd/src/reconcile.rs:214-257 | the loop emits each daemon's specs in list order, skipping daemons without an id unless routing is by source |
| `Specs.Policy.SpecOrigin` | dumbarp-routerd/src/reconcile.rs:223-256 | a spec is emitted if and only if some listed daemon emits it for one of its own leases |
| `Specs.EmittedSpecs` | dumbarp-routerd/src/reconcile.rs:223-254 | field by field: a listed daemon's own lease, its next hop, its override device if it has one, and its id as mark, which it must have, unless routing is by source alone, which marks nothing |
| `Specs.PushSpecs` | dumbarp-routerd/src/reconcile.rs:321-343 | appends one spec per address, in order, and keeps what was there |
| `Specs.DirectSpecs` | dumbarp-routerd/src/reconcile.rs:169-189 | the direct-mode loop emits what the gateway-mode builder would for the same daemons |
| `Specs.KnownOrigin` | dumbarp-gateway/src/http.rs:34-54 | `/daemons` serves exactly the configured daemons with a cached lease, with those leases |
| `Specs.KnownConcat` | dumbarp-gateway/src/http.rs:37-51 | the served daemons are in configuration order |
| `Specs.LastEmitterWins` | dumbarp-routing/src/lib.rs:56-65 | the last daemon emitting an address decides its table if and only if no other address displaces it there |
| `Specs.DisplacedIsNudged` | dumbarp-routing/src/lib.rs:324-332 | only reserved numbers and the numbers they are nudged to can be displaced |
| `Specs.DisplacedExample` | dumbarp-routing/src/lib.rs:326-332 | 0.0.0.253 loses its table to a later spec for 0.1.0.253 |
| `Freshness.InvAlways` | dumbarp-gateway/src/reconcile.rs:42-52 | in every execution each tier's content is backed by a daemon's report of bounded age |
| `Freshness.TwoTierFreshness` | dumbarp-routerd/src/reconcile.rs:72-95 | in every execution with arbitrary failures, a desired address was reported by the daemon it is routed to less than stale_gateway + stale_router + gap + 2 latency before the round |
| `Freshness.RouterRoundOutcome` | dumbarp-routerd/src/reconcile.rs:72-95 | a router round desires the specs of the delivered snapshot, else of the cached one while less than a window old, else nothing |
| `Freshness.AnswerIsRouted` | dumbarp-gateway/src/http.rs:34-54 | a daemon's answer to a gateway round, served and delivered, is routed: each of its leases the policy emits is desired |
| `IdAge.AdvertIsYoung` | dumbarp-api/src/cache.rs:60-70 | an id listed for resolution comes from a fetch from that daemon less than one window old |
| `IdAge.RememberedIsBacked` | dumbarp-routerd/src/reconcile.rs:268-293 | a remembered id comes from a fetch less than one window before it was remembered |
| `IdAge.BoundedIdAge` | dumbarp-routerd/src/reconcile.rs:141-167 | every id in force was in a successful fetch from that daemon at most two windows minus two ticks earlier |
| `IdAge.TwoWindowsIsTight` | dumbarp-routerd/src/reconcile.rs:268-293 | for every window of at least two ticks, some run has an id in force whose only support is two windows minus two ticks old |
| `Checksum.TosWithDscpReplacesDscp` | dumbarp-common/src/lib.rs:23-25 | the DSCP is replaced, the ECN bits stay, and the byte is unchanged if and only if the DSCP was the same |
| `Checksum.TosBits` | dumbarp-common/src/lib.rs:23-25 | the DSCP is the upper six bits, the ECN the lower two, and replacing one keeps the other |
| `Checksum.FullChecksum` | dumbarp-common/src/lib.rs:72-81 | the summing and folding loops compute the one's-complement checksum of a header of any length |
| `Checksum.TwoFoldsSuffice` | dumbarp-common/src/lib.rs:16-21 | two folds always reach 16 bits, and give the one's-complement value |
| `Checksum.IncrementalIsFull` | dumbarp-common/src/lib.rs:16-21 | for any header length and position, updating a correct check for a changed non-zero word equals recomputing it |
| `Checksum.ReplaceBack` | dumbarp-common/src/lib.rs:16-21 | replacing back restores the check if and only if it was not 0xFFFF |
| `Edge.FlowKey.ReversedTwice` | dumbarp-common/src/lib.rs:57-59 | reversal is an involution |
| `Edge.RewriteKeepsCheck` | dumbarp-ebpf/src/main.rs:159-166 | a header with a right checksum, with or without options, still has one after its TOS is rewritten |
| `Edge.RightCheckSumsToOnes` | dumbarp-common/src/lib.rs:72-81 | the one's-complement sum of the whole header is all ones if and only if the check is right, or is 0xFFFF where 0 would be |
| `Edge.Datapath.TryStamp` | dumbarp-ebpf/src/main.rs:135-169 | the in-place program changes the frame and `ORIG_DSCP` as the history theorems assume, in every branch |
| `Edge.StampIdMeans` | dumbarp-ebpf/src/main.rs:74-155 | ingress stamps id if and only if bytes 12-13 are 0x0800, the header fits, the interface's id is id in 1..63, the address in bytes 30-33 is answered for there, and byte 15 does not carry id |
| `Edge.StampedMeans` | dumbarp-ebpf/src/main.rs:150-166 | otherwise the frame is unchanged; if stamped, only byte 15 and the check in bytes 24-25 change |
| `Edge.RecordedMeans` | dumbarp-ebpf/src/main.rs:156-157 | exactly the stamped frames are recorded, under the reversed flow, with the upper six bits of byte 15 |
| `Edge.FlowKeyMeans` | dumbarp-ebpf/src/main.rs:171-192 | the flow key byte by byte; ports only for TCP or UDP, no options, and enough bytes |
| `Edge.ReplyKeyIsReversed` | dumbarp-ebpf/src/main.rs:258-273 | a reply with addresses and ports exchanged byte for byte has the reversed key, at either header offset |
| `Edge.SameFlowIff` | dumbarp-ebpf/src/main.rs:171-192 | packets with ports are of one flow if and only if protocol, addresses and ports agree |
| `Edge.StampIsRight` | dumbarp-ebpf/src/main.rs:150-166 | a stamped frame carries the id, its old ECN bits, and a right check if it came with one |
| `Edge.Datapath.TryTerminate` | dumbarp-ebpf/src/main.rs:202-246 | the in-place program changes the frame as the history theorems assume, including when a helper fails half-way |
| `Edge.TerminatedMeans` | dumbarp-ebpf/src/main.rs:202-256 | egress leaves every packet unchanged that is not IPv4, has no id or link length, is too short, does not carry our id at offset 1 (or 15), or cannot be stored to; otherwise the recorded DSCP replaces the id, and only the TOS byte changes if the checksum update is refused |
| `Edge.RestorationHistory` | dumbarp-ebpf/src/main.rs:135-192 | in every interleaving of ingress, egress, refused inserts and eviction, an `ORIG_DSCP` entry exists if and only if its flow has an unevicted latest stored record, and holds that packet's DSCP |
| `Edge.EntryOfLatestRewritten` | dumbarp-ebpf/src/main.rs:156-157 | against the most recent rewritten packet: unless evicted since, the entry is its DSCP if its insert was granted, and otherwise what was recorded before it |
| `Edge.RefusedInsertLeavesOlder` | dumbarp-ebpf/src/main.rs:157-157 | two packets of one flow, the second insert refused: the entry is the first packet's DSCP |
| `Edge.ReplyIsRestored` | dumbarp-ebpf/src/main.rs:202-246 | a reply still carrying our id leaves with the recorded DSCP (0 if none), its ECN bits, nothing else changed but the check, and a right check if it had one |
| `Edge.ReplyGetsOriginalDscp` | dumbarp-ebpf/src/main.rs:224-243 | stamp then terminate is the identity on the DSCP of a flow whose record was not disturbed |
| `Edge.RecordsNeverHoldId` | dumbarp-ebpf/src/main.rs:138-157 | in every reachable state with one shared id, no `ORIG_DSCP` value is that id |
| `Edge.TagNeverLeaks` | dumbarp-ebpf/src/main.rs:209-236 | in every such state, a packet the classifier handles without helper failure leaves with another DSCP |
| `RouterDatapath.CapacityNeverReached` | dumbarp-routerd-ebpf/src/main.rs:14-15 | over every run of rounds of `resolve_ids` and `sync_ids`, and after each single map operation, `DSCP_IDS` maps ids in 1..63 to themselves and holds at most 63 keys |
| `RouterDatapath.Datapath.DropUnwanted` | dumbarp-routerd/src/datapath.rs:69-74 | afterwards exactly the wanted entries and those whose removal was refused remain |
| `RouterDatapath.Datapath.InsertOne` | dumbarp-routerd/src/datapath.rs:75-78 | the fixed-size map always has room: only the kernel's own refusal stops an insert |
| `RouterDatapath.Datapath.SyncIds` | dumbarp-routerd/src/datapath.rs:62-80 | success means every wanted id is present and every other is one whose removal was refused; failure means some insert was refused; either way only removals and insertions of wanted ids took effect |
| `RouterDatapath.Datapath.Steer` | dumbarp-routerd-ebpf/src/main.rs:42-66 | the mark is the id in the packet's upper six TOS bits if the table has it and 0 otherwise, and exactly the right one of three counters grows |
| `RouterDatapath.MarkIsTag` | dumbarp-routerd-ebpf/src/main.rs:54-65 | the mark is non-zero if and only if the upper six TOS bits of a readable IPv4 packet are an id of the table, and then it is that id |
| `RouterDatapath.StampIsMarked` | dumbarp-routerd-ebpf/src/main.rs:54-61 | whatever its other bits, a packet stamped with an id of the table is marked with it |
| `RouterDatapath.TaggedKeepsItsMark` | nix/reconciler-module.nix:452-457 | a tagged packet keeps its own mark, whatever its connection's is |
| `RouterDatapath.CtMarkIsLastTag` | nix/reconciler-module.nix:452-457 | a connection's mark is the id carried by the last tagged packet seen while it was new |
| `RouterDatapath.UntaggedHasNoMark` | nix/reconciler-module.nix:452-457 | a connection never tagged while new has mark 0 |
| `RouterDatapath.CtMarkIsStable` | nix/reconciler-module.nix:452-457 | once a connection's packets are no longer new its mark never changes |
| `ReturnPath.WantedMarksInRange` | dumbarp-routerd/src/reconcile.rs:297-319 | every wanted mark is an id in force, in 1..63 |
| `ReturnPath.SuccessfulPassAgrees` | dumbarp-routerd/src/reconcile.rs:167-196 | a successful id sync and a fully granted routing pass leave ids, id table, rules and routes in agreement if and only if the pass met no look-alike |
| `ReturnPath.MarkAgreement` | dumbarp-routerd/src/reconcile.rs:167-191 | every rule's mark m is in 1..63 with `DSCP_IDS[m] == m`, and two rules share a mark if and only if they stem from one daemon name |
| `ReturnPath.SelectedTable` | dumbarp-routing/src/lib.rs:184-209 | every packet with a source and mark is sent to a table of ours if and only if the round wants exactly that source and mark there |
| `ReturnPath.StampedFrameIsMarked` | dumbarp-ebpf/src/main.rs:150-166 | a frame ingress stamped with id d is marked d by every router whose table has d |
| `ReturnPath.ReturnPathTheorem` | dumbarp-routerd-ebpf/src/main.rs:42-66 | over any packet sequence after a successful pass, an untagged packet from x on a connection whose last tagged packet while new carried D's id in its upper six TOS bits gets D's mark and, if D is the last emitter of x, selects exactly the table routed to D's next hop, or none if and only if x is displaced |
| `ReturnPath.UntaggedRoutesNormally` | nix/reconciler-module.nix:445-457 | a connection never tagged while new keeps mark 0 and its unmarked packets select no table of ours |
| `Engine.Dumbarp.AttachEgress` | dumbarp/src/lib.rs:161-193 | succeeds if and only if every step does; on failure touches no entry of another index |
| `Engine.Dumbarp.ClearIfaceMaps` | dumbarp/src/lib.rs:211-219 | removes one index from both maps and changes nothing else |
| `Engine.Dumbarp.AddInterface` | dumbarp/src/lib.rs:61-120 | succeeds if and only if every step does; the net effect, with rollback at each point of failure |
| `Engine.Dumbarp.RemoveInterface` | dumbarp/src/lib.rs:122-155 | the interface leaves the table and the maps even if the final detach fails |
| `Engine.FailedAddUnchanged` | dumbarp/src/lib.rs:92-108 | a failed add leaves everything unchanged if and only if it failed before the egress step or no entry sat under its keys |
| `Engine.ClashingRollback` | dumbarp/src/lib.rs:97-106 | with two interfaces numbered alike, rolling back the second wipes the first one's id |
| `Engine.FailedAddRollsBack` | dumbarp/src/lib.rs:61-120 | in every consistent state, with interfaces numbered apart, a failed add changes nothing |
| `Engine.AddKeepsInv` | dumbarp/src/lib.rs:61-120 | an add, failing anywhere or not, keeps the maps in step with the table |
| `Engine.RemoveKeepsInv` | dumbarp/src/lib.rs:122-155 | a removal, with a failing detach or not, keeps the maps in step with the table |
| `Engine.EngineInvariant` | dumbarp/src/lib.rs:61-219 | after any sequence of adds and removes, `ARP_TABLE` has exactly the keys of attached interfaces, and `DSCP_ID` and `L2_LEN` exactly the indexes with an egress link |
| `Engine.AddGranted` | dumbarp/src/lib.rs:61-120 | when no step fails a free interface is attached and the maps get its MAC, id and link length, under its own keys only |
| `Engine.ReattachWorks` | dumbarp/src/lib.rs:122-155 | after a removal with the link detached the interface can be attached again |
| `Engine.AttachedIsHistory` | dumbarp/src/lib.rs:61-155 | after any calls an interface is attached if and only if an add of it succeeded and no removal followed, and the maps hold the address, MAC, id and link length of that add |
| `Dhcp.InvStep` | dumbarp-daemon/src/dhcp.rs:31-97 | every step of any task keeps engine and leases in agreement, up to a pending lease update |
| `Dhcp.LeasesMatchEngine` | dumbarp-daemon/src/dhcp.rs:31-97 | in every interleaving an interface whose task is between events has a lease if and only if it is attached, with the same address, also after failed attaches and detaches |
| `Dhcp.LeaseIsLastEvent` | dumbarp-daemon/src/dhcp.rs:31-97 | in every interleaving the lease and the attachment are what the interface's latest event led to: its address and gateway if the attach succeeded, nothing after a failed attach or a detach |
| `Dhcp.CommitFinishes` | dumbarp-daemon/src/dhcp.rs:49-59 | the lease update ends the event and leaves the engine alone |
| `Dhcp.ServedIsAnswered` | dumbarp-daemon/src/state.rs:30-46 | when all tasks are between events, the served addresses are exactly those `ARP_TABLE` answers for |
| `Pools.PoolNameInjective` | dumbarp-k8s/src/reconcile.rs:171-173 | distinct addresses have distinct pool names |
| `Pools.PoolNameMeans` | dumbarp-k8s/src/reconcile.rs:171-173 | the name is "dumbarp-" and the four octets in decimal, separated by dashes |
| `Pools.DecimalMeans` | dumbarp-k8s/src/reconcile.rs:171-173 | decimal notation: digits only, denoting the number, without leading zeros |
| `Pools.ListCurrent` | dumbarp-k8s/src/reconcile.rs:136-169 | an address is listed if and only if some managed pool's annotation parses to it, with one such pool's name and last-seen time |
| `Pools.CollectDesired` | dumbarp-k8s/src/reconcile.rs:108-130 | the union of what the hosts reported, and whether every host answered |
| `Pools.Cluster.CreateOrTouch` | dumbarp-k8s/src/reconcile.rs:198-236 | creation falls back to touching an existing name; touching a listed pool that lacks its name fails; an error changes nothing |
| `Pools.Cluster.TouchAll` | dumbarp-k8s/src/reconcile.rs:57-68 | the loop touches the desired addresses in some order and stops at the first failure |
| `Pools.Cluster.PruneAll` | dumbarp-k8s/src/reconcile.rs:70-88 | exactly the listed, undesired pools that are due go, on any cluster; a refused deletion ends the loop with some of them gone |
| `Pools.Cluster.ReconcileOnce` | dumbarp-k8s/src/reconcile.rs:39-101 | on any cluster: a pass that succeeds touched exactly the desired names and deleted exactly the due listed pools; one that fails changed no other pool; with every API call granted it succeeds if and only if no desired address has a misnamed pool |
| `Pools.CarriersAfterPass` | dumbarp-k8s/src/reconcile.rs:57-88 | on any cluster and for any listing, the pools carrying an address after a pass: a desired one gains a pool if its name was free; an undesired one loses the listed pool if that is due, and only that |
| `Pools.DeletedIsDue` | dumbarp-k8s/src/reconcile.rs:70-88 | a pass deletes only managed pools that carry an undesired address and are due |
| `Pools.MisnamedExample` | dumbarp-k8s/src/reconcile.rs:217-236 | a hand-made managed pool is misnamed for its address |
| `Pools.PoolsAreHistory` | dumbarp-k8s/src/reconcile.rs:44-88 | over every run on any cluster, an address whose own pools start in order has a pool if and only if its last report is within the window and no later pass heard from every host, and its last-seen time is that report's |
| `Pools.StalePoolIsGone` | dumbarp-k8s/src/reconcile.rs:70-88 | on any cluster, an address unreported for longer than the window loses one pool at every pass and is gone if and only if there were as many passes as pools: the next pass, if it had one |
| `Pools.GoneAfterAsManyPasses` | dumbarp-k8s/src/reconcile.rs:70-88 | an undesired address whose d pools are all due is gone after exactly d passes, whichever pool each listing shows |
| `Pools.ProperEffect` | dumbarp-k8s/src/reconcile.rs:57-88 | an address whose pools are in order stays so, whatever the rest of the cluster looks like |
| `Pools.YoungPoolIsKept` | dumbarp-k8s/src/reconcile.rs:70-88 | on any cluster, while some host fails at every pass a pool seen within the window stays, under any name, and its time never goes back |
| `Pools.AllHostsOk` | dumbarp-k8s/src/reconcile.rs:74-88 | on any cluster, after a pass that heard from every host a desired address is listed if and only if it was before or its name was free, and an undesired one if and only if two or more pools carried it |
| `Pools.RecognisedIsDesired` | dumbarp-k8s/src/reconcile.rs:74-88 | so the recognised addresses are exactly the desired ones if and only if no desired address is shadowed and no undesired one has two pools |
| `Pools.DuplicateSurvives` | dumbarp-k8s/src/reconcile.rs:143-166 | an undesired address with two pools is still there after a pass that heard from every host |
| `Pools.TakenNameShadows` | dumbarp-k8s/src/reconcile.rs:209-211 | with another's pool under its name, a desired address is not recognised after a successful pass, and that pool has been touched |
| `Pools.ShadowedPoolIsKept` | dumbarp-k8s/src/reconcile.rs:217-236 | a pool named after a reported address but carrying an unreported one is refreshed and kept |

## Left out

- `RoutingConvergence.Convergence`: starts from at most one route of ours per table, because `list_routes` keeps one per table and `del_route` removes one; a second route is outside the model.
- `Engine.Dumbarp.AddInterface`: map removals, and the XDP detach during rollback, are taken to succeed; the program ignores their errors.
- `IdAge.BoundedIdAge`: counts one clock reading per round; the program reads the clock once for the cache and once for the ids.
- `Pools.PoolsAreHistory`: is about addresses whose own name is free or carries them and that no other pool carries (`Proper`), and about passes that completed; for other addresses `CarriersAfterPass`, `StalePoolIsGone` and `YoungPoolIsKept` say what happens.
- `Pools.StalePoolIsGone`: leaves out an address with a pool named after another address that is still reported; `ShadowedPoolIsKept` shows that such a pool stays.
- `Freshness.TwoTierFreshness`: the id policy of each router round is arbitrary rather than tied to `resolve_ids`, which only widens the runs it covers.
- Route destinations: the model has one route of ours per table and does not represent the prefix it covers.
- Teardown by `reconcile(&[])`: it is the instance of the routing theorems with nothing desired.
- HTTP servers and clients, bearer tokens and their constant-time comparison, TOML and JSON decoding, the command line, configuration validation.
- The internals of netlink, aya, kube, tokio and the kernel's packet helpers; raw pointer bounds and host byte order in the eBPF programs.
- ARP request rewriting and neighbour probing: copying at fixed offsets.
- IP fragments: a fragment's payload is read as ports, as the program does, and nothing more is said.
- `dhcp-lease-read`: no other part depends on it.
- LRU order of `ORIG_DSCP`: any entry may be evicted at any time instead.
- Per-CPU summing of counters, link identifiers, log messages and the duplicate-source warnings.
- The text of annotations: an address or timestamp either parses or is absent.
- Packaging, except the two netfilter rules.
