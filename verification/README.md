# Verified model of the domain gateway's allocation, policy and DNS wire logic

`domain-gateway` answers a protected domain name with a synthetic IPv4 address, turns that
address back into the name when an egress gateway asks for its PTR record, and decides from
name, port and grants whether a flow may pass. This project models those parts in Dafny and
proves what they promise. `dafny verify dfyconfig.toml` checks everything.

## How it is organised

| files | what they model |
|---|---|
| `Addresses`, `Basics` | IPv4 addresses and prefixes; the usable addresses of a list of prefixes in the order they are handed out |
| `Allocators`, `Enumeration`, `Walks`, `AllocatorRuns`, `SampleRuns`, `Reuse`, `Restarts` | the in-memory allocator: class, cursor, its walk through the blocks, whole runs, save and load |
| `Tables`, `Registry`, `RegistryInvariant`, `RegistryRuns` | the SQL registry shared by DNS replicas with their caches, one operation per step |
| `StatementRuns`, `CacheRaces`, `SerialRuns` | the same registry with one SQL statement or lock section per step: table, caches, and how the two grains agree |
| `Names`, `Ports`, `Policy`, `PolicyMeaning`, `PolicyOrder`, `Grants`, `RangeKeys`, `SampleNames` | names and wildcards, port lists, grant evaluation, grant validation, registry keys |
| `Wire`, `Messages`, `Server`, `ReverseNames` | question parser, response builders, a reference message decoder, reverse names |
| `Services`, `EndToEnd` | the DNS and flow decisions, and the path from a DNS answer to an allowed flow |

Code that changes state is modelled by classes (`Allocator`, `Database`, `SqlStore`, `Service`)
and loops, each proved equal to a function on values; the theorems are about those functions.

## Main results

- **Registry, whole runs** (`RegistryRuns.AnswersAgree`). Any number of replicas, one operation
  per step, a common clock that never goes back, a common positive lease, any initial table with
  unique addresses. While an answer stands (lease less the five-minute debounce, and always at
  the same instant) everybody who asks for that name or that address gets that answer, and no
  other name gets the address. It rests on the invariant that an unexpired cache entry is backed
  by a table row with the same address and at least its expiry, which also makes every answer
  the one a store without a cache would give (`CacheRefinesTable`).
- **Moves** (`RegistryRuns.MovesOnlyAfterExpiry`). In every run, between a state where one name
  holds an address and a later one where another does, some event at or after the table expiry of
  the first name's row takes the address away, however many events lie between release and reuse;
  and at the reuse every cached copy for anyone else has expired.
- **Time to live** (`RegistryRuns.TtlSafeIffLeaseLongEnough`). An address is never answered for a
  second name within the 600 s of the first record, in all runs of DNS replicas, if and only if
  the lease is at least 15 minutes. For every shorter lease a violating run of the DNS path is
  constructed. The configuration accepts any positive lease.
- **Statement grain** (`StatementRuns.Convergence`). With SQL statements and lock sections
  interleaved arbitrarily and any clocks and leases, operations decided by a SELECT
  converge if their rows existed side by side in some state between the two SELECTs.
- **Caches at statement grain** (`CacheRaces`). Every cache entry comes from one operation's
  result (`EntryOrigin`). An entry found by a SELECT is backed from the operation's UPDATE on
  exactly when the row still has the address at that UPDATE and no later statement breaks it
  (`RenewedEntryBackedIff`); an entry of the inserting half exactly when the row it read lives as
  long and no later statement breaks it (`CreatedEntryBackedIff`). For the first kind it is enough
  that no DELETE runs with a clock that has reached the row's or the entry's expiry and no UPDATE
  writes less than the entry's (`MildRunsKeepEntriesBacked`). Without that it can fail:
  `StaleRememberSharesAddress` is an interleaving after which two replicas have returned and
  cached one address for two names.
- **The grains agree** (`SerialRuns.OperationRunsAreStatementRuns`). Every run of whole operations
  is a run of the statement machine with the same table, caches, renewals and answers.
- **In-memory cursor** (`Enumeration.EnumerationExact`). On disjoint prefixes the cursor hands
  out the usable addresses exactly and in order if and only if the list is `Smooth`: no prefix
  ends at 255.255.255.255, none is directly followed in address space by an earlier prefix of
  the list, nor by the next one unless that one is a /32. `GatewaysEnumerate` and
  `AnswersFollowPlace` lift this to all interleavings of lock sections.
- **No reuse** (`Reuse.NeverReusedIff`). On any disjoint prefixes, smooth or not, the names of a
  gateway hold distinct addresses in all runs if and only if no prefix that the cursor enters
  `Wraps`: ends at 255.255.255.255, or is directly followed in address space by an earlier prefix
  of the list. Which prefixes it enters is a computation on the list alone (`Walks.Entered`): it
  passes over one that directly follows the prefix it leaves. Across gateways (`Reuse.InverseIff`)
  the two maps are inverse in all runs if and only if, further, no two gateways enter prefixes
  with a usable address in common.
- **Restart** (`Restarts.RestartIffAscending`). On smooth disjoint prefixes, with no usable address
  shared between gateways, saving and loading rebuilds the allocator exactly after every run, for
  rows in any order, if and only if the prefixes are listed in ascending order; and no new name is
  ever given a saved address after a restart if and only if they are.
- **Policy** (`Policy.GatewayFor`, `PolicyMeaning`, `PolicyOrder`). The resolver choice is
  characterised on the grants and resources alone: a flow gets a gateway if and only if some
  resource matches and no conflict is met (`GatewayIffNoConflict`), and then a resource's resolver
  wins over a grant's, which wins over the gateway's (`ResolverChosen`). Parsing keeps exactly the
  accepted entries, in order and resource by resource (`Grants.KeptExactly`). Ranges are chosen independently of grant order, gateways are not: every order of the
  grants avoids failure if and only if no grant and no ordered pair of grants clashes
  (`EveryOrderSucceedsIff`).
- **Wire** (`Messages`, `Server.ResponseMeansDecision`). An independent decoder of RFC 1035
  messages recovers exactly what was meant from every response, if and only if the request
  announces no authority or additional records (and no answers, when the response holds none).
- **End to end** (`EndToEnd.AnsweredNameReachesItsEgress`).

## Where the code and its descriptions differ

- An EDNS query announces one additional record. The builders copy that count and add no such
  record, so the response cannot be decoded (`Server.EdnsRequestUnreadable`).
- The allocator is described as never reusing addresses. Within one process a gateway does exactly
  when its cursor enters a prefix that wraps (`Reuse.NeverReusedIff`), for instance one at the top
  of the address space (`TopOfAddressSpaceWraps`); across a restart it does on prefixes that are
  not listed in ascending order (`DescendingBlocksReuseAddresses`). A prefix listed right after its
  neighbour in address space is passed over, and exhaustion is reported early
  (`AdjacentBlocksAreSkipped`).
- `GatewayFor` is described as failing closed on equally specific conflicting choices. A conflict
  below the highest priority fails the flow only if it is met before a higher-priority match
  (`PolicyOrder.OrderDecidesFailure`); `EveryOrderSucceedsIff` says when order cannot matter.
- The unique constraints are described as making replicas converge. The table does; a replica that
  remembers a row another one has just replaced does not (`CacheRaces.StaleRememberSharesAddress`).
- Capabilities may overlap. The allocator without a store then gives one address to two names
  (`SampleRuns.SharedAddressCollides`).
- The comment on `SQLStore` speaks of one active DNS authority, the README of several replicas on
  PostgreSQL. The model has any number of replicas.

## Modelling choices

- Times are integers in nanoseconds and 0 is Go's zero time, so run clocks are positive.
- Go strings are byte sequences. Lower-casing and case-insensitive comparison act on ASCII letters.
- The maps that the code indexes by gateway, a NUL byte and domain are indexed by the pair;
  `RangeKeys.RegistryKeyInjective` shows that the string stands for exactly one pair.
- A nil slice is the empty sequence; parsed grants never have empty ranges.
- `RegistryRuns` lets an operation use any store with any allocator; production pairs them.
- Capabilities arrive as decoded entries, `normalizeResolver` and the DNS decision procedure are
  function parameters, and an entry or range that fails to decode is `None`.

## Model

| member | source | states |
|---|---|---|
| `Addresses.ContainsComparesLeadingBits` | internal/domain/domain.go:383-387 | membership in a prefix as an address interval is the library's comparison of leading bits |
| `Addresses.OverlapsIffNotDisjoint` | internal/domain/domain.go:91-95 | the overlap test on masked network addresses fails exactly for blocks whose address intervals are apart |
| `Addresses.OverlapsIffShared` | internal/domain/domain.go:91-95 | the overlap test holds exactly when some address lies in both prefixes |
| `Addresses.KthUsableComplete` | internal/domain/state.go:292-293 | the enumeration of usable addresses covers exactly the addresses of the prefixes other than their network addresses |
| `Addresses.KthUsableInjective` | internal/domain/state.go:292-293 | on disjoint prefixes the enumeration repeats no address |
| `Allocators.Allocator.LookupLive` | internal/domain/domain.go:424-437 | the new state and the answer are those of the cache value: an entry whose deadline is reached is dropped from all three maps and not returned |
| `Allocators.Allocator.LookupKeyLive` | internal/domain/domain.go:446-453 | forward lookup through the live reverse lookup, dropping a stale entry |
| `Allocators.Allocator.RememberUntil` | internal/domain/domain.go:461-477 | a mapping is added only if neither its key nor its address is known, and the cursor moves up |
| `Allocators.Allocator.AdvanceCursor` | internal/domain/state.go:395-397 | the cursor becomes the next address if it was unset or lower |
| `Allocators.Allocator.ResumeAt` | internal/domain/domain.go:380-392 | the loop finds the block where the cursor resumes |
| `Allocators.Allocator.Allocate` | internal/domain/domain.go:366-416 | the loops select the address `SelectAddr` gives for the cursor, and the maps and cursor record it; an exhausted list changes nothing |
| `Allocators.Allocator.Save` | internal/domain/state.go:401-409 | the saved rows list every mapping exactly once, in some order |
| `Allocators.Allocator.Load` | internal/domain/state.go:386-399 | the loop leaves the state obtained by loading the rows one after the other |
| `Enumeration.SelectExact` | internal/domain/domain.go:379-414 | on smooth disjoint prefixes the cursor after k addresses selects the k-th usable address, and nothing after the last |
| `Enumeration.EnumerationExact` | internal/domain/domain.go:379-414 | the cursor enumerates the usable addresses exactly if and only if the prefix list is smooth |
| `Enumeration.SelectAtEarlier` | internal/domain/domain.go:382-408 | leaving a prefix that an earlier one follows in address space goes back to the first usable address after that earlier one, which has a lower number |
| `Enumeration.SelectAtAdjacent` | internal/domain/domain.go:387-407 | leaving a prefix that the next one follows in address space goes to the one after next, which is right only if the skipped one is a /32 |
| `Enumeration.SelectAtTop` | internal/domain/domain.go:396-414 | at the top of the address space the cursor is lost and the first address of the list is given out again |
| `Enumeration.AdjacentBlocksAreSkipped` | internal/domain/domain.go:387-407 | 10.254.0.0/30 and 10.254.0.4/30: exhaustion after three of six addresses |
| `Enumeration.TopOfAddressSpaceWraps` | internal/domain/domain.go:396-414 | 255.255.255.252/30: the fourth name is given the first address again |
| `Walks.Leaves` | internal/domain/domain.go:379-414 | where the cursor goes from a used up prefix, for any disjoint list: to the start, behind the earlier prefix that follows it, or onward |
| `Walks.HandedDistinct` | internal/domain/domain.go:379-414 | if no entered prefix wraps, no address is handed out twice |
| `Walks.Rejoins` | internal/domain/domain.go:379-414 | a cursor thrown back behind an earlier prefix comes to a prefix it had entered before |
| `Walks.WrapHandsOutTwice` | internal/domain/domain.go:379-414 | if some entered prefix wraps, some address is handed out twice |
| `AllocatorRuns.GatewaysHandOut` | internal/domain/domain.go:366-416 | for all pools and every interleaving of lock sections, the k-th distinct name of each gateway holds the k-th address its cursor hands out, or nothing once exhaustion was reported |
| `AllocatorRuns.AnswersFollowCursor` | internal/domain/domain.go:366-416 | for all pools, every section's answer for a name is fixed by the place of its first request |
| `AllocatorRuns.GatewaysEnumerate` | internal/domain/domain.go:366-416 | after every run of interleaved read and write lock sections over smooth disjoint pools, each gateway's k-th distinct name holds its k-th usable address and its cursor is exact, even where gateways share addresses |
| `AllocatorRuns.AllocatorEnumerates` | internal/domain/domain.go:366-416 | if no usable address is shared, the maps are inverse as well |
| `AllocatorRuns.AnswersFollowPlace` | internal/domain/domain.go:366-416 | every section's answer for a name is the address of the place of its first request: a write gives it or fails exactly past the capacity, a read gives it exactly after the first write |
| `AllocatorRuns.NextIsFree` | internal/domain/domain.go:412-414 | the next address of a gateway is held by no gateway |
| `AllocatorRuns.LiveLookupIsPlain` | internal/domain/state.go:66-69 | without a store the live lookup before an allocation changes nothing, in every run on any pools |
| `SampleRuns.SharedAddressCollides` | internal/domain/domain.go:412-414 | two gateways with a usable address in common both give it out in some run of valid names |
| `SampleRuns.InverseIffNothingShared` | internal/domain/domain.go:366-416 | on smooth disjoint pools the maps stay inverse in all runs if and only if no two gateways share a usable address |
| `Reuse.NeverReusedIff` | internal/domain/domain.go:366-416 | on any disjoint prefixes, two names of a gateway never hold one address, in all runs, if and only if no prefix the cursor enters wraps |
| `Reuse.HandsOutIff` | internal/domain/domain.go:379-414 | without wrapping, the addresses handed out are exactly the usable ones of the entered prefixes |
| `Reuse.InverseIffNoCollision` | internal/domain/domain.go:412-414 | for all pools, the maps are inverse in all runs exactly when two names never hold one address |
| `Reuse.InverseIff` | internal/domain/domain.go:366-416 | on any disjoint pools, the maps are inverse in all runs if and only if no entered prefix wraps and no two gateways enter prefixes with a usable address in common |
| `Restarts.LoadBuilds` | internal/domain/state.go:386-398 | loading one-to-one rows in any order yields exactly their mappings and, per gateway, one past its highest address |
| `Restarts.RestartRoundTrip` | internal/domain/state.go:374-422 | after any run on ascending pools, loading the saved rows in any order gives back the same allocator |
| `Restarts.FreshAfterRestart` | internal/domain/state.go:374-422 | no allocation after a restart, however late, gives a new name a saved address |
| `Restarts.DescendingReuses` | internal/domain/state.go:386-398 | on pools that are not ascending some saved run, loaded again, gives the next new name a saved address |
| `Restarts.RestartIffAscending` | internal/domain/state.go:374-422 | on good pools every restart rebuilds the allocator, and every allocation for a new name after every restart is fresh, if and only if the pools are ascending |
| `Restarts.DescendingBlocksReuseAddresses` | internal/domain/state.go:386-398 | 10.254.1.0/30 before 10.254.0.0/30: loading four saved rows and allocating gives the fourth address again |
| `Tables.FirstFit` | internal/domain/state.go:292-324 | the address search stops at the least-numbered usable address that no row holds, and fails exactly when all are held, for every prefix list |
| `Registry.Database.SelectIp` | internal/domain/state.go:333-337 | the key of the unexpired row with this address |
| `Registry.SqlStore.Renew` | internal/domain/state.go:242-258 | unless forced, a renewal within five minutes of the last one does nothing; otherwise time and row are updated |
| `Registry.SqlStore.LookupKey` | internal/domain/state.go:351-372 | table, cache, renewal times and answer are those of the operation on values |
| `Registry.SqlStore.Lookup` | internal/domain/state.go:327-346 | table, cache, renewal times and answer are those of the operation on values |
| `Registry.SqlStore.Allocate` | internal/domain/state.go:262-284 | table, cache, renewal times and answer are those of the operation on values |
| `Registry.SqlStore.AllocateNew` | internal/domain/state.go:285-325 | the prefix loop deletes expired rows and takes the first free address in range order |
| `Registry.SqlStore.TryBlock` | internal/domain/state.go:293-322 | the INSERT and SELECT loop ends for every prefix and inserts at its first free address |
| `RegistryInvariant.CacheHit` | internal/domain/domain.go:424-437 | in a coherent cache a hit is backed by a live row and a miss leaves the address uncached |
| `RegistryInvariant.RenewKeeps` | internal/domain/state.go:242-258 | renewing a live row, debounced or not, leaves it more than lease less five minutes from expiry |
| `RegistryInvariant.OperationCorrect` | internal/domain/state.go:262-372 | every operation keeps the invariant, moves no live row, answers what the table says at that time, and leaves the answered row settled |
| `RegistryInvariant.ResolveCorrect` | internal/domain/state.go:58-65 | lookup followed by allocation answers as the table alone does and keeps the invariant |
| `RegistryInvariant.AllocateTakesFirstFit` | internal/domain/state.go:285-325 | a name without a live row gets the first usable address no live row holds; it fails exactly when live rows hold them all |
| `RegistryRuns.InvariantAt` | internal/domain/state.go:262-372 | the invariant holds before every event of every run |
| `RegistryRuns.CacheRefinesTable` | internal/domain/state.go:260-372 | in every run each answer equals that of a store without a cache |
| `RegistryRuns.RowStands` | internal/domain/state.go:240-291 | an answered row stays with its address through every event until its guaranteed time is over |
| `RegistryRuns.AnswersAgree` | internal/domain/state.go:237-372 | while an answer stands, all replicas give it to whoever asks for its name or address, and name and address determine each other |
| `RegistryRuns.AddressIsStable` | internal/domain/state.go:242-372 | a name used at gaps of at most lease less five minutes keeps one address over any run |
| `RegistryRuns.MovesOnlyAfterExpiry` | internal/domain/state.go:285-322 | in every run an address held by one name and later by another was released in between by an event at or after the table expiry of the first row, and at the reuse every cached copy for anyone else is stale |
| `RegistryRuns.TtlSafeForLongLeases` | internal/dnsudp/server.go:177 | with a lease of at least 15 minutes no address is answered for another name within the record's time to live |
| `RegistryRuns.ShortLeaseViolatesTtl` | internal/domain/state.go:246-249 | every shorter lease has a run of the DNS path, with valid names, accepted ranges and a lookup before each allocation, that does |
| `RegistryRuns.TtlSafeIffLeaseLongEnough` | internal/domain/state.go:240-258 | the time to live is respected in all runs of the DNS path if and only if the lease is at least 15 minutes |
| `StatementRuns.StatementKeeps` | internal/domain/state.go:133-138 | every statement keeps addresses unique and the address of a row that stays |
| `StatementRuns.DecisionReadsRow` | internal/domain/state.go:269-316 | the SELECT that decides an operation returns a row live at the operation's own time |
| `StatementRuns.EveryResultIsDecided` | internal/domain/state.go:262-372 | every result that did not come from a cache was decided by a SELECT of the run |
| `StatementRuns.RowKeepsAddress` | internal/domain/state.go:252-324 | a row's address never changes between its insert and its delete |
| `StatementRuns.Convergence` | internal/domain/state.go:237-325 | under any interleaving and clocks, operations whose rows existed side by side between their deciding SELECTs return equal addresses exactly for equal names |
| `CacheRaces.AlwaysTwoWay` | internal/domain/domain.go:424-477 | under every interleaving of lock sections the two maps of every cache stay inverse |
| `CacheRaces.EntryOrigin` | internal/domain/state.go:262-372 | every cache entry of a run was entered by one operation with its result, and expires one lease after that operation's clock |
| `CacheRaces.StaysBacked` | internal/domain/state.go:252-291 | a backed mapping stays backed exactly until a DELETE at or past its row's expiry or an UPDATE to an earlier one |
| `CacheRaces.UpdateBacks` | internal/domain/state.go:252-257 | an operation's UPDATE backs its entry exactly when the row still has the selected address |
| `CacheRaces.RenewedEntryBackedIff` | internal/domain/state.go:274-280 | an entry found by a SELECT is backed in every state from the UPDATE on iff the row has the address at the UPDATE and no later statement breaks it; a row that lives from SELECT to UPDATE has it |
| `CacheRaces.CreatedEntryBackedIff` | internal/domain/state.go:306-320 | an entry of the inserting half is backed from its SELECT on iff the row read lives as long as the entry and no later statement breaks it |
| `CacheRaces.RememberedEntryBackedIff` | internal/domain/state.go:263-264 | an entry of any operation, also one answered from the cache, is backed from its Remembering section on iff it is backed there and no later statement breaks it |
| `CacheRaces.MildRunsKeepEntriesBacked` | internal/domain/state.go:262-372 | a condition on clocks and leases alone under which an entry stays backed through any interleaving |
| `CacheRaces.StaleRememberSharesAddress` | internal/domain/state.go:273-291 | an interleaving of one lookup and one allocation after which both have returned and cached one address for two names |
| `SerialRuns.InsertLoopFinishes` | internal/domain/state.go:292-324 | statement by statement and alone, the INSERT loop ends with the first free address from its position, or fails when there is none |
| `SerialRuns.AloneActsAtOnce` | internal/domain/state.go:262-372 | an operation whose statements run alone ends in the state and with the answer of the operation in one step |
| `SerialRuns.OperationRunsAreStatementRuns` | internal/domain/state.go:242-372 | every run of whole operations is a run of the statement machine with the same table, caches, renewals and answers |
| `Names.MatchIsLabelMatch` | internal/domain/domain.go:127-139 | for all strings the matcher holds exactly when `**` stands for one or more leading labels and `*` for one |
| `Names.NormalNameFixed` | internal/domain/domain.go:107-126 | valid names are exactly the fixed points of normalisation, and normalising twice is normalising once |
| `Names.NormalNameSpelling` | internal/domain/domain.go:123-126 | a name normalises to n exactly if n is valid and the name is n with some letters in upper case and at most one final dot added |
| `Names.SpellingsNormaliseAlike` | internal/domain/domain.go:123-126 | spellings that differ only in letter case and a final dot normalise alike |
| `Names.CheckName` | internal/domain/domain.go:107-122 | the loops over labels and bytes decide validity |
| `Names.ValidNameOfLabels` | internal/domain/domain.go:107-122 | a name of dot-free labels is valid exactly if it has at least two labels, all valid, and at most 253 bytes |
| `Names.ValidLabelSpelled` | internal/domain/domain.go:112-120 | a label is valid exactly if it has 1 to 63 lower-case letters, digits and dashes and no dash at either end |
| `Names.ValidNameBytes` | internal/domain/domain.go:111-120 | a valid name holds only lower-case letters, digits, dashes and dots |
| `Ports.ParsePort` | internal/domain/domain.go:169-178 | the digit loop returns the decimal value up to 65535 and refuses everything else, without overflow |
| `Ports.ValidPorts` | internal/domain/domain.go:163-184 | a list is accepted exactly if every entry is tcp or udp with a decimal port from 1 to 65535 |
| `Ports.ParseWrapped` | internal/domain/domain.go:147-154 | the digit loop computes the value modulo 2^64, and 0 if there is a non-digit |
| `Ports.AllowedPort` | internal/domain/domain.go:140-161 | the decision of the entry loop, for all lists |
| `Ports.AllowedPortMeaning` | internal/domain/domain.go:140-184 | on validated lists a port is allowed iff the list is empty or has the entry protocol, colon, decimal port |
| `Ports.ValidPortSpelled` | internal/domain/domain.go:163-184 | the valid entries are exactly tcp: or udp: with a decimal number from 1 to 65535 |
| `Ports.UnvalidatedEntryPermitsZero` | internal/domain/domain.go:148-156 | without validation an entry that is not a number permits port 0 |
| `Policy.TakeCandidate` | internal/domain/domain.go:278-288 | a candidate above the winner takes over, one at its level clashes unless equal, one below is ignored |
| `Policy.Consider` | internal/domain/domain.go:278-288 | the loop body fails exactly on a clash and keeps the winner otherwise |
| `Policy.ConsiderGrant` | internal/domain/domain.go:267-289 | the resource loop fails exactly when the candidates so far clash |
| `Policy.GatewayFor` | internal/domain/domain.go:259-297 | success iff some resource matches and no match ties the running maximum with another resolver; the resolver is that of all highest-priority matches and the system flag agrees with it |
| `Policy.GatewayForAuthorizes` | internal/domain/domain.go:259-311 | a gateway is returned exactly for authorized flows whose candidates do not clash |
| `PolicyMeaning.MatchesIffPermitted` | internal/domain/domain.go:127-161 | on validated ports a resource matches a flow exactly if its pattern matches label by label and its port list is empty or names protocol and port |
| `PolicyMeaning.ResolverChosen` | internal/domain/domain.go:256-297 | of a successful result: every matching resource with its own resolver names the result's; without such, every matching grant with one does; without either, the gateway is unchanged; and the system flag holds exactly for a resolver that spells "system" in any case |
| `PolicyMeaning.GatewayIffNoConflict` | internal/domain/domain.go:259-297 | a gateway is returned exactly if some resource matches, no two matching resources name different resolvers, and no two grants do before a resource that names one |
| `Policy.Authorize` | internal/domain/domain.go:299-311 | true exactly if a resource of a grant with these ranges matches the name and permits the port |
| `Policy.RangesForName` | internal/domain/domain.go:315-329 | ranges are returned exactly if some grant covers the name and all that do carry them |
| `PolicyOrder.RangesOrderFree` | internal/domain/domain.go:315-329 | the chosen ranges are the same for every permutation of the grants |
| `PolicyOrder.SuccessfulOrdersAgree` | internal/domain/domain.go:259-297 | two orders of the grants that both succeed select the same gateway |
| `PolicyOrder.EveryOrderSucceedsIff` | internal/domain/domain.go:259-297 | every order of the grants avoids a clash if and only if no grant and no ordered pair of grants clashes |
| `PolicyOrder.OrderDecidesFailure` | internal/domain/domain.go:278-287 | three grants that fail a flow in one order and select a gateway for it in another |
| `Grants.AcceptRanges` | internal/domain/domain.go:85-97 | a range list is accepted exactly if it is a non-empty list of canonical prefixes that share no address, and is kept as it is |
| `Grants.ParseResource` | internal/domain/domain.go:233-247 | a resource is valid exactly if its domain spells a valid pattern and its ports and resolver are valid; then pattern, the same ports and the normalised resolver are kept |
| `Grants.ParseResources` | internal/domain/domain.go:232-248 | valid exactly if all resources are, which are then kept one by one |
| `Grants.ValidPatternSpelled` | internal/domain/domain.go:234-241 | the valid patterns are the valid names, plain or after `*.` or `**.` |
| `Grants.Parse` | internal/domain/domain.go:222-253 | the result is exactly the accepted entries in order, each with its ranges, its resources one by one, their ports, the patterns they spell and the normalised resolvers |
| `Grants.KeptExactly` | internal/domain/domain.go:222-253 | an increasing list of entry indices: grant m is made from entry m of it, and every accepted entry is in it |
| `Grants.ParsedAuthorizeIff` | internal/domain/domain.go:213-311 | parsed grants authorize a flow exactly if some resource of a grant with these ranges matches the name label by label and names the port |
| `Grants.KeptAreValid` | internal/domain/domain.go:225-252 | every parsed grant has non-empty canonical disjoint ranges, resources with valid patterns and ports, and only resolvers that normalisation produced |
| `Grants.ChosenRangesValid` | internal/domain/domain.go:213-329 | the ranges that parsed grants choose for a name are non-empty, canonical and disjoint |
| `RangeKeys.RangeKeyInjective` | internal/domain/domain.go:331-349 | range keys are equal exactly for equal prefix lists |
| `RangeKeys.JoinedKeyInjective` | internal/domain/domain.go:367 | the NUL-joined key determines both parts when the first has no NUL |
| `RangeKeys.RegistryKeyInjective` | internal/domain/domain.go:367 | the joined key of the DNS path determines the prefix list and the name |
| `Wire.EncodeName` | internal/dnsudp/server.go:208-216 | the loop produces the labels, each with its length modulo 256, and a zero byte |
| `Wire.ParseLabelsExact` | internal/dnsudp/server.go:134-148 | the label loop accepts exactly the encodings of labels of 1 to 63 bytes and ends where the encoding ends |
| `Wire.NameRoundTripIff` | internal/dnsudp/server.go:134-216 | an encoded name reads back as its labels if and only if each has 1 to 63 bytes |
| `Wire.ValidNameRoundTrip` | internal/dnsudp/server.go:134-216 | a valid name is encoded, read back and normalised to itself |
| `Wire.ParseQuestion` | internal/dnsudp/server.go:128-153 | the offset loop computes the parsed question and never leaves the request |
| `Wire.ParseQuestionExact` | internal/dnsudp/server.go:128-153 | a request is accepted exactly if it holds one complete uncompressed question, with its name, type and end |
| `Wire.AddressAnswer` | internal/dnsudp/server.go:167-184 | the buffer ends up as the reply with one A record, or without record for an invalid address |
| `Wire.ServerFailure` | internal/dnsudp/server.go:186-190 | the reply without record and with response code 2 |
| `Wire.PtrAnswer` | internal/dnsudp/server.go:192-206 | the buffer ends up as the reply with one PTR record |
| `Messages.AddressResponseDecodes` | internal/dnsudp/server.go:167-184 | the reference decoder reads id, question, RD bit, no error and exactly the address record whose compressed owner is the question's name, iff no authority or additional records are announced |
| `Messages.PtrResponseDecodes` | internal/dnsudp/server.go:192-206 | the same for the PTR record, for every name whose labels fit on the wire |
| `Messages.EmptyResponsesDecode` | internal/dnsudp/server.go:180-190 | NODATA and SERVFAIL decode to no records and the right code iff the request announces no records at all |
| `Server.Respond` | internal/dnsudp/server.go:82-107 | silent without a question or a decision procedure; otherwise forwarded exactly for ordinary names, and answered exactly for failures, PTR lookups and addresses asked with type 1 or 28 |
| `Server.ResponseMeansDecision` | internal/dnsudp/server.go:82-107 | exactly the answered decisions get a response, and it decodes, for PTR names whose labels fit on the wire, to the request's question, SERVFAIL exactly for unavailable names and exactly the records meant, if and only if the record counts it copies from the request fit |
| `Server.EdnsRequestUnreadable` | internal/dnsudp/server.go:167-206 | a request that announces an additional record gets no decodable answer of any kind |
| `ReverseNames.ParseOctet` | internal/dnsudp/server.go:226-236 | a label is accepted exactly if it is all digits of value at most 255, of any length, without leaving 16 bits |
| `ReverseNames.ReverseIPv4` | internal/dnsudp/server.go:219-239 | exactly the names of four such labels under in-addr.arpa are accepted, with the numbers in reverse order |
| `ReverseNames.ReversedExactly` | internal/dnsudp/server.go:219-239 | a name gives an address exactly if it spells the address's four numbers, last one first, under in-addr.arpa, in any letter case and with or without a final dot |
| `ReverseNames.ReverseRoundTrip` | internal/dnsudp/server.go:219-239 | any spelling of the canonical reverse name of an address gives the address back |
| `ReverseNames.CanonicalReverse` | internal/dnsudp/server.go:219-239 | the canonical reverse name, absolute or relative, gives the address back |
| `Services.Service.Resolve` | internal/domain/state.go:58-65 | registry state and answer are those of lookup and then allocation |
| `Services.Service.DnsAnswer` | internal/domain/service.go:231-262 | not a passthrough exactly if the source is unchecked or no gateway, the name spells a valid name, and the grants that cover it agree on ranges; then state and answer are those of the registry for these ranges and this name, and in a correct state the answer is what the table says; a passthrough changes nothing; exactly one counter moves |
| `Services.Service.GatewayForDestination` | internal/domain/service.go:319-331 | the gateway whose ranges alone cover the destination, in any map order |
| `Services.Service.FlowDomain` | internal/domain/service.go:294-317 | a gateway is returned exactly if the name is valid, one gateway covers the destination, a resource of its grants matches name and port, and no resolver conflict is met; exactly one counter moves |
| `Services.Service.FlowTo` | internal/domain/service.go:269-290 | the same for the name the registry maps the destination to, whose lease is renewed either way |
| `EndToEnd.AlwaysInRange` | internal/domain/state.go:292-298 | in every run of the DNS path each row lies in the ranges its gateway key names |
| `EndToEnd.AnswerInChosenRanges` | internal/domain/service.go:249-261 | every answered address is a usable address of the ranges chosen for the name |
| `EndToEnd.RequestInRun` | internal/domain/service.go:255-261 | in every state of every run the service's lookup and allocation answers what the table says at that time and leaves the answered row standing |
| `EndToEnd.EgressSelectsItself` | internal/domain/service.go:319-340 | an egress with exactly those ranges is the one selected for the address |
| `EndToEnd.FlowAllowedIff` | internal/domain/service.go:294-317 | at that egress a flow is allowed iff a grant with its ranges covers it and no resolver clash comes up |
| `EndToEnd.AuthorizedIffGranted` | internal/domain/domain.go:299-329 | for the ranges parsed grants choose, authorization is that some resource matches the name label by label and names the port |
| `EndToEnd.PtrLookupReturnsName` | internal/domain/service.go:264-268 | while an answer stands, the PTR question parses to the address, the registry returns the name, and the response decodes and normalises to it |
| `EndToEnd.AnsweredNameReachesItsEgress` | internal/domain/service.go:229-331 | an answered name's flow reaches its egress and is allowed exactly if some resource of the parsed grants matches the name and names the port and no resolver conflict is met |

## Left out

- JSON and HuJSON decoding, flags, configuration files and `normalizeResolver`: library calls and plumbing around the modelled checks.
- LocalAPI, tsnet, WhoIs, tag names (`ResolveTags`) and node attributes: foreign services and simple filters.
- TCP proxying, sockets, upstream forwarding and the buffer pool: input, output and system calls.
- `Allocator.Lookup`, reading the reverse map without expiry, and constructors: nothing to prove.
- SQL drivers, dialects, schema creation, the NULL expiry of migrated rows, transaction errors, and `SQLStore.Save` and `SQLStore.Load`, which the DNS role does not call.
- Text forms of addresses: `ParseAddr` and the parsing direction of prefixes are taken as inverse to printing; printing itself is modelled for range keys.
- IPv6: grants with IPv6 ranges are refused by the code, so addresses are IPv4 throughout.
- Unicode case mapping: `strings.ToLower` and `EqualFold` also change some non-ASCII letters, which the model keeps.
- Locks: the classes run one call at a time; interleaving is modelled by `AllocatorRuns` (lock sections) and `StatementRuns` (statements and lock sections).
- Atomic 64-bit counters: the counters of `Service` are unbounded.
- StatementRuns.Convergence: says nothing about answers from a cache, which are not always right at that grain; `CacheRaces` says when they are.
- Server.ResponseMeansDecision: does not say what a PTR name with an empty label or one of more than 63 bytes decodes to; the DNS service answers only registered names, which are valid (`ValidNameFits`).
- RegistryRuns.AnswersAgree: does not cover replicas with different leases or clocks that go back, where a renewal may shorten a row's life.
