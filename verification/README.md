# A verified model of MiBee Steward's control plane

MiBee Steward is a network asset centre. It scans address ranges, sends scan and probe commands
to agents that sit inside remote networks, records device changes, and keeps device liveness.
This project models the parts of it whose correctness is not visible in any single function,
and proves statements about every input and every run of them. `dafny verify dfyconfig.toml`
checks the whole project.

## What is modelled

**Scan targets** (`Arith`, `Bytes`, `Address`, `Reserved`, `Enumerate`, `Targets`, `TargetTheorems`,
`TargetMeaning`, `ScanTask`). Addresses are big-endian byte strings with a number view; a network keeps its mask
width, because Go treats a 16-byte address in ::ffff:0:0/96 as its 4-byte form. A spec is the list
of its comma-separated parts, each carrying what the library parsers say about its text. The
odometer, the block enumeration, the reserved-space check, the expansion, the partition against a
network and the separately written counter of scan-task admission are methods proved against
specification functions. The main facts:

- The two-endpoint reserved check is wrong exactly on the IPv4 blocks of prefix 2 to 14 around
  169.254.0.0 (also in IPv4-mapped form) and on fe00::/8, over all blocks of both families.
- Enumeration ends for every block but 0.0.0.0/0 and lists exactly the hosts, except for ::/p with
  p < 80, where it stops at ::ffff:0:0.
- Dropping network and broadcast addresses never weakens the boundary test.
- `TargetMeaning` says what a target text names from its parts alone; validation, expansion and partition compute
  exactly that, and the boundary theorem is stated on it.
- Counter, validator and enumerator agree on every accepted scan task, to the address. The one range whose 32-bit
  count wraps to 0 is accepted only with the reserved check off, and is then refused by the expansion.

**The command channel** (`Tables` and `Store` in `Store.dfy`, `AgentTokens`, `AgentCommands`, `Runs`,
`EnqueueReplies`, `TokenRuns`, `TokenHistory`, `CommandRuns`, `CommandHistory`, `Center`). Three tables,
the SQL on them, and the two services as classes. `Runs` turns every call into a step that also says which store calls fail;
the theorems are about every sequence of token, network and command steps from the empty store.
A step *strands* a stamp when it deletes a token, fails to clear, and the stamp was that token's; an
agent can end up on two networks exactly when some step strands. `Center` joins both halves into the
boundary theorem: a scan is admitted exactly when it stays in the one network its agent is bound to.

**Change recording** (`Recorder`, `Watcher`, and `ChangeFeed`, which joins them over runs), **device
status** (`DeviceStatus`) and four codecs: BER records (`BerTlv`), DHCP options (`DhcpOptions`), SQLite URIs (`Dsn`) and the corpus hash input
(`Corpus`).

Where the code and its own comments disagree the model follows the code:

- internal/cidrutil/cidrutil.go:91-93 says overlap with reserved space is always caught; see `Reserved.LeaksExactly`.
- internal/changedetect/recorder.go:427-431 says the first lost and the first recovered of a window are both
  recorded; they share one key, so only one is; see `Recorder.LivenessPairCollapses`.
- internal/changedetect/recorder.go:361-362 says a lost device is never throttled; it shares a bucket with its recovery
  and is; see `Recorder.SuppressedExactly`.
- internal/db/networks.sql.go:90-95 says an agent id maps to at most one network; that holds exactly while no delete
  fails to clear a stamp of its own; see `TokenRuns.StrandingExactly`.
- bpf/tc_ingress.c:185-186 says a field whose window crosses the packet end is skipped; a vendor option there erases an
  earlier capture; see `DhcpOptions.LastOccurrenceWins`.
- internal/service/agent_command_service.go:34-36 describes a flag that softens the reserved check; for an agent whose
  network has a usable CIDR it changes nothing; see `Center.EscapeHatchIsInert`.

Inputs taken as parameters: the results of `net.ParseCIDR` and `net.ParseIP`, clock readings, store faults, the row a
`LIMIT 1` query picks, and the count of agent-managed devices in a batch.

## Model

| member | source | states |
|---|---|---|
| Bytes.IncIP | internal/cidrutil/cidrutil.go:418-425 | the array ends up as the odometer successor of its old contents |
| Bytes.IncVal | internal/cidrutil/cidrutil.go:418-425 | the successor is +1 modulo 256^n: it goes from all-ones to zero, for any length n |
| Bytes.FillHostBits | internal/cidrutil/cidrutil.go:84-87 | or-ing the complemented mask into each byte in place |
| Bytes.LastVal | internal/cidrutil/cidrutil.go:84-87 | that moves an aligned base to the top of its block, for every prefix and length |
| Address.ContainsIsMasked | internal/cidrutil/cidrutil.go:228-234 | containment as an interval is Go's comparison of the masked address with the network number |
| Reserved.LastAddress | internal/cidrutil/cidrutil.go:79-89 | the top address of the block in canonical form, none for a single host |
| Reserved.CheckReserved | internal/cidrutil/cidrutil.go:94-104 | accepts exactly when no given endpoint is reserved, otherwise names the class of the first one that is |
| Reserved.ClassByOctets | internal/cidrutil/cidrutil.go:55-77 | the class of every address is the one its octets have: all zero, 127, 169.254, 224-239, 255.255.255.255, 240 and up; for IPv6 ::1, fe80::/10, ff |
| Reserved.LeaksV4 | internal/cidrutil/cidrutil.go:55-104 | for IPv4, an accepted block holds a reserved address iff 2 <= prefix <= 14 and it contains 169.254.0.0 |
| Reserved.LeaksV6 | internal/cidrutil/cidrutil.go:55-104 | for IPv6 outside the mapped range, iff the block is fe00::/8 |
| Reserved.LeaksExactly | internal/cidrutil/cidrutil.go:91-104 | the characterisation over every block of either family, mapped blocks included |
| Reserved.NoMapped | internal/cidrutil/cidrutil.go:94-104 | an accepted IPv6 block never reaches into ::ffff:0:0/96 from outside |
| Reserved.RangeLeakIsLong | internal/cidrutil/cidrutil.go:388-403 | a range with ordinary ends and a reserved address between them has at least 65538 addresses |
| Enumerate.Guard | internal/cidrutil/cidrutil.go:318-320 | the loop guard holds at step k exactly while k is short of the end, wrap-around included |
| Enumerate.WholeV4NeverExits | internal/cidrutil/cidrutil.go:318-320 | for 0.0.0.0/0 the guard holds for every address, so the loop has no exit |
| Enumerate.EnumerateCidr | internal/cidrutil/cidrutil.go:312-328 | terminates for every other block and returns its host list |
| Enumerate.EnumerateBlock | internal/cidrutil/cidrutil.go:317-320 | the odometer loop itself: all addresses from base to the end, in order |
| Enumerate.HostsExactly | internal/cidrutil/cidrutil.go:312-342 | the list holds exactly the hosts by Go's own containment test, iff the block is not ::/p with p < 80 |
| Enumerate.HostsCountAndOrder | internal/cidrutil/cidrutil.go:312-342 | 2^(32-p)-2 hosts up to /30, 2 for /31, 1 for a single host, for IPv6 the whole block or its part below ::ffff:0:0; strictly ascending |
| Enumerate.HostsOrdinary | internal/cidrutil/cidrutil.go:274-281 | hosts of an accepted, non-leaking block are all ordinary |
| Enumerate.EnumerateRange | internal/cidrutil/cidrutil.go:388-416 | refuses more than 65536 addresses, otherwise every address from start to end |
| Enumerate.RangeOrdinary | internal/cidrutil/cidrutil.go:291-301 | membership is exactly start <= ip <= end, and with ordinary ends no member is reserved |
| Enumerate.AllInExactly | internal/cidrutil/cidrutil.go:220-236 | all listed hosts are in a network iff the whole block is, trimmed or not |
| Enumerate.MixedMeansInside | internal/cidrutil/cidrutil.go:220-236 | hosts on both sides only when the network lies strictly inside the block |
| Enumerate.InsideIsMixed | internal/cidrutil/cidrutil.go:220-236 | for such a network some host is out, and some host is in unless it is one trimmed address |
| Targets.RangeBoundsExactly | internal/cidrutil/cidrutil.go:348-385 | the bounds are the two endpoints the text names, in order, for exactly the texts that name two, and each failure has its error |
| Targets.ValidateTargetsFor | internal/cidrutil/cidrutil.go:121-162 | the blank-spec error or the first failing part's error, left to right |
| Targets.CheckPartBody | internal/cidrutil/cidrutil.go:131-159 | one part of the validation, with the block top computed from bytes |
| Targets.ExpandSingle | internal/cidrutil/cidrutil.go:274-304 | the addresses or the error of one part, which `TargetMeaning.PartNames` says are the ones the part names |
| Targets.ExpandTargetsFor | internal/cidrutil/cidrutil.go:248-272 | on every spec whose expansion returns: the concatenation over the parts, the first error, or no valid targets |
| Targets.PartitionTargets | internal/cidrutil/cidrutil.go:220-236 | the two sides of the expansion, always expanded with the reserved check on |
| Targets.ParsedNetworks | internal/cidrutil/cidrutil.go:168-192 | what the network of a column matches: a CIDR its block, a bare address itself, its ::ffff:a.b.c.d form not even that; the two errors exactly |
| TargetTheorems.SwappedRange | internal/cidrutil/cidrutil.go:379-384 | swapping two full endpoints gives the same range and the same expansion |
| TargetTheorems.OctetReplacesLastByte | internal/cidrutil/cidrutil.go:364-374 | the short form means the address with the last byte replaced |
| TargetTheorems.KeepFilter | internal/cidrutil/cidrutil.go:228-234 | each side of a partition is exactly the addresses on that side |
| TargetTheorems.KeepConserves | internal/cidrutil/cidrutil.go:228-234 | the two sides together are the expansion, with multiplicity |
| TargetTheorems.BoundaryExact | internal/cidrutil/cidrutil.go:220-236 | for a CIDR target nothing is outside iff the whole block is in the network |
| TargetTheorems.MixedPartition | internal/cidrutil/cidrutil.go:220-236 | both sides populated implies the network is strictly inside the target |
| TargetTheorems.ExpandSpecMember | internal/cidrutil/cidrutil.go:253-271 | an expansion holds exactly the addresses of its parts |
| TargetTheorems.ExpandImpliesValid | internal/cidrutil/cidrutil.go:121-162 | whatever expands also validates |
| TargetTheorems.ExpandExactly | internal/cidrutil/cidrutil.go:121-304 | over every spec, it expands iff it validates, has a non-blank part and no range over 65536 addresses |
| TargetTheorems.ReservedExactlyByLeak | internal/cidrutil/cidrutil.go:248-304 | with the check on, a reserved address is listed iff some CIDR part is a leaking block |
| TargetMeaning.PartNames | internal/cidrutil/cidrutil.go:274-304 | a part expands to exactly the addresses it names: itself, the hosts of the block, first to last of the range either way round; ::/p with p < 80 is the one block listed in part |
| TargetMeaning.PartRises | internal/cidrutil/cidrutil.go:274-304 | each of them once, in ascending order |
| TargetMeaning.CheckPartExactly | internal/cidrutil/cidrutil.go:94-159 | a part validates iff it is blank or parses and, unless the check is off, has ordinary ends; otherwise which error |
| TargetMeaning.FirstErrorIsFirst | internal/cidrutil/cidrutil.go:126-160 | the reported error is that of the first failing part |
| TargetMeaning.ValidateExactly | internal/cidrutil/cidrutil.go:121-162 | over every spec, it validates iff it is not blank and every part does |
| TargetMeaning.ExpandOne | internal/cidrutil/cidrutil.go:253-271 | a list of one part expands as that part |
| TargetMeaning.ExpandJoins | internal/cidrutil/cidrutil.go:253-271 | the expansion of two lists joined is the two expansions joined, the left error first |
| TargetMeaning.ExpandErrorIsFirst | internal/cidrutil/cidrutil.go:253-271 | a failing expansion reports the first part that fails |
| TargetMeaning.SpecNames | internal/cidrutil/cidrutil.go:248-304 | with the check on, a spec expands to exactly the addresses its parts name |
| TargetMeaning.NothingToExpand | internal/cidrutil/cidrutil.go:248-271 | which specs have nothing to expand, and which of the two errors they get |
| TargetMeaning.PartitionExactly | internal/cidrutil/cidrutil.go:220-236 | nothing without a network, the expansion's error, or the named addresses by side |
| TargetMeaning.KeepInOrder | internal/cidrutil/cidrutil.go:228-234 | each side keeps the order of the expansion |
| ScanTask.CountTargetIPs | internal/domain/scanner.go:398-448 | the running total with both early returns, which `ScanTask.CountFromExactly` spells out |
| ScanTask.CountExactly | internal/domain/scanner.go:409-493 | what one part counts: 1, the listed addresses plus 2 if the block is trimmed, first to last of a forward range, 0 for the full range, or an error |
| ScanTask.CountFromExactly | internal/domain/scanner.go:398-448 | over every spec: past the limit iff the sum passes 4096 before any uncountable part, an error iff such a part comes first, else the sum |
| ScanTask.ValidateScanTask | internal/domain/scanner.go:294-316 | accepts exactly the specs that are non-blank, counted within 4096 and valid, and gives each other spec the rejection of its first failing check |
| ScanTask.CountedParts | internal/domain/scanner.go:398-448 | a total within the limit means no early return: every part was counted and is within the limit |
| ScanTask.PartAgrees | internal/domain/scanner.go:398-493 | per part, the count is the number of listed addresses plus 2 if trimmed, and the one disagreement is the full range |
| ScanTask.AcceptedTaskExpands | internal/domain/scanner.go:294-316 | an accepted spec expands iff it has a non-blank part and no full range; then to exactly the counted number less 2 per trimmed block, at most 4096 |
| ScanTask.AcceptedTaskIsOrdinary | internal/domain/scanner.go:294-316 | with the check on it expands iff it has a non-blank part, to ordinary addresses only |
| ScanTask.FullRangeSlipsThrough | internal/domain/scanner.go:487-492 | 0.0.0.0-255.255.255.255 counts as 0 with the check off and is refused by the expansion |
| ScanTask.CommasOnly | internal/domain/scanner.go:401-405 | a spec of commas is accepted and has no expansion |
| Tables.SweepKeepsOrder | internal/db/agent_commands.sql.go:101-104 | the sweep leaves an in-order subsequence of the rows |
| Tables.SweepKeepsCount | internal/db/agent_commands.sql.go:101-104 | no pending row of that agent and kind is left, every other row as often as before |
| Store.Store.AckAgentCommand | internal/db/agent_commands.sql.go:12-21 | row by row: acknowledged iff its id matches and it was pending, otherwise as before |
| Store.Store.CompleteAgentCommand | internal/db/agent_commands.sql.go:23-38 | row by row: status and result set iff its id matches, otherwise as before |
| Store.Store.CreateAgentCommand | internal/db/agent_commands.sql.go:51-87 | appends a pending row under a fresh id |
| Store.Store.GetNetworkByAgentID | internal/db/networks.sql.go:83-110 | some network stamped with the agent, none iff there is none |
| Store.Store.SetNetworkAgentID | internal/db/networks.sql.go:209-229 | overwrites one stamp and nothing else |
| Store.Store.CreateAgentToken | internal/db/agent_tokens.sql.go:12-53 | inserts under a fresh id unless agent or hash is taken |
| Store.Store.RevokeAgentToken | internal/db/agent_tokens.sql.go:152-162 | touches the row only while it is not revoked, and counts it |
| Store.Store.DeleteAgentToken | internal/db/agent_tokens.sql.go:55-65 | removes the row and counts it |
| AgentTokens.AgentTokenService.Create | internal/service/agent_token_service.go:54-96 | the whole new store, the error of each guard, the stamp if its write holds |
| AgentTokens.AgentTokenService.Revoke | internal/service/agent_token_service.go:101-115 | the whole new store; not found for a missing or already revoked token |
| AgentTokens.AgentTokenService.Delete | internal/service/agent_token_service.go:119-133 | the whole new store; not found for a missing token |
| AgentTokens.AgentTokenService.ClearNetworkAgentID | internal/service/agent_token_service.go:139-155 | empties the bound network's stamp only when it is this token's agent |
| TokenRuns.KeysStep | internal/db/agent_tokens.sql.go:12-16 | UNIQUE(agent_id) and fresh ids are kept by every step |
| TokenRuns.BackedStep | internal/service/agent_token_service.go:54-155 | a step leaves every stamp with a token of that agent on that network (or a live one) iff it is not a removal whose clear fails on its own stamp |
| TokenRuns.StampsAreUnambiguous | internal/db/networks.sql.go:90-95 | over every run that strands no stamp, stamps are backed and an agent stamps at most one network |
| TokenRuns.StampsAreBacked | internal/service/agent_token_service.go:98-133 | at every moment of a run every stamp has its token (or its live token), iff no step strands a stamp |
| TokenRuns.BackedContinues | internal/service/agent_token_service.go:98-155 | from a backed state every continuation that strands nothing stays backed |
| TokenRuns.UnbackedBecomesAmbiguous | internal/service/agent_token_service.go:54-155 | from any other state a continuation without a fault puts an agent on two networks |
| TokenRuns.AmbiguityExactly | internal/db/networks.sql.go:90-95 | all continuations that strand nothing keep one network per agent iff every stamp has its token now |
| TokenRuns.StrandingExactly | internal/db/networks.sql.go:90-95 | one network per agent, at every moment of a run and in every such continuation, iff no step of the run strands a stamp |
| TokenRuns.RemovalSparesOthers | internal/service/agent_token_service.go:135-155 | removing a token clears no other agent's stamp |
| TokenRuns.FailedClearIsAmbiguous | internal/service/agent_token_service.go:150-154 | wherever a delete strands a stamp, the run can go on without a fault to two networks for one agent |
| TokenRuns.StrandingIsReachable | internal/service/agent_token_service.go:119-155 | three calls from the empty store strand a stamp, and the run goes on without a fault to two networks for one agent |
| TokenRuns.StampIsNewestToken | internal/service/agent_token_service.go:49-155 | over every run without stamp faults, a stamp is the agent of the newest token created for the network while that token is live, else empty |
| TokenRuns.LiveTokenIsStamped | internal/service/agent_token_service.go:49-155 | a live token's agent is on its network iff no newer token was created for it |
| TokenHistory.CreateExactly | internal/service/agent_token_service.go:54-96 | a token is stored iff agent and network are given, the network exists and neither agent nor hash is in use, whoever stamps the network; with a failed stamp write no network changes |
| TokenHistory.CreateTakesOver | internal/service/agent_token_service.go:76-83 | the new token's agent replaces the stamp of its network and nothing else of any network changes |
| TokenHistory.TokenWasMinted | internal/service/agent_token_service.go:54-96 | over every run, each token was created by a step, with its agent, hash and network |
| TokenHistory.TokenFate | internal/service/agent_token_service.go:101-133 | over every run, a created token is there iff it was not deleted since, and revoked iff it was revoked since |
| TokenHistory.HashesAreUnique | internal/db/agent_tokens.sql.go:12-16 | over every run, no two tokens share a hash |
| TokenHistory.NetworkIsLastWritten | internal/db/networks.sql.go:209-229 | over every run, a network exists and has the CIDR exactly as it was added or last edited; no token step touches it |
| AgentCommands.AgentCommandService.Enqueue | internal/service/agent_command_service.go:95-155 | the whole new store and the reply, with the network the check used |
| AgentCommands.AgentCommandService.ValidateScanTargets | internal/service/agent_command_service.go:179-233 | accepts by the reserved check and then by the partition against the found network |
| EnqueueReplies.UnnamedIsScan | internal/service/agent_command_service.go:99-101 | an empty command is answered and stored exactly as a scan |
| EnqueueReplies.RefusedExactly | internal/service/agent_command_service.go:96-115 | which requests are refused, as what, with nothing stored: no agent, not on the list, ops with the switch off, a scan outside its boundary |
| EnqueueReplies.CoalescedScan | internal/service/agent_command_service.go:139-148 | a scan with an identical pending one is answered with that row and changes nothing |
| EnqueueReplies.AdmittedIsStored | internal/service/agent_command_service.go:124-155 | any other admitted command is answered with the new last row, next id, its agent, kind and payload; only a failed insert is an error |
| EnqueueReplies.OpenWithoutCidr | internal/service/agent_command_service.go:193-216 | without a network or a CIDR targets are accepted as far as they validate; an unusable CIDR refuses them |
| AgentCommands.AgentCommandService.Ack | internal/service/agent_command_service.go:157-160 | the acknowledged table |
| AgentCommands.AgentCommandService.Complete | internal/service/agent_command_service.go:162-173 | the completed table; anything but failed is stored as done |
| Runs.StepIsRowStep | internal/service/agent_command_service.go:116-173 | every step either queues by the coalescing rules or only settles rows |
| Runs.EnqueueKeepsOthers | internal/service/agent_command_service.go:95-155 | commands never touch tokens or networks |
| CommandRuns.QueuePlans | internal/service/agent_command_service.go:129-138 | an admitted probe replaces the pending plans, or adds to them when the sweep failed |
| CommandRuns.QueueScans | internal/service/agent_command_service.go:139-148 | an admitted scan adds its payload exactly once, unless the lookup finds it pending or the insert fails |
| CommandRuns.QueueOps | internal/service/agent_command_service.go:150-155 | an admitted ops command adds exactly one pending row, unless the insert fails |
| CommandRuns.PendingPlansAreRecent | internal/service/agent_command_service.go:118-138 | over every run, pending probes are in order some of the plans since the last good sweep, at most 1 + failed sweeps |
| CommandRuns.SweptPlanIsAlone | internal/service/agent_command_service.go:124-138 | right after a good sweep exactly the new plan is pending, or none if its insert failed |
| CommandRuns.PendingProbeIsNewest | internal/service/agent_command_service.go:124-138 | with no failed sweep outstanding a pending probe is the newest stored plan |
| CommandRuns.PendingScansAreDistinct | internal/service/agent_command_service.go:126-148 | over every run, no scan payload is pending more than once plus its failed lookups |
| CommandRuns.NoDuplicateScans | internal/service/agent_command_service.go:126-148 | with all lookups answered, never twice |
| CommandRuns.QueueIsBounded | internal/service/agent_command_service.go:118-148 | over every run, the backlog is at most 1 + distinct scans + ops + failed coalescing queries |
| CommandRuns.AcceptedScanIsPending | internal/service/agent_command_service.go:139-154 | an accepted scan is pending afterwards with exactly that payload |
| CommandHistory.CommandsOnlyAdvance | internal/db/agent_commands.sql.go:12-38 | between any two moments a row keeps its identity, its rank never drops, only a pending probe can be gone, no id returns |
| CommandHistory.PollIsOldestFirst | internal/db/agent_commands.sql.go:199-204 | a poll is in id order, and what it leaves out is newer than all it returns |
| CommandHistory.LookupIsNewest | internal/db/agent_commands.sql.go:122-127 | the duplicate lookup returns the newest identical pending row, none iff there is none |
| CommandHistory.OutcomeOfAckAndComplete | internal/service/agent_command_service.go:157-173 | which rows the two calls change, and to what |
| CommandHistory.EveryRowWasAdmitted | internal/service/agent_command_service.go:95-155 | every stored row was admitted by some step of the run with its payload |
| CommandHistory.OpsNeedTheSwitch | internal/service/agent_command_service.go:105-107 | with the centre switch off no restart, config reload or log command is ever stored |
| Center.NothingOutsideIsConfined | internal/service/agent_command_service.go:217-232 | an empty outside list confines every address a part names and every whole CIDR part |
| Center.BoundaryDecides | internal/service/agent_command_service.go:179-233 | with a usable CIDR targets are accepted iff they are missing or confined to the network, whatever the flag |
| Center.AcceptedScanStaysInNetwork | internal/service/agent_command_service.go:95-233 | after every run that strands no stamp, an accepted scan of a bound agent is stored pending and lies in that one network |
| Center.ScanAdmittedExactly | internal/service/agent_command_service.go:95-233 | after every such run, a bound agent's scan is admitted iff it has no targets or is confined to that network |
| Center.StrayScanIsRefused | internal/service/agent_command_service.go:217-232 | one named address outside refuses the scan and stores nothing |
| Center.EscapeHatchIsInert | internal/service/agent_command_service.go:187-220 | with a usable CIDR the reserved flag does not change what is accepted |
| Center.EveryStoredScanWasConfined | internal/service/agent_command_service.go:95-233 | every stored scan lay in its agent's network when it was admitted |
| Center.StoredScansAvoidReserved | internal/service/agent_command_service.go:187-192 | with the check on, a stored scan reaches reserved space only through a leaking block |
| Recorder.DBRecorder.Record | internal/changedetect/recorder.go:393-421 | log, cache and subscribers after one call: the row reaches all of them or none |
| Recorder.DBRecorder.IsDue | internal/changedetect/recorder.go:433-450 | the cooldown decision |
| Recorder.CacheIsLastRow | internal/changedetect/recorder.go:466-479 | over every run the cache holds the time of the last logged row of each bucket |
| Recorder.LogIsOrdered | internal/changedetect/recorder.go:402-412 | on a clock that does not go back the log is in time order |
| Recorder.LastIsNewest | internal/changedetect/recorder.go:433-450 | in such a log the last row of a bucket is its newest |
| Recorder.SuppressedExactly | internal/changedetect/recorder.go:423-450 | an event is suppressed iff the log holds a row of its bucket less than a cooldown old |
| Recorder.RowsAreSpaced | internal/changedetect/recorder.go:355-362 | two rows of one bucket are at least a cooldown apart |
| Recorder.WindowIsBounded | internal/changedetect/recorder.go:355-362 | a window of length W holds at most W / cooldown + 1 of them |
| Recorder.LivenessPairCollapses | internal/changedetect/recorder.go:427-464 | after a logged loss the recovery is recorded iff the cooldown has passed |
| Recorder.LogReportsCalls | internal/changedetect/recorder.go:393-421 | over every run, the log is row for row, in order, the change type, data, device and time of the calls that were due and held |
| Recorder.SuppressedByType | internal/changedetect/recorder.go:423-464 | suppressed iff there is a cooldown and a younger row of the same device that is a change for a change, or a loss or recovery for a loss or recovery |
| Watcher.Watcher.Subscribe | internal/changedetect/recorder.go:530-536 | a new open, empty channel among the subscribers |
| Watcher.Watcher.Unsubscribe | internal/changedetect/recorder.go:546-556 | the channel is removed and closed once, an unknown one changes nothing |
| Watcher.Watcher.Push | internal/changedetect/recorder.go:572-584 | one non-blocking offer to each subscriber, in any order, never to a closed channel |
| Watcher.Watcher.TrySend | internal/changedetect/recorder.go:576-582 | dropped only against a full buffer |
| Watcher.Watcher.Receive | internal/changedetect/recorder.go:527-531 | the oldest buffered row, also from a closed channel |
| Watcher.FanOutConserves | internal/changedetect/recorder.go:513-584 | over every run, received + buffered is an in-order subsequence of the offers, offers = received + buffered + dropped, buffers <= 64 |
| Watcher.LosslessExactly | internal/changedetect/recorder.go:571-584 | nothing dropped iff the consumer gets the offers verbatim |
| Watcher.DroppedExactlyWhenFull | internal/changedetect/recorder.go:572-584 | a push is lost on a channel iff 64 rows wait in it |
| Watcher.SubscribeOpens | internal/changedetect/recorder.go:530-536 | after any run, subscribing opens a new empty channel, touches no other, and the next push reaches it |
| Watcher.UnsubscribeCloses | internal/changedetect/recorder.go:546-556 | after any run, leaving ends the subscription and closes the channel with what it holds, and touches no other |
| Watcher.NothingAfterLeaving | internal/changedetect/recorder.go:546-584 | whatever follows, a channel is offered nothing after its consumer left |
| ChangeFeed.OffersAreLogged | internal/changedetect/recorder.go:393-421 | over every run, the offers to a channel are the log rows since it subscribed, up to its leaving |
| ChangeFeed.SubscriberSeesTheLog | internal/changedetect/recorder.go:393-584 | over every run, received + buffered is an in-order subsequence of the log rows since subscribing, and all of them iff none was dropped |
| DeviceStatus.DeviceStore.UpdateDeviceStatus | internal/db/devices.sql.go:909-919 | the single-row update as the new table |
| DeviceStatus.DeviceStore.UpdateDeviceStatuses | internal/service/batch.go:99-151 | the error of the first failing guard with nothing changed; on success the fold of single updates, and the number of distinct known devices |
| DeviceStatus.BulkIsFold | internal/service/batch.go:118-140 | the set-based update equals the single update folded over the list, repeats included |
| DeviceStatus.OrderAndRepeatsDoNotMatter | internal/service/batch.go:118-140 | lists with the same ids give the same table |
| DeviceStatus.OfflineSinceIsLastFlip | internal/db/devices.sql.go:909-919 | over every run, offline_since is the time of the latest flip to offline, or nothing if an Online write came after it; an offline device always has its flip |
| BerTlv.TlvEncode | cmd/loadgen/main.go:417-430 | tag, definite length in the fewest octets, value |
| BerTlv.TlvDecode | cmd/loadgen/main.go:390-412 | the record at the front of the input, or none |
| BerTlv.RoundTrip | cmd/loadgen/main.go:390-430 | decoding an encoding with any suffix gives tag, value and exact bytes iff the value is below 2^32 bytes |
| BerTlv.Reencode | cmd/loadgen/main.go:390-430 | a decoded record is a prefix, and re-encoding it decodes to the same tag and value in no more bytes |
| BerTlv.DecodeExactly | cmd/loadgen/main.go:390-412 | a record is found iff a tag, one to four octets or one below 128 that spell the length, minimal or not, and the value are at the front; then it is that record |
| DhcpOptions.ParseDhcp | bpf/tc_ingress.c:191-231 | the caller's buffers and counts after the walk, and bytes beyond the windows untouched |
| DhcpOptions.FillVendor | bpf/tc_ingress.c:208-217 | the first 32 bytes become the option's window, zero from its length on |
| DhcpOptions.WalkIsPrefixReading | bpf/tc_ingress.c:197-229 | on every packet the walk is the unbounded reading cut after that many entries |
| DhcpOptions.ShortListIsReadWhole | bpf/tc_ingress.c:197-229 | a list of at most 48 entries is read completely |
| DhcpOptions.LastOccurrenceWins | bpf/tc_ingress.c:204-227 | each field is the last option of its kind, vendor bytes zero from min(length, 32) on, and all zero if its window leaves the packet |
| DhcpOptions.WalkFields | bpf/tc_ingress.c:191-231 | each field is decided by the last entry of its kind among the first 48 |
| DhcpOptions.WalkLeavesRest | bpf/tc_ingress.c:191-231 | on every packet, a field with no entry of its kind among them is untouched |
| DhcpOptions.CookieDecides | bpf/tc_ingress.c:192-195 | a packet is a DHCP message iff the four cookie octets follow the 236 of the header |
| DhcpOptions.MessageReadsBack | bpf/tc_ingress.c:191-229 | header, cookie, any written option list and end mark read back as that list |
| DhcpOptions.MessageFields | bpf/tc_ingress.c:191-231 | of a written message with at most 48 items: type, vendor bytes and request list are the data of the last options 53, 60 and 55 |
| Dsn.EscapeExactly | internal/dbopen/dbopen.go:114-119 | three characters are escaped, each to its code, and every other one is kept |
| Dsn.EscapeJoins | internal/dbopen/dbopen.go:114-119 | escaping goes character by character |
| Dsn.EscapedIsPlain | internal/dbopen/dbopen.go:114-119 | no '?' or '#' of the path is left as structure |
| Dsn.UnescapeEscape | internal/dbopen/dbopen.go:114-119 | percent-decoding gives the path back |
| Dsn.ReadRender | internal/dbopen/dbopen.go:96-109 | reading a parameter gives the pragma back |
| Dsn.BuildDSN | internal/dbopen/dbopen.go:87-112 | the URI with one parameter per pragma, or the first guard's error |
| Dsn.QueryMark | internal/dbopen/dbopen.go:60-63 | a URI has a '?' iff it has parameters |
| Dsn.DsnInjective | internal/dbopen/dbopen.go:87-112 | equal strings come only from equal paths and equal pragma lists |
| Dsn.TxLockIsOneMoreParameter | internal/dbopen/dbopen.go:48-66 | the separator chosen always makes the lock one more parameter of the same URI |
| Dsn.TxLockInjective | internal/dbopen/dbopen.go:48-66 | the string determines path, pragmas and lock |
| Dsn.PragmaExactly | internal/dbopen/dbopen.go:96-109 | a pragma is accepted iff it is a non-empty name, = and a non-empty value free of structure, and becomes name(value) |
| Dsn.AcceptedExactly | internal/dbopen/dbopen.go:48-112 | a string is built iff the path is non-empty, the lock mode free of structure and every pragma accepted; which error comes first |
| Dsn.UriSpeltOut | internal/dbopen/dbopen.go:48-93 | the string starts with the file scheme and the escaped path and ends with the lock |
| Corpus.HashInput | internal/fpsync/fpsync.go:74-86 | feeds the pairs of the names in ascending order, whatever order the map gave |
| Corpus.LessAtFirstDifference | internal/fpsync/fpsync.go:79 | names are in byte order: the smaller byte at the first difference, a prefix before what it begins |
| Corpus.InputIsDetermined | internal/fpsync/fpsync.go:70-73 | the bytes depend on the corpus alone |
| Corpus.ReadFeed | internal/fpsync/fpsync.go:81-86 | reading the bytes gives every name with its own content |
| Corpus.InputInjective | internal/fpsync/fpsync.go:70-88 | NUL-free corpora with equal bytes are equal |
| Corpus.NulCollides | internal/fpsync/fpsync.go:81-86 | with NUL in a content, {a: x NUL b NUL y} and {a: x, b: y} collide for all a < b |
| Corpus.DeterminedExactly | internal/fpsync/fpsync.go:70-88 | over every map Hash takes, no other corpus has the same bytes iff there is at most one file and no NUL byte |
| Corpus.NamedDeterminedExactly | internal/fpsync/fpsync.go:70-88 | among corpora with NUL-free names, no other has the same bytes iff there is at most one file and its content does not hold NUL, a later NUL-free name, NUL |

## Left out

- Text parsing by `net.ParseCIDR`, `net.ParseIP`, `strconv.Atoi` and `strings.Split`: specs start from parsed parts; printing an address is taken to be injective on canonical addresses.
- Targets.ExpandTargetsFor: requires that no 0.0.0.0/0 is reached with the reserved check off, because the source does not return there (`Enumerate.WholeV4NeverExits`).
- Bytes.FillHostBits: `|` with a mask byte is written as arithmetic on the byte, not as a bit-vector operation.
- JSON of payloads and change rows, SHA-256, and the driver behind the URI: payloads are values, the hash is its input bytes, the URI is a string.
- Concurrent interleavings inside one Record or one Enqueue: each call is one step, as the source takes separate locks or statements within it.
- DhcpOptions.ParseDhcp: packet offsets do not wrap at 32 bits, and a failed window load fills the window with zeros.
- The TLS and mDNS parsers of the packet filter, and the ring buffer: no property beyond their bodies.
- `snmpRespond`, which appends onto sub-slices of its request buffer: only the record codec is modelled.
- Name, cron, timeout and pipeline checks of a scan task: independent of the targets.
- The Diff family, lost detection, lease sweeping, heartbeat, probing, archiving, CRUD services, configuration and user interface.
