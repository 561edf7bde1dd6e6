# f5-utilities, modelled in Dafny

This project models the two command-line tools of f5-utilities. Both drive F5 BIG-IP load balancers through the
management REST endpoint.

**The virtual-server controller** (`Virt_Enable_Disable/virt_enable_disable.py`) reads a list of clusters. Each
cluster has devices (`devs`), virtual servers (`virts`) and a device group (`dgrp`). For each cluster the controller:

1. connects to the first device that answers, aborting on HTTP 401 Unauthorized (section 15.5.2 of RFC 9110);
2. if the cluster has more than one device, reads its sync status, and refuses to change anything unless it is
   "green";
3. reports the configured state of each virtual server;
4. enables or disables each of them;
5. reports them again;
6. runs "config-sync to-group" and polls the status with a growing back-off (at most 12 sleeps).

The first cluster that exits or raises ends the run.

The model replaces every call to the endpoint by the answer the endpoint gives. The answers are:

- one connection outcome per candidate device;
- the status read by the gate;
- a function from poll number to status for the sync loop;
- the configuration of each virtual server before and after the change.

What the controller does to the endpoint becomes a trace of `Action`s: attempts, status reads, reports, updates,
sync commands and sleeps. Sleeps are counted in half-seconds. Each loop of the source is a Dafny method proved equal
to a specification function, and the lemmas state the controller's guarantees on those functions. The modules are
`Fleet`, `FleetConnect`, `FleetSync`, `FleetVirtuals` and `FleetRun`.

**The where-used report** (`f5_where_used.py`) discovers the nodes, the pools with their members, and the virtual
servers of one device. It records in an `F5_Item` per node the pools that use it, and in an `F5_Item` per pool the
virtual servers that use it. It then lists the unused items and the usage of the used ones.

- `F5_Item` is the class `UsageItem.Item`, whose usage list is updated in place.
- The two dictionaries are `map<string, Item>`, with the insertion order of their keys kept alongside.
- The three collections the device returns are the inputs.

The discovery loops are proved to build exactly the usage described by the functions `NodeUsage` and `PoolUsage`. A
lookup of an unknown node or pool (Python's `KeyError`) ends the run as a `Fault`. The analysis loops are proved to
produce exactly `Expected`, and the lemmas characterise that report (module `WhereUsed`).

Behaviour of the code worth noting:

- **Single device.** A `devs` entry given as a plain string gets one unguarded attempt. Its exception escapes to the
  top level as `Raise(ConnectFault(...))`.
- **len() of a plain string.** The cluster test is `len(devs) > 1`. For a plain string, len() counts characters, so a
  host name of two or more characters is gated like a cluster (`PlainHostGatedAsCluster`).
- **Exit code on 401.** The authentication abort exits with code 1, the same code as "no device reachable".
- **Usage is a list.** A node's usage has one entry per member that belongs to it, so the same pool can appear twice
  and order is kept.
- **Whole-run abort.** A cluster that is not synchronised ends the whole run, not just that cluster.

## Model

| member | source | states |
|---|---|---|
| Fleet.ConfiguredState | Virt_Enable_Disable/virt_enable_disable.py:50-55 | a virtual server is Enabled iff "enabled" is truthy, Disabled iff only "disabled" is, UNKNOWN iff neither; "enabled" wins when both are set |
| FleetConnect.ResolveConnected | Virt_Enable_Disable/virt_enable_disable.py:16-39 | a list of devices connects to device i iff its attempt succeeds and every earlier attempt failed with a non-401 HTTP error, a connection error or another exception |
| FleetConnect.ResolveAuthFailed | Virt_Enable_Disable/virt_enable_disable.py:20-28 | the run aborts on device i iff it answered 401 and every earlier device failed recoverably |
| FleetConnect.ResolveNoneReachable | Virt_Enable_Disable/virt_enable_disable.py:16-42 | the "unable to connect" exit happens iff every device failed recoverably; with a list no exception escapes |
| FleetConnect.Connect | Virt_Enable_Disable/virt_enable_disable.py:11-42 | the loop over the devices ends as the resolver specification says and has attempted exactly the devices up to the one it stopped at; a plain string gets one attempt |
| FleetVirtuals.PrintStates | Virt_Enable_Disable/virt_enable_disable.py:45-61 | one report per listed virtual server, in list order, with its classified configured state |
| FleetVirtuals.EnableVirts | Virt_Enable_Disable/virt_enable_disable.py:82-87 | every listed virtual server is updated with enabled, once each, in list order, and nothing else |
| FleetVirtuals.DisableVirts | Virt_Enable_Disable/virt_enable_disable.py:90-95 | every listed virtual server is updated with disabled, once each, in list order, and nothing else |
| FleetSync.Waits | Virt_Enable_Disable/virt_enable_disable.py:68-71 | the counter stops between its start and 12 |
| FleetSync.WaitsReads | Virt_Enable_Disable/virt_enable_disable.py:69-71 | every read before the loop stops is not green, and a stop before 12 is on a green read |
| FleetSync.WaitsStop | Virt_Enable_Disable/virt_enable_disable.py:69-71 | the stop count is unique: the first green read, or 12 |
| FleetSync.SyncCommandOnce | Virt_Enable_Disable/virt_enable_disable.py:64-72 | `sync` runs config-sync to the group first and never again, and updates no virtual server |
| FleetSync.SleepDurations | Virt_Enable_Disable/virt_enable_disable.py:68-71 | the n-th sleep lasts n half-seconds, and no sleep exceeds 12 half-seconds |
| FleetSync.NoSleepAfterGreen | Virt_Enable_Disable/virt_enable_disable.py:69-71 | once a status read is green, `sync` does not sleep again |
| FleetSync.SyncSleepBound | Virt_Enable_Disable/virt_enable_disable.py:68-71 | the total sleep is 1 + 2 + ... + k half-seconds for k waits, at most 78 half-seconds (39 s) whatever the reads |
| FleetSync.Sync | Virt_Enable_Disable/virt_enable_disable.py:64-72 | the poll loop performs exactly the specified trace and reports the read that follows the loop |
| FleetRun.ModeOf | Virt_Enable_Disable/virt_enable_disable.py:108-125 | print-only iff neither flag is given; enable and disable exclude each other |
| FleetRun.ClusterRun | Virt_Enable_Disable/virt_enable_disable.py:143-168 | a cluster either finishes, exits with code 1, or raises |
| FleetRun.StandaloneNeverSyncs | Virt_Enable_Disable/virt_enable_disable.py:146-166 | a cluster whose "devs" has length 1 or less never reads its sync status, never syncs and never sleeps |
| FleetRun.UnsyncedClusterAborts | Virt_Enable_Disable/virt_enable_disable.py:146-153 | a change on a cluster that is not green reads the status and exits 1 before any report or update |
| FleetRun.PrintOnlyChangesNothing | Virt_Enable_Disable/virt_enable_disable.py:150-163 | print-only mode updates nothing, syncs nothing, and once connected finishes the cluster whatever its status |
| FleetRun.ChangesEveryVirtual | Virt_Enable_Disable/virt_enable_disable.py:155-163 | once past the gate, the updates of a cluster are exactly one enable (or disable) per listed virtual server, in order |
| FleetRun.SyncIffChangedCluster | Virt_Enable_Disable/virt_enable_disable.py:143-166 | a cluster is synced to group g iff it connected, a change was asked for, it has more than one device, its status was green and its "dgrp" is g |
| FleetRun.SyncFollowsChanges | Virt_Enable_Disable/virt_enable_disable.py:155-166 | every update of a cluster comes before its config-sync |
| FleetRun.PlainHostGatedAsCluster | Virt_Enable_Disable/virt_enable_disable.py:12-14 | a plain-string device of two or more characters gets one attempt, yet a change on it is gated on sync status like a cluster |
| FleetRun.RunCompletes | Virt_Enable_Disable/virt_enable_disable.py:143-168 | the run ends with exit code 0 iff every cluster finishes |
| FleetRun.RunStopsAtFirstFailure | Virt_Enable_Disable/virt_enable_disable.py:143-168 | the first cluster that does not finish ends the run with its own exit or exception, and later clusters are never touched |
| FleetRun.ScenarioConnects | Virt_Enable_Disable/virt_enable_disable.py:16-39 | with devices "a" (unreachable) and "b", the session is with "b" after attempting both |
| FleetRun.ScenarioWork | Virt_Enable_Disable/virt_enable_disable.py:155-166 | enabling vs1 and vs2 of group g1: report both, enable both, report both Enabled, then sync to g1 |
| FleetRun.EnableScenario | Virt_Enable_Disable/virt_enable_disable.py:143-168 | the enable scenario for cluster a/b: attempts a and b, reads green, then does the cluster's work |
| FleetRun.DoWork | Virt_Enable_Disable/virt_enable_disable.py:155-168 | report, change, report again and sync exactly as specified; a cluster without "dgrp" raises when the sync is reached |
| FleetRun.Serve | Virt_Enable_Disable/virt_enable_disable.py:146-168 | the sync-status gate followed by the cluster's work, as specified |
| FleetRun.ProcessCluster | Virt_Enable_Disable/virt_enable_disable.py:143-168 | the loop body on one cluster does exactly what ClusterRun specifies |
| FleetRun.Run | Virt_Enable_Disable/virt_enable_disable.py:143-168 | the loop over the clusters does exactly what RunFrom specifies |
| UsageItem.UsageStrLength | f5_where_used.py:18-22 | the usage text starts with ':' and has four characters plus the length of u for each usage u |
| UsageItem.UsageStrEntry | f5_where_used.py:18-22 | the k-th usage stands right after its bullet at the place fixed by the earlier usages, so the text reads back entry by entry |
| UsageItem.Item.constructor | f5_where_used.py:7-10 | a new item has its name and no usage |
| UsageItem.Item.AddUsage | f5_where_used.py:12-13 | the usage is appended at the end, earlier entries and duplicates are kept, and the item is used afterwards |
| UsageItem.Item.GetUsage | f5_where_used.py:15-16 | returns the usage list |
| UsageItem.Item.IsUsed | f5_where_used.py:24-29 | an item is used iff its usage list is not empty |
| UsageItem.Item.GetUsageStr | f5_where_used.py:18-22 | the accumulating loop builds exactly the usage text |
| WhereUsed.NodeKeyShape | f5_where_used.py:55 | the node of a member is the member path up to its first ':' (or the whole path), with no ':' in it |
| WhereUsed.PathsHas | f5_where_used.py:50-53 | one pool path per pool, and exactly the pools' paths |
| WhereUsed.MembersHas | f5_where_used.py:54 | the members walked are exactly the members of the pools |
| WhereUsed.DedupKeys | f5_where_used.py:48 | the dictionary's keys are exactly the paths inserted, each once |
| WhereUsed.MatchesHas | f5_where_used.py:54-55 | one pool adds its path to a node's usage iff one of its members belongs to that node |
| WhereUsed.NodeUsageHas | f5_where_used.py:50-55 | a pool is in a node's usage iff one of its members belongs to that node |
| WhereUsed.PoolUsageHas | f5_where_used.py:57-65 | a virtual server is in a pool's usage iff it names that pool; one without a pool is in none |
| WhereUsed.PoolUsageCount | f5_where_used.py:57-65 | a pool's usage has one entry per virtual server that names it |
| WhereUsed.NodeUsageEmpty | f5_where_used.py:50-55 | a node has no usage iff no member belongs to it |
| WhereUsed.PoolUsageEmpty | f5_where_used.py:57-65 | a pool has no usage iff no virtual server names it |
| WhereUsed.DiscoverNodes | f5_where_used.py:45-48 | one fresh, distinct item per node path, named after it and with no usage; key order is first insertion |
| WhereUsed.RecordMembers | f5_where_used.py:54-55 | each member adds the pool's path to its node's usage, and only there; the KeyError names the node of the first member whose node is unknown (`MemberFault`) |
| WhereUsed.DiscoverPool | f5_where_used.py:51-55 | a fresh item is stored under the pool's path (a path seen before keeps its key position), then its members are recorded; node usage after pools[..i] becomes usage after pools[..i+1], and the first-fault search moves past this pool exactly when it has no unknown node |
| WhereUsed.DiscoverPools | f5_where_used.py:50-55 | one new item per pool path, none of them a node item, and every node's usage grows by exactly NodeUsage; the KeyError names the first unknown node in pool and member order (`PoolsFault`) |
| WhereUsed.RecordVirtuals | f5_where_used.py:57-65 | each virtual server with a pool adds its path to that pool's usage, and only there; one without a pool is skipped; the KeyError names the pool of the first virtual server whose pool is unknown (`VirtualsFault`) |
| WhereUsed.Discover | f5_where_used.py:40-65 | discovery fails iff some member's node or some named pool is missing, and the fault is the first failed lookup (`FirstFault`: any missing node before any missing pool); otherwise every node and pool item holds exactly its specified usage |
| WhereUsed.UnusedLines | f5_where_used.py:70-78 | the items without usage are listed in key order, and the flag is set iff one was |
| WhereUsed.UsedLines | f5_where_used.py:85-90 | the items with usage are listed in key order with their usage text |
| WhereUsed.Analyse | f5_where_used.py:69-90 | the unused nodes then pools, "no unused items" iff none, then the used nodes then pools with their usage |
| WhereUsed.UsageReport | f5_where_used.py:40-90 | the script raises KeyError iff a lookup fails, naming the key of the first failed lookup (`FirstFault`); otherwise it reports exactly Expected |
| WhereUsed.MemberFaultAt | f5_where_used.py:54-55 | a member whose node is unknown, after members whose nodes are all known, is the one the KeyError names |
| WhereUsed.MemberFaultHas | f5_where_used.py:54-55 | the member walk fails iff some member's node is unknown, and then it names the first such member's node |
| WhereUsed.PoolsFaultAt | f5_where_used.py:50-55 | a pool with an unknown member node, after pools whose member nodes are all known, decides the KeyError |
| WhereUsed.PoolsFaultNone | f5_where_used.py:50-55 | the pool walk fails iff some pool's member walk fails, and then with the fault of such a pool |
| WhereUsed.PoolsFaultHas | f5_where_used.py:50-55 | the pool walk fails iff some member of some pool has an unknown node, and then it names such a node |
| WhereUsed.VirtualsFaultAt | f5_where_used.py:57-65 | a virtual server naming an unknown pool, after virtual servers whose pools are all known or absent, is the one the KeyError names |
| WhereUsed.VirtualsFaultHas | f5_where_used.py:57-65 | the virtual server walk fails iff some virtual server names an unknown pool, and then it names the first such pool |
| WhereUsed.FirstFaultResolves | f5_where_used.py:40-65 | the run has a fault iff its lookups do not all resolve; a missing node always wins over a missing pool; the key named is missing and comes from the input |
| WhereUsed.FirstMemberNamed | f5_where_used.py:54-55 | with no nodes and one pool with members n1:80 and n2:80, the KeyError names n1 |
| WhereUsed.NodeNamedBeforePool | f5_where_used.py:50-65 | with no nodes, a pool member n1:80 and a virtual server naming a missing pool q, the KeyError names the node n1 |
| WhereUsed.UnusedsHas | f5_where_used.py:71-78 | a line is in the unused list iff its item has no usage |
| WhereUsed.InUsesHas | f5_where_used.py:85-90 | a line is in the usage list iff its item has usage, and it carries that usage's text |
| WhereUsed.Partition | f5_where_used.py:69-90 | each item lands in exactly one of the two lists, and the unused list is empty iff every item is used |
| WhereUsed.NodeReportedUnused | f5_where_used.py:71-74 | a node is reported unused iff it was discovered and no pool member belongs to it |
| WhereUsed.PoolReportedUnused | f5_where_used.py:75-78 | a pool is reported unused iff it was discovered and no virtual server names it |
| WhereUsed.NodeReportedUsed | f5_where_used.py:85-87 | a node is listed as in use iff it was discovered and has usage, with the text of that usage |
| WhereUsed.PoolReportedUsed | f5_where_used.py:88-90 | a pool is listed as in use iff it was discovered and has usage, with the text of that usage |
| WhereUsed.ReportPartition | f5_where_used.py:69-90 | "No unused items" iff every node and pool is used; every discovered node and pool is listed exactly once |

## Left out

- Transport to the management endpoint is not modelled: sessions, REST calls, `Stats`, and the sync-status payload
  path (virt_enable_disable.py:57-58 and 75-79). Their answers are inputs.
- FleetVirtuals.PrintStates: reports only the configured state. It does not report the operational availability
  state, which comes from the statistics call.
- Argument parsing, the YAML file and its exit code 2, and the username/password prompts are not modelled
  (virt_enable_disable.py:98-141; f5_where_used.py:32-38). Mode selection is `ModeOf`.
- The printed text is not modelled: progress messages, headings and the HTTP error lines. The reports are values.
  The usage text is the exception: it is modelled exactly.
- Real sleeping and floating point are not modelled. `sleep(0.5 * wait)` becomes `Sleep(wait)` in half-seconds.
- A load or update of a virtual server that fails, and a failing collection call, propagate in the source. The model
  assumes they succeed.
- In the controller, `mgmt` is a module-level global that each loop turn rebinds. The model passes each cluster's
  session implicitly through its replies.
- UsageItem.Item.GetUsage: returns the usage list as a value. Python returns the list object itself, so a caller
  could change the item through it; no caller does.
- WhereUsed.Discover: models Python dictionaries as maps plus their key order. A path inserted twice replaces the
  item but keeps its first position, which is what CPython dictionaries do.
