# Trento: the key-value codec and the projection pipeline

Trento agents discover what runs on a host. They keep part of it as nested trees in Consul's flat
key-value store, and send part of it as events to the web server, which projects the events into
read models. This project models both and proves what they are for.

`dafny verify dfyconfig.toml` checks everything. The modules build on each other in this order.

**Trees in Consul** (`internal/consul/kv.go` and the packages that store through it)

- `Strings`, `Decimal`, `GoPath`: splitting and joining at slashes, decimal and boolean texts, the
  four digit slice index and its order, `path.Join`.
- `Trees`: trees of maps, slices and typed scalars, their entries, and `Reload`, what is left of a
  tree after it has been stored and loaded.
- `KeyTrees`, `Decoder`: the entries a tree occupies, and loading as a function (`Load`, by `Insert`).
- `Progress`, `Order`, `Listings`: after any part of a sorted listing the tree under construction is
  the matching part of the final tree; `LoadOfLayout` is the codec law on listings.
- `Writes`, `Consul`, `RoundTrip`: the `Put` functions as methods that change the store in any order
  of the maps and may fail, the held locks with a ghost trace of all that was done, and the codec law
  on the store.
- `Reader`: `ListMap` as the code runs it, with a cursor into mutable maps, refines `Load`.
- `Nests`, `Slashes`: map keys that contain slashes. A tree is taken as the set of its leaves at their
  full paths, and its expansion is the nested map of these paths.
- `Walks`, `Overlaps`, `QuietLeaves`, `BelowSlices`: leaves whose paths begin one another; exactly when
  `ListMap` panics on them, what it loads when it does not, and what becomes of leaves below a slice.
- `WriteOrder`: exactly when the store depends on the order in which Go visits maps. `Identity`: exactly
  which trees come back as they were.
- `Subtrees`, `Stores`, `Locks`, `LockProtocol`: storing and loading SAP systems, clusters and cloud
  data, all under a lock that is given back on every return; waiting for a lock; and many writers that
  take the lock and write one key at a time, of which every successful store is one.

**Projecting events** (`web/datapipeline`)

- `Projection`: `Project` against a specification, and whole sequences of calls: which events are
  applied, and that the order of delivery does not matter to read models that events replace.
- `Columns`, `HostsProjectors`: the two read models with one row for each host, whose columns belong
  to different types of events. `Subscriptions`, `Clusters`: the other two kinds of handlers.
- `Transactions`, `Linearization`, `ConcurrentSubscriptions`, `ConcurrentHosts`: `Project` as a transaction of several
  steps with row locks, any number at a time; that the transactions commit what sequential calls of
  `Project` compute; that some transaction can always step.
- `WorkerPool`, `Collector`: where the calls and the ids of the events come from.

**Smaller parts**: `Matches` (reading configuration text, and what is left of it after Consul),
`SapTable`, `Checks`, `Pagination`.

## Where the code does something else than it seems to promise

- A tree comes back from Consul as it was if and only if no key at any depth has a slash, no map holds an
  empty string, and slices hold nothing but maps, at most 10000 of them
  (`Identity.LoadIsIdentityExactly`). Scalars in slices are loaded as empty maps. A longer slice makes
  `ListMap` panic on every listing.
- A tree with slashes in its keys is loaded with each of these keys split
  (`Slashes.LoadAfterPutWithSlashes`). One leaf may be above another, as with the keys `a` and `a/b`. If
  the slices fit, `ListMap` panics exactly when the upper one is a scalar other than the empty string
  and the lower one is not an empty string directly below it. Else it loads the tree without the empty
  maps and strings that are in the way (`QuietLeaves.LoadOfLooseTree`, for trees in which no two leaves
  share a path and none is below a slice). What is put below a slice is taken for its elements and is
  never found at its path (`BelowSlices.LeafAtSliceIsLost`).
- Two different scalars at one path, as with `{"a": {"b": 1}, "a/b": 2}`: which of them is stored depends
  on the order in which Go visits the maps. Without such a pair, and with no leaf at or below another
  one's slice, the store is the same for every order (`WriteOrder.TreeIsDeterminedExactly`).
- Text that `FindMatches` has read survives a round trip if and only if no key occurs twice, no value is
  empty and no key has a slash (`Matches.LoadedExactlyIfPlain`).
- Storing a SAP system deletes every system whose id begins with its id, so the others are kept if and
  only if there is none (`Stores.StoreKeepsOthersExactly`). Discovery only makes ids for which there is
  none, digests of one length and `-` (`Stores.DiscoveredSystemsStay`).
- A comment in `web/datapipeline/projector.go:39-41` says that the lock on the cursor row enforces
  linearizability. A locking read of a row that is not there locks nothing, and so an agent's first
  two events can both be applied, the older one last. `Linearization.SequentialExactlyWithCursorRow`:
  for any handlers that accept two events of an agent, every run is sequential for the agent if and
  only if its cursor row is there at the start. `ConcurrentSubscriptions.StaleSubscriptions` is the
  stale row that the projector of subscriptions can be left with.
- One cursor serves all types of events of the hosts read model, so an event that comes late can be
  lost although it is the newest of its type (`Columns.NewestOfTypeIsKept` says exactly when).
- In the table of SAP systems only one instance of each attached database is added, since they are
  all put under the number of the database, and it takes the place of an instance with that name. The
  table has all instances if and only if every such database has at most one and its number is free
  (`SapTable.TableKeepsAllExactly`).
- The row of a cluster is that of the event that was committed last among those of its nodes
  (`Clusters.RowIsOfEventExactly`); each node has its own cursor, and so an older event can stay even
  if nothing is concurrent (`Clusters.OlderEventStays`).

## Assumptions

Consul and PostgreSQL do what their interfaces say: listings are sorted by key, the lock is held by
one client at a time, a failed put or transaction changes nothing, and a locking read that has waited
sees the latest committed row. Event ids are those of a sequence that starts at one, and an agent's id
is not empty. Decoding a payload is a function that gives a value or an error.

## Model

| member | source | states |
|---|---|---|
| Strings.JoinOfSplit | internal/consul/kv.go:131 | a key is the join of the components ListMap splits it into |
| Strings.SplitOfJoin | internal/consul/kv.go:131 | splitting gives back the components, so paths and keys correspond one to one |
| Strings.TrimmedIsBetweenBlanks | internal/consul/kv.go:123 | trimming a key takes blanks, and only blanks, from both ends, and all of them |
| Decimal.UnboundedOfText | internal/consul/kv.go:296 | the decimal text of every integer is read back as that integer |
| Decimal.TextIsTheCanonical | internal/consul/kv.go:296 | that text is the only one without leading zeros or a plus sign that is read as the number |
| Decimal.SignedDigits | internal/consul/kv.go:178-207 | the parser takes digits with or without a sign |
| Decimal.OnlySignedDigits | internal/consul/kv.go:178-207 | and nothing else |
| Decimal.ParsedIsInRange | internal/consul/kv.go:178-207 | a typed parse gives the number that the text says if and only if the type has it |
| Decimal.AtoiIsNearest | internal/consul/kv.go:135 | with its error ignored Atoi gives the nearest number there is, or 0 for what is no number |
| Decimal.IndexIsPadded | internal/consul/kv.go:269-270 | below 10000 the text of an index is the only one with four digits that denotes it, and from there on the only one without leading zeros |
| Decimal.AtoiOfIndex | internal/consul/kv.go:135 | the text of a slice index is read back as the index, whatever its length |
| Decimal.IndexOrder | internal/consul/kv.go:269-270 | below 10000 index texts are listed in numeric order, whatever follows them in the key |
| Decimal.IndexOrderBreaks | internal/consul/kv.go:269-270 | at 10000 they are not: element 10000 is listed before element 1001 |
| GoPath.JoinPathAppends | internal/consul/kv.go:225 | below a clean prefix path.Join of a valid key only appends it |
| GoPath.CleanBaseBelow | internal/consul/kv.go:211-213 | what path.Join gives is a clean prefix again once PutMap has added the slash |
| GoPath.CleanLeadsTheSame | internal/consul/kv.go:225 | a cleaned path leads to the same directory from everywhere, begins at the root if and only if the path did, and has no `.`, no empty component and no `..` behind a name |
| GoPath.JoinLeadsThere | internal/consul/kv.go:225 | path.Join leads to where the second path leads from where the first one does, and is cleaned |
| GoPath.JoinOfNothing | internal/consul/kv.go:225 | and with an empty first path to where the second one does |
| Trees.ScalarRoundTrip | internal/consul/kv.go:178-207 | every string, int, int32 and bool is decoded from its text and flag with its type and value |
| Trees.EntriesAsWritten | internal/consul/kv.go:279-307 | an entry is what PutTyped writes for a scalar if and only if it has this flag, by number, and this text, by its characters |
| Trees.EntriesAsRead | internal/consul/kv.go:178-207 | what each flag and text is read as, whoever put it: when it is an error and when nothing |
| Trees.ReloadIsIdentityExactlyOnFaithful | internal/consul/kv.go:152-156 | reloading changes nothing if and only if no map holds an empty string and slices hold only maps |
| KeyTrees.SomePath | internal/consul/kv.go:261-276 | every value, in particular every slice element, writes at least one entry |
| KeyTrees.LayoutWellFormed | internal/consul/kv.go:210-277 | the entries of a valid tree never put one entry below another |
| Progress.InsertStep | internal/consul/kv.go:122-174 | one more entry turns the part that stands for the entries seen into the part with the new one, or panics exactly if a slice index comes before its predecessors |
| Progress.ReachedStep | internal/consul/kv.go:122-174 | what the entries seen so far say about slices is kept by every further entry |
| Order.ListedIsMarked | internal/consul/kv.go:256-261 | in a sorted listing the marker of a slice comes before its elements |
| Order.ListedIsAdmissible | internal/consul/kv.go:134-146 | if slices have at most 10000 elements, every index that is read is the current length or smaller |
| Order.LongSliceBlocks | internal/consul/kv.go:134-146 | a longer slice has an entry whose index is read past the end, in every listing |
| Listings.LoadOnePair | internal/consul/kv.go:122-131 | what one pair of a listing, the lock's own key included, does to the tree under construction |
| Decoder.BlanksAreCut | internal/consul/kv.go:123 | blanks at the ends of a listed key make no difference |
| Listings.LoadOfLayout | internal/consul/kv.go:108-176 | ListMap over a listing of a tree's entries loads exactly the reloaded tree; it panics if and only if a slice is longer than 10000 |
| Writes.PutPairsOfDir | internal/consul/kv.go:210-277 | the pairs that PutMap puts are exactly the entries of the tree's layout |
| Consul.KV.AcquireLockKey | internal/consul/lock.go:29-48 | if it succeeds the lock is held from then on and was not before, and only the entry at its key is written; else nothing happens, as for a key that is held or empty |
| Consul.KV.Unlock | internal/sapsystem/sapsystem_kvstore.go:35 | the lock is free again and the entries stay |
| Consul.KV.Put | internal/consul/kv.go:294-302 | a put writes its key or, if it fails, nothing |
| Consul.KV.PutTyped | internal/consul/kv.go:279-307 | the one put of the entry for the value, of which `Trees.EntriesAsWritten` says the flag and text; slices leave a marker |
| Consul.KV.PutMap | internal/consul/kv.go:210-231 | in every order of the map: exactly the tree's pairs, or some of them and nothing else; it fails exactly if one of its puts does, and then makes no other; every put is of a pair of the tree, and no lock changes |
| Consul.KV.PutInterface | internal/consul/kv.go:233-254 | the same for a value of any kind |
| Consul.KV.PutSlice | internal/consul/kv.go:256-277 | the same for a slice: marker first, then elements under four digit indices |
| Consul.KV.DeleteTree | internal/sapsystem/sapsystem_kvstore.go:39 | deletes all keys that begin with the prefix, and no other |
| Consul.AnswerExists | internal/consul/kv.go:111 | every store has a sorted answer to every query, so nothing is assumed by speaking of one |
| Reader.InsertEntry | internal/consul/kv.go:128-173 | the cursor walk through mutable maps changes the tree exactly as Insert does, and crashes exactly if Insert panics |
| Reader.ListMap | internal/consul/kv.go:108-176 | the loop over mutable maps builds the tree that Load computes; error of the query and panic included |
| RoundTrip.LoadAfterPut | internal/consul/kv.go:108-277 | the codec law: ListMap over what PutMap has written loads the reloaded tree, and panics if and only if a slice is too long |
| Slashes.ExpandPutsTheSame | internal/consul/kv.go:225 | a tree of which no leaf is above another, whatever its keys with slashes, puts exactly the pairs of the nested map of its leaf paths |
| Slashes.ExpandIsValid | internal/consul/kv.go:225 | the nested map is a tree that the codec law is for |
| Slashes.ExpandOfValid | internal/consul/kv.go:225 | a tree without slashes in its keys is its own nested map |
| Slashes.ExpandLookup | internal/consul/kv.go:160-172 | following the path of any leaf through the nested map finds the leaf |
| Slashes.ExpandLookupKey | internal/consul/kv.go:160-172 | so a value is found at the components of its key |
| Slashes.ProfileLookup | web/services/sapsystems.go:99-101 | an entry of a system's profile, such as `dbs/hdb/dbname`, is found at its components below the profile, where the code looks for it |
| Slashes.KeysApartIsSlashValid | internal/sapsystem/sapsystem.go:62-64 | no leaf is above another if in no single map one key begins another, which a caller can check map by map |
| Slashes.ProfileIsSlashValidExactly | internal/sapsystem/sapsystem.go:283 | a profile of texts and lists is such a tree if and only if none of its keys begins another |
| Slashes.LoadAfterPutWithSlashes | internal/consul/kv.go:131-172 | such a tree is loaded with its keys split, maps that meet at one path being one map; a panic if and only if one of its slices is too long |
| Slashes.ExpandFits | internal/consul/kv.go:134-146 | splitting keys makes no slice longer, so that condition is one on the tree itself |
| WriteOrder.DeterminedExactly | internal/consul/kv.go:224-229 | for any pairs: all complete writes end in one store if and only if no key is put with two entries |
| WriteOrder.TreeIsDeterminedExactly | internal/consul/kv.go:224-229 | for trees with valid keys and no leaf at or below another one's slice: the store after PutMap does not depend on the order in which Go visits the maps if and only if no two different scalars are at one path |
| WriteOrder.StoreIsDetermined | internal/consul/kv.go:224-229 | so it does not for trees of which no leaf is above another, such as profiles with slashes in their keys |
| WriteOrder.SamePathIsNotDetermined | internal/consul/kv.go:224-229 | with two different scalars at one path there are for every complete write two others with different stores |
| Identity.LoadIsSlashFree | internal/consul/kv.go:131-172 | no key of a loaded tree has a slash, at any depth, whatever is listed |
| Identity.LoadIsIdentityExactly | internal/consul/kv.go:108-277 | a tree with valid keys, whether or not they begin one another, comes back as it was if and only if no key at any depth has a slash, its slices fit and hold only maps, and no map holds an empty string |
| Slashes.PutKey | internal/consul/kv.go:210-277 | every key that is put is below the prefix and does not end in a blank, so ListMap cuts it to the path of a leaf |
| Walks.BelowScalar | internal/consul/kv.go:167-172 | below a scalar an entry is passed over if it is an empty string directly below it, and else ListMap panics |
| Walks.OpenedBefore | internal/consul/kv.go:167-172 | adding missing maps on a path and inserting an entry that puts only maps there can be done in either order |
| Overlaps.LoadOfScalarAboveLeaf | internal/consul/kv.go:167-172 | a tree with a scalar that is no empty string above another leaf: ListMap panics on every listing of it, unless the other is an empty string directly below; no slice is at the scalar's path or at a beginning of it |
| QuietLeaves.RedundantIsPassed | internal/consul/kv.go:152-172 | ListMap loads the same without an empty string or empty map above another leaf, and without an empty string directly below a scalar |
| QuietLeaves.KeptIsApart | internal/consul/kv.go:152-172 | without them no leaf is above another, if no scalar blocks a leaf |
| QuietLeaves.LoadOfLooseTree | internal/consul/kv.go:108-277 | the law for all trees in which no two leaves share a path and none is below a slice: a panic if and only if a scalar blocks a leaf or a slice is too long, and else the nested map of the leaves that are not redundant |
| QuietLeaves.ApartIsKept | internal/consul/kv.go:108-277 | if no leaf is above another nothing is redundant, so the law is that of the expansion |
| BelowSlices.LeafAtSliceIsLost | internal/consul/kv.go:134-165 | a leaf at or below the path of a slice is never loaded where it was put: ListMap panics, or at its path there is nothing, or a slice if the path is the slice's own |
| Walks.EntryBelowSlice | internal/consul/kv.go:135-146 | an entry below a slice is one of the element whose index its component is read as, which is 0 for text that is no number |
| BelowSlices.SliceTakesThePlace | internal/consul/kv.go:134-155 | an input: a slice at the path of a scalar is loaded in its place, and a number below it as an empty element |
| Subtrees.LoadOfHolding | internal/consul/kv.go:123-126 | whoever lists a subtree that encodes a map loads it, and the lock's own key is never data |
| Subtrees.RewriteChild | internal/sapsystem/sapsystem_kvstore.go:37-50 | after delete and rewrite the subtree encodes the map with the child replaced by the new data, whose keys with slashes are split, and nothing left of the old one |
| Subtrees.RewriteKeepsOthers | internal/sapsystem/sapsystem_kvstore.go:39-50 | no key outside the path changes |
| Subtrees.PathsAsWritten | internal/consul/kv.go:33-41 | the paths and lock keys by their characters, and that user settings are beside the discovered data |
| Subtrees.PathsAreApart | internal/consul/kv.go:33-41 | none of the paths of systems, cloud data and clusters, of one host or of two, begins another |
| Stores.ReplaceTree | internal/sapsystem/sapsystem_kvstore.go:29-53 | the protocol of the three Store functions, operation by operation: the lock, the delete, the puts of the tree and the unlock; nothing without the lock; everything is deleted and put while it is held; it is free again on every return; complete on success, and on any error no key outside the path but the lock's has changed |
| Stores.StoreTraceIsGuarded | internal/sapsystem/sapsystem_kvstore.go:31-50 | whatever operations such a store has made, every delete and put of them was made while the lock was held |
| Stores.StoreSapSystem | internal/sapsystem/sapsystem_kvstore.go:29-53 | this protocol with the lock of the host's systems; the subtree of systems then encodes the old systems with this one replaced; its profile may have keys with slashes |
| Stores.LoadAfterStoreSapSystem | internal/sapsystem/sapsystem_kvstore.go:57-79 | Load after Store: the new tree for the id, with its keys split, every system whose id does not begin with it as before, and nothing else |
| Stores.StoreKeepsOthersExactly | internal/sapsystem/sapsystem_kvstore.go:39 | Load after Store gives the old systems and the new one if and only if no other id begins with the new one |
| Stores.DiscoveredSystemsStay | internal/sapsystem/sapsystem.go:288-344 | with the ids that discovery makes this is always so |
| Stores.StoreCluster | internal/cluster/cluster_kvstore.go:17-45 | only the designated coordinator stores, and with the lock of all clusters; the clusters then encode the new discovered data and all that was beside it |
| Stores.LoadAfterStoreCluster | internal/cluster/cluster_kvstore.go:47-70 | Load after Store: the new discovered data, all other clusters, and the cluster's user settings as before |
| Stores.StoreCloudData | internal/cloud/metadata_kvstore.go:21-46 | the same protocol with the lock of the host and a prefix that ends in a slash: the path then encodes the new data |
| Stores.LoadAfterStoreCloudData | internal/cloud/metadata_kvstore.go:48-59 | Load after Store: the new cloud data |
| Locks.WaitLock | internal/consul/lock.go:50-77 | the wait ends at the first answer that shows no held lock, with success, conflict or error, and each read waits for a change after the one before |
| LockProtocol.StoreIsRun | internal/sapsystem/sapsystem_kvstore.go:29-53 | every successful store, as ReplaceTree traces it, is a run of the steps below by one writer, operation for operation, with the same entries at every moment |
| LockProtocol.SystemPath | internal/sapsystem/sapsystem_kvstore.go:14-20 | the path and lock of StoreSapSystem are those of these steps |
| LockProtocol.StoreIsWholeWhenUnlocked | internal/sapsystem/sapsystem_kvstore.go:29-53 | for SAP systems, clusters and cloud data: in every run of any number of writers, whenever the lock is free the store encodes exactly the finished jobs, one after the other |
| LockProtocol.LoadWhenUnlocked | internal/sapsystem/sapsystem_kvstore.go:57-79 | a listing taken then loads them |
| LockProtocol.LoadedPieceIsOneJobs | internal/sapsystem/sapsystem_kvstore.go:57-79 | no mix and no fragment: what a listing taken while the lock is free loads for a system, a cluster's discovered data or a host's cloud data is as a whole the reloaded data of the last job that touched it, or what was there at the start |
| LockProtocol.LastJobIsLoaded | internal/sapsystem/sapsystem_kvstore.go:29-53 | the data of the last job for an id, if none after it touches the id, is there and is loaded |
| LockProtocol.SettingsAreLoaded | internal/cluster/cluster_kvstore.go:31-42 | what a cluster has beside its discovered data is loaded as it was at the start after any number of stores |
| LockProtocol.OneWriterAtATime | internal/consul/lock.go:29-48 | at most one writer is between taking and giving back the lock |
| Projection.Projector.AddHandler | web/datapipeline/projector.go:35-37 | registers the handler for a type and keeps the others |
| Projection.Projector.Project | web/datapipeline/projector.go:42-80 | cursor and read model after one call, skipped, applied or rolled back, and when an error is returned |
| Projection.FirstIsApplied | web/datapipeline/projector.go:53-56 | an agent without a cursor row: every event with a positive id is new |
| Projection.AppliedIdsIncrease | web/datapipeline/projector.go:56-71 | in every sequence of calls the ids applied for an agent strictly increase, so none is applied twice |
| Projection.CursorIsNewest | web/datapipeline/projector.go:65-71 | the cursor is the largest id among the events that are of interest and succeed |
| Projection.AppliedAreRunningMaxima | web/datapipeline/projector.go:43-78 | a handler runs successfully on a call if and only if its id exceeds all earlier ones that count |
| Projection.NewestIsApplied | web/datapipeline/projector.go:43-79 | in whatever order the events come, the newest one has been applied and nothing after it |
| Projection.RowsAreOfNewest | web/datapipeline/projector.go:56-78 | rows that events replace are those of the newest event |
| Projection.DeliveryOrderDoesNotMatter | web/services/collector.go:22-29 | two deliveries of the same events, in any orders and with repetitions, end with the same cursor and rows |
| Columns.HandlersCommute | web/datapipeline/hosts_projector.go:84-91 | handlers of different types, or of different agents, can be run in either order |
| Columns.ColumnsAreOfLastApplied | web/datapipeline/hosts_projector.go:35-91 | in every run a column holds the value of the last applied event of the type that owns it, or what it held before |
| Columns.RowsAreOfAppliedEvents | web/datapipeline/hosts_projector.go:84-91 | an agent has a row if and only if it had one or an event of its own has been applied |
| Columns.NewestOfTypeIsKept | web/datapipeline/projector.go:56-63 | the newest event of a type is kept if and only if nothing newer of any type was delivered before it |
| HostsProjectors.Filtered | web/datapipeline/hosts_projector.go:94-105 | which addresses are kept, and how often |
| HostsProjectors.FilterIPAddresses | web/datapipeline/hosts_projector.go:94-105 | the loop keeps exactly the addresses that parse as IPv4 and are not loopback, in order |
| HostsProjectors.StoreRow | web/datapipeline/hosts_projector.go:84-91 | insert the whole row, or update the given columns of the agent's row |
| HostsProjectors.HostDiscoveryHandler | web/datapipeline/hosts_projector.go:26-47 | stores name, addresses and version of the host, or fails on a payload that cannot be decoded |
| HostsProjectors.HostCloudHandler | web/datapipeline/hosts_projector.go:49-64 | stores the cloud provider |
| HostsProjectors.HostClusterHandler | web/datapipeline/hosts_projector.go:66-82 | stores id and name of the cluster |
| HostsProjectors.TelemetryHostHandler | web/datapipeline/host_telemetry_projector.go:21-46 | stores the five columns of the host |
| HostsProjectors.TelemetryCloudHandler | web/datapipeline/host_telemetry_projector.go:48-63 | stores the cloud provider |
| HostsProjectors.HostEventIsShown | web/datapipeline/hosts_projector.go:26-47 | afterwards the host's row has the payload's name and version and its usable addresses, column by column |
| HostsProjectors.CloudEventIsShown | web/datapipeline/hosts_projector.go:49-64 | and the payload's provider |
| HostsProjectors.ClusterEventIsShown | web/datapipeline/hosts_projector.go:66-82 | and the payload's cluster id and cluster name, each in its own column |
| HostsProjectors.TelemetryHostEventIsShown | web/datapipeline/host_telemetry_projector.go:21-46 | and in host_telemetry the five columns that the payload says |
| HostsProjectors.TelemetryCloudEventIsShown | web/datapipeline/host_telemetry_projector.go:48-63 | and the provider |
| HostsProjectors.ZeroColumns | web/datapipeline/hosts_projector.go:42-81 | a column that nobody has written is empty or zero |
| HostsProjectors.EveryColumnIsOwned | web/datapipeline/hosts_projector.go:16-81 | every data column of both tables is written by some type of event, and the types are these |
| HostsProjectors.HostsAfterRun | web/datapipeline/hosts_projector.go:16-91 | the hosts table from its creation: every column of every agent is that of the last applied event of its type, or zero |
| HostsProjectors.TelemetryAfterRun | web/datapipeline/host_telemetry_projector.go:12-72 | the same for host_telemetry |
| Subscriptions.SubscriptionDiscoveryHandler | web/datapipeline/sles_subsciptions_projector.go:19-56 | replaces all rows of the agent, or fails and leaves the table as it was |
| Subscriptions.InsertedAddsRows | web/datapipeline/sles_subsciptions_projector.go:50-52 | the insert succeeds exactly if all primary keys are new and distinct |
| Subscriptions.ContentIsPayload | web/datapipeline/sles_subsciptions_projector.go:30-44 | one row for each subscription of the payload and no other |
| Subscriptions.RowHasItsFields | web/datapipeline/sles_subsciptions_projector.go:30-44 | the row of a subscription has each of its fields as the payload says it |
| Subscriptions.OnlySubscriptionEvents | web/datapipeline/sles_subsciptions_projector.go:11-16 | the projector takes subscription events and no others |
| Subscriptions.EventsReplaceRows | web/datapipeline/sles_subsciptions_projector.go:46-55 | success depends on the event only, and an event changes the rows of its agent only |
| Subscriptions.SubscriptionsConverge | web/datapipeline/sles_subsciptions_projector.go:19-56 | two deliveries of the same events leave the same table and cursors |
| Subscriptions.SubscriptionsAreOfNewest | web/datapipeline/sles_subsciptions_projector.go:28-55 | an agent's rows are the payload of its newest good event, or those from before |
| Clusters.ClusterRowIsOfLastCommitted | web/datapipeline/clusters_projector.go:28-48 | under every interleaving of the agents, with or without cursor rows, a cluster's row is that of the last transaction that committed it |
| Clusters.NamelessIsNotStored | web/datapipeline/clusters_projector.go:52-54 | under every interleaving a cluster without an id is not stored |
| Clusters.OnlyClusterEvents | web/datapipeline/clusters_projector.go:20-24 | the projector takes cluster events and no others |
| Clusters.RowIsOfEventExactly | web/datapipeline/clusters_projector.go:28-48 | a committed event, such as the newest, is what the row shows if and only if none with another reading of the cluster was committed after it |
| Clusters.OlderEventStays | web/datapipeline/projector.go:54-71 | the newer event of one node and then the older one of another, without any concurrency: both are applied and the older one's row stays |
| Transactions.LockInvHolds | web/datapipeline/projector.go:52-73 | in every reachable state the holder of a cursor row is inside its transaction and the holder of a shared row is ready to commit |
| Transactions.OneWriterOfARow | web/datapipeline/clusters_projector.go:45-47 | in every reachable state two transactions that have written the same cursor row, or the same shared row, and have not ended are one |
| Transactions.SomeTransactionCanStep | web/datapipeline/projector.go:54-73 | no stuck state: whenever a transaction is unfinished, some transaction can step |
| Transactions.RunsEnd | web/datapipeline/projector.go:52-79 | every step uses up work, so once no more begin all transactions end |
| Linearization.OneTransactionInside | web/datapipeline/projector.go:54 | with the cursor row there, at most one transaction of a projector and agent is between locking read and end |
| Linearization.StepRefinesProject | web/datapipeline/projector.go:52-79 | each step changes nothing that is committed, or commits exactly what Project does |
| Linearization.CommittedIsSequential | web/datapipeline/projector.go:39-80 | in every interleaving the committed database is that of sequential Project calls in the order of the transactions' ends |
| Linearization.KeyIsSequential | web/datapipeline/projector.go:39-80 | the same for one projector and agent, whatever happens to others |
| Linearization.SequentialExactlyWithCursorRow | web/datapipeline/projector.go:53-56 | for all handlers and any two events of an agent that they accept: all runs are sequential for the agent if and only if its cursor row is there at the start |
| Linearization.NewestWinsConcurrently | web/datapipeline/projector.go:39-80 | when all transactions have ended the cursor is the largest id that succeeds, under every interleaving |
| Linearization.ConcurrentRunsConverge | web/datapipeline/projector.go:39-80 | two concurrent runs over the same events end with the same cursor and rows |
| ConcurrentSubscriptions.HandlerIsLocal | web/datapipeline/sles_subsciptions_projector.go:46-55 | the handler on the whole table does what it does on its agent's rows, and nothing to others |
| ConcurrentSubscriptions.ConcurrentSubscriptionsConverge | web/datapipeline/sles_subsciptions_projector.go:19-56 | an agent's subscriptions after concurrent projection do not depend on the interleaving |
| ConcurrentSubscriptions.StaleSubscriptions | web/datapipeline/projector.go:53-73 | without the cursor row, any two good events of an agent can end with the older one's cursor and subscriptions, everything committed |
| ConcurrentSubscriptions.SubscriptionsSequentialExactly | web/datapipeline/sles_subsciptions_projector.go:19-56 | subscriptions are projected sequentially in every run if and only if the agent's cursor row is there |
| ConcurrentHosts.AfterView | web/datapipeline/hosts_projector.go:84-91 | handlers that see only their agent's row leave the table that the handlers on the whole table leave, after every sequence of calls |
| ConcurrentHosts.ColumnsConcurrently | web/datapipeline/projector.go:39-80 | with the agent's cursor row there, under every interleaving each column holds the value of the last event of its type that is applied in the order of the transactions' ends |
| ConcurrentHosts.HostsConcurrently | web/datapipeline/hosts_projector.go:16-91 | this for the hosts table |
| ConcurrentHosts.TelemetryConcurrently | web/datapipeline/host_telemetry_projector.go:12-72 | and for host_telemetry |
| WorkerPool.InvHolds | web/datapipeline/worker_pool.go:28-60 | permits, workers, events and calls agree in every reachable state |
| WorkerPool.PoolIsSafe | web/datapipeline/worker_pool.go:34-46 | never more workers than permits; an event is started or discarded, not both, and discarded only after cancellation; projectors get it once and in order |
| WorkerPool.DrainedPoolIsDone | web/datapipeline/worker_pool.go:47-58 | if the final acquire succeeds no worker runs, and every received event has been projected by all projectors or was discarded |
| Collector.CollectorService.Insert | web/services/collector.go:23-25 | a stored event gets an id that no other event has |
| Collector.CollectorService.Send | web/services/collector.go:26 | a stored event is sent once |
| Collector.CollectorService.StoreEvent | web/services/collector.go:22-29 | an event that cannot be stored is not sent |
| Collector.CollectorService.SentIdsNameEvents | web/services/collector.go:22-29 | whatever is delivered of what was sent: an id names one event |
| Matches.FindMatches | internal/utils.go:75-93 | the multimap: a key that occurs once has its value, one that occurs more often the list of all in order, and there are no other keys |
| Matches.FoundInOrder | internal/utils.go:80-91 | the value of a key that occurs once is that of its match, and else element j of its list is that of the j-th match with the key, in the order of the text |
| Matches.LoadedExactlyIfPlain | internal/utils.go:69-74 | what was read and put into Consul is loaded as it was if and only if no key occurs twice, no value is empty and no key has a slash |
| SapTable.Extend | web/sapsystems.go:83-88 | under the number of each attached database with instances there is one of them, everything else is as before |
| SapTable.SortBySorts | web/sapsystems.go:136-138 | sorting by SID keeps all rows |
| SapTable.NewSAPSystemsTable | web/sapsystems.go:48-156 | one row for each id, with the instances of all its systems sorted by SID; rows sorted by SID; a row is flagged if and only if another row has its SID; when it fails |
| SapTable.RowShowsFirstSystem | web/sapsystems.go:54-91 | a row has SID and tags of the first system of its id, and SID and id of the first database attached to that, if it is an application |
| SapTable.ExtendKeepsAllExactly | web/sapsystems.go:82-89 | no instance of the attached databases is lost and none of the system's own is written over if and only if each database has at most one and its number is not yet a name |
| SapTable.SecondInstanceIsLost | web/sapsystems.go:83-88 | of a database with two instances one is lost |
| SapTable.InstancesAreConserved | web/sapsystems.go:94-134 | the rows have as many instances as the systems as they are left, together |
| SapTable.TableKeepsAllExactly | web/sapsystems.go:48-134 | the table has all instances of the systems and of the databases attached to the first system of each id if and only if no database loses one, and never more |
| Checks.GetAggregatedChecksResultByHost | web/services/checks.go:214-239 | exactly the hosts with results, each with the numbers of its passing, warning and critical ones |
| Checks.GetAggregatedChecksResultByCluster | web/services/checks.go:241-256 | the totals are the numbers of all pairs of check and host |
| Checks.HealthIsWorstResult | web/services/checks.go:23-33 | the health shown is the worst result present |
| Pagination.PageCountIsEnough | web/pagination.go:25-27 | just enough pages for the items |
| Pagination.NewPagination | web/pagination.go:43-58 | the page that is asked for, or the nearest one there is |
| Pagination.GetCurrentPages | web/pagination.go:60-74 | exactly the existing pages within two of the current one, in order, and exactly the current one active |
| Pagination.PagesPartition | web/pagination.go:77-79 | the slices of all pages, one after the other, are the list |

## Left out

- The conversion of Go structs, pointers and other kinds of scalars by mapstructure and reflect: trees start as plain maps, slices, strings, ints, int32s and bools.
- QuietLeaves.LoadOfLooseTree: trees with two leaves at one path, for which `WriteOrder.TreeIsDeterminedExactly` says when the store is determined, and trees with a leaf below a slice, of which `BelowSlices.LeafAtSliceIsLost` says that the leaf is lost and not what else is loaded. Elements of slices are trees without such overlaps.
- WriteOrder.TreeIsDeterminedExactly: trees with a leaf at or below another one's slice; `WriteOrder.DeterminedExactly` covers them by the pairs that are put.
- Stores.StoreSapSystem: what is stored for data in which one leaf is above another is not described as a tree, as no tree has these entries; that nothing outside the path changes is said for such data too.
- Keys with empty, `.` or `..` components, which path.Join resolves, and map keys of scalars that end in a blank, which ListMap trims.
- The loops of the Load functions that decode loaded trees into structs.
- Session expiry and the monitor of a lock: the lock is safe. A reader waits for the lock and lists in two steps, so what it loads is stated for listings taken while the lock is free only.
- Unlock after an error: a failed Store gives the lock back and may leave a fragment, as the code does; the runs of LockProtocol are those without errors of the key-value store.
- Consul.KV.Unlock: always succeeds; the program does not look at its error. Waiting for a lock that another client holds: AcquireLockKey fails then, as it does after the waiting.
- Locks.WaitLock: works on a finite sequence of answers and says so if the lock is held in all of them; that a held lock is ever released is not modelled.
- The value of an entry that a lock leaves at its key: any entry.
- ProjectorsWorkerPool.Run: an endless loop with goroutines, so it is modelled as the steps it takes and not as a method. The length of the drain timeout is left open.
- The database: a transaction's effects, row locks and primary keys are modelled, SQL and timestamps are not. Handlers are functions of the rows, as Project stores them in a map; the methods beside them are proved to compute those functions.
- Transactions.SomeTransactionCanStep: knows the locks of cursor rows and of one shared row for each transaction, as the handler of clusters takes it; the other handlers write rows of their agent only.
- The projector of SAP systems, which adds rows and never deletes any, and the computing of a cluster's row from its payload.
- The convergence of all columns of hosts under reordering: it does not hold; Columns.NewestOfTypeIsKept says when a type's columns are those of its newest event.
- SapTable.NewSAPSystemsTable: an instance's features, cluster and replication are looked up one by one and are part of an instance here; the tables of instances that it extends are taken not to be nil and not to be shared between systems.
- SapTable.SortBySorts: the library's sort need not keep the order of equal keys; only that it sorts and keeps all rows is used.
- Checks.GetAggregatedChecksResultByHost: the error of reading the results is returned before anything is counted and is not modelled.
- Matches.FindMatches: the regular expression engine; it starts from the list of matches.
- Pagination.NewPagination: counts are exact numbers instead of floats, and at least one item per page is asked for; the texts of a query are parsed elsewhere.
- HTTP handlers, templates, discovery of hosts, tags, settings and telemetry publishing.
