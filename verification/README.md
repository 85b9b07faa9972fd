# A verified model of the boot script service's stores

The boot script service (BSS) tells nodes what to boot. It keeps, per node, a
kernel, an initrd and kernel parameters, together with cloud-init data, in one of
two backends: four Postgres tables, or a key-value store. This project models the
parts of it that have the most state and branching, and proves what they are meant
to do for all inputs and all runs.

**The Postgres store.** `Tables` holds the four tables as a value, says when they
are well formed and defines the map they stand for: every node row with the
configuration that the joins reach from it. `StoreSpec` and `Requests` define what
each operation does to the tables and answers. `BootDb` is the store as it runs: a
class with the four tables as fields, a method per SQL statement, and `Add`,
`Delete`, `Update` and `Set` built from them with the loops of the Go code. A
ghost history records the tables after every statement, and every method keeps it
complete: it ends in the tables as they are, and neighbours differ by one statement.
`UpdatePlan` is the
bookkeeping of one update, and `TableFacts` what single statements do to tables.
`StoreLaws`, `DeleteLaws`, `AddDelete`, `SetLaws`, `SetTwice`, `StoreRuns`,
`StoreDedup`, `StoreRefinement` and `StatementSafety` hold the theorems: on the map every
operation is a simple one (an overlay, an extension, a restriction), for one call,
for every run and between any two statements. `Identities` and `SetHits` are about
the MACs, xnames and NIDs that nodes are found by, and say exactly when `Set`
updates the nodes it was asked to; `SetMishap` has runs in which it does not, and
`DedupMishap` one that stores the same content twice. `RequestLaws` says what requests
mean without the functions that the operations are built from: which nodes a selector
names, what becomes of each field, and that the case of letters in MACs does not matter.

**The key-value backend.** `KvStore` is a class with one store that is changed key
by key; kernels and initrds are interned under hashed keys that host entries
reference. `KvSpec` has the operations on values and the simple state behind them,
in which host entries hold paths and no key is in sight. `KvLaws`, `KvRemoval`,
`KvRevival` and `KvRuns` say what every run keeps, when all references resolve, and
when a run cannot be told from one on that simple state; `KvMishap` is one that can,
and `Backends` shows that an update does the same in both backends. `KvRequestLaws` and
`KvImageLaws` say under which literal keys each request writes, patches and removes
what, and `KeyRanges` what the range scans find.

**Cloud-init data.** `CloudInitMerge` defines the recursive merge of role and node
data, JSON Merge Patch (section 2 of RFC 7396), and proves the algebra of both.
`MapTrees` is the merge as it runs: maps on the heap, the first changed in place and
parts of the second linked into it.

**Refreshing.** `SmCache` is the cached copy of the state manager's data with its
index; `Refresh` is the protocol around it, as a state machine over clocks, the
shared notification timestamp and any number of replicas. A fetch starts, takes its
snapshot in any second after that, and returns later; anything may happen between.

**Kernel parameters and regrouping.** `KernelParams` has the search-and-replace of
S3 addresses and the adding of one parameter, `SigningLaws` what becomes of the two
parameters with such an address and of all others, `BuildParams` the chain of parameters
that a boot script gets; `Regroup` collects what was read per MAC,
xname and NID into one entry per configuration.

Row ids are numbers handed out by a counter, which models UUIDs that are fresh and
never blank. What an operation gets from outside is a parameter: the hash of a path
(only its hexadecimal format is assumed, and collisions are allowed except where a
row says otherwise), the clock, the result of a fetch, the signer of addresses, a
fresh token, and what the state manager knows. Loops over Go maps take keys in
arbitrary order. Strings of keys are byte strings. `jsonpatch.MergePatch` is taken
to be the algorithm of RFC 7396, and range scans to be half open.

Where the code and its documentation disagree the model follows the code:

- `Update` never deletes a config or group, despite its comments
  (internal/postgres/bootparams.go:1741-1770): every group it looks at was found
  through a selected node.
- `Update` can store the same content twice when it patches two groups to the same
  new content (internal/postgres/bootparams.go:1795-1832).
- `Add`, and so `Set`, adds nodes for the first kind of selector only, in the order
  hosts, MACs, NIDs (internal/postgres/bootparams.go:1427-1540).
- `Set` names the nodes to update by the identities of those it found
  (internal/postgres/bootparams.go:1938-1948): it also updates nodes that share one
  with them, and, when they have none, such as a node with NID 0 alone, every node.
- The MAC and NID branches of `Delete` report every id twice
  (internal/postgres/bootparams.go:1599-1632); results are stated about id sets.
- The scan for host entries passes over names such as `~` or a blank one, which
  store requests accept (cmd/boot-script-service/default_api.go:480-505), so removing
  an image can leave a reference behind (cmd/boot-script-service/boot_data.go:328-343).
- A key-value store request that names nothing builds an error and then drops it
  (cmd/boot-script-service/boot_data.go:629-632).
- A key-value update of MACs that the state manager does not know skips them, and
  with no host left changes the parameters of the image instead
  (cmd/boot-script-service/boot_data.go:679-736).

## Model

| member | source | states |
|---|---|---|
| `StoreLaws.UpdateRefinesOverlay` | internal/postgres/bootparams.go:1641-1898 | on well-formed tables an update gives every selected node its old (kernel, initrd, params) overlaid by the non-blank fields of the request and leaves every other node its own, also when they shared a group; the result does not depend on any iteration order |
| `StoreLaws.UpdateKeepsDeduplicatedIff` | internal/postgres/bootparams.go:1707-1722 | after an update no two groups hold the same content, if none did before, exactly when the patch does not merge two touched contents into one that is not stored yet |
| `DedupMishap.UpdateStoresTwice` | internal/postgres/bootparams.go:1795-1832 | after adds for two NIDs with different parameters, an update of both to the same parameters leaves two groups with the same content |
| `StoreLaws.UpdateInsertsOnePairEach` | internal/postgres/bootparams.go:1749-1832 | an update inserts exactly one group per touched group whose overlaid content is not stored, and deletes none |
| `StoreLaws.AddRefinesExtension` | internal/postgres/bootparams.go:784-884 | an add keeps every node's configuration and gives each added node the requested one |
| `StoreLaws.AddKeepsDeduplicated` | internal/postgres/bootparams.go:802-832 | an add keeps the stored contents pairwise different: the search for an existing group misses none |
| `RequestLaws.AddInPlainWords` | internal/postgres/bootparams.go:1427-1540 | an add is refused as a duplicate exactly when every given host, or else MAC, or else NID has a node, and else for want of a kernel; once done each has one, each new node carries one of these identities, which no old node had, and nothing else, with the requested configuration, and no old node changes |
| `RequestLaws.AddCounts` | internal/postgres/bootparams.go:1427-1540 | it makes exactly one node for each selector of that kind that had none |
| `RequestLaws.UpdateInPlainWords` | internal/postgres/bootparams.go:1641-1898 | an update is refused when a selector names no node, for a blank request or without any node, in this order; once done each given field replaces the old one in the named nodes (all nodes without selectors), the others stay, and no other node changes |
| `RequestLaws.MissingInPlainWords` | internal/postgres/bootparams.go:242-284 | a refused update lists exactly the selectors that name no node |
| `RequestLaws.SetInPlainWords` | internal/postgres/bootparams.go:1905-1974 | a set is refused for a blank request, and else when a selector names no node and there is no kernel; else all nodes stay, and a new one carries an identity that was missing, with what was given |
| `DeleteLaws.RemovedRefinesRestriction` | internal/postgres/bootparams.go:1354-1419 | taking nodes out together with groups that only they use restricts the map, keeps the tables well formed, and stores no content twice if none was |
| `DeleteLaws.DeleteRefinesRestriction` | internal/postgres/bootparams.go:1354-1419 | a delete by node removes exactly the matching nodes from the map |
| `DeleteLaws.DeleteKeepsOrphans` | internal/postgres/bootparams.go:1373-1409 | a delete by node removes a group exactly when it loses its last node: groups that had no node stay, and no new ones are left behind |
| `DeleteLaws.DeleteItemsRefinesRestriction` | internal/postgres/bootparams.go:998-1121 | a delete by configuration removes exactly the nodes whose configuration matches every non-blank field |
| `RequestLaws.DeleteItemsInPlainWords` | internal/postgres/bootparams.go:998-1121 | said without the filter: a delete by configuration is always accepted, and exactly those nodes stay in which an update with the same fields would change something |
| `RequestLaws.DeleteInPlainWords` | internal/postgres/bootparams.go:1548-1635 | a delete takes the nodes with one of the given xnames, or else of the given MACs in any case of letters, or else of the given NIDs, and is refused, with the tables untouched, exactly when there is none |
| `RequestLaws.BlankDelete` | internal/postgres/bootparams.go:1548-1635 | a delete that names nothing does nothing |
| `AddDelete.SelectsNewIff` | internal/postgres/bootparams.go:1427-1635 | after an add its own selectors (hosts, else MACs, else NIDs) find exactly the nodes it inserted if and only if they found none before |
| `AddDelete.AddThenDelete` | internal/postgres/bootparams.go:1427-1635 | a delete with the selectors of the add before it is accepted and leaves the old map without the nodes that these selected already; it gives the old map back exactly when there were none |
| `AddDelete.AddThenDeleteRestoresIff` | internal/postgres/bootparams.go:1427-1635 | it gives the old tables back exactly when, besides, the add did not reuse a group without nodes; where no content is stored twice, that is when no such group held the requested configuration before the add |
| `Identities.AddKeepsIdentitiesIff` | internal/postgres/bootparams.go:1427-1540 | an add keeps MACs (without case), xnames and NIDs unique exactly when the identities it inserts are non-blank and pairwise different |
| `SetHits.RebuiltFindsHits` | internal/postgres/bootparams.go:1938-1963 | the selectors that a set rebuilds from the nodes it found select exactly the nodes that share a MAC, xname or NID with one of these, or every node when these have no identity at all |
| `SetHits.HitsSelectedIff` | internal/postgres/bootparams.go:1938-1963 | these are exactly the nodes that the request selects if and only if every selected node has an identity and shares none with the others, or none has one and all nodes are selected |
| `SetLaws.SetRefines` | internal/postgres/bootparams.go:1905-1974 | on any tables with MACs in lower case a set is refused exactly for a blank request or when it would add a node without a kernel, and then changes no table; else the nodes it hits get the overlay, added ones exactly the request, and nothing else changes |
| `SetLaws.SetIsOverlayIff` | internal/postgres/bootparams.go:1905-1974 | the outcome is the overlay on the selected nodes, with the added ones, exactly when every node that is hit but not selected, or selected but not hit, has the requested fields already |
| `SetLaws.SeparatedSetIsOverlay` | internal/postgres/bootparams.go:1905-1974 | in particular when the selected nodes have identities that no other node has |
| `SetMishap.SetHitsUnselected` | internal/postgres/bootparams.go:1938-1963 | after adds for NID 0 and for NID 5, a set for NID 0 alone changes the configuration of NID 5 as well |
| `SetTwice.SetCoversAllIff` | internal/postgres/bootparams.go:1905-1963 | after a set every selector of the request has a node exactly when the missing selectors of the kinds that it does not add name nothing, or only the blank that the added rows have there |
| `SetTwice.SetIdempotentIff` | internal/postgres/bootparams.go:1905-1974 | repeating a set is accepted, and leaves the map alone exactly when the first left no selector without a node, and did not add nodes without identity only, by which the second hits all nodes, unless these have the requested fields |
| `SetMishap.SecondSetAdds` | internal/postgres/bootparams.go:1905-1963 | for a new host and a new MAC in one request the first set adds the host only and the second adds the MAC |
| `SetMishap.SecondSetHitsAll` | internal/postgres/bootparams.go:1938-1963 | for NID 0 alone, not stored yet, the second set changes every other node |
| `StoreRuns.EveryRunIsWellFormed` | internal/postgres/bootparams.go:784-1974 | after any run of the four operations each node has exactly one assignment to an existing group with a config, groups and configs are one to one, groups are named after their config, and MACs are in lower case |
| `RequestLaws.EveryRunStoresSmall` | internal/postgres/bootparams.go:81 | after any run no stored MAC holds a capital letter from A to Z |
| `RequestLaws.LowerSameIff` | internal/postgres/bootparams.go:268 | two MACs have one lower-case form exactly when they are equal letter by letter, but for capital and small |
| `RequestLaws.AddIgnoresCase` | internal/postgres/bootparams.go:1495-1512 | adds of MACs that differ in case only have the same outcomes |
| `RequestLaws.DeleteIgnoresCase` | internal/postgres/bootparams.go:1590-1604 | so have deletes |
| `RequestLaws.UpdateIgnoresCase` | internal/postgres/bootparams.go:268-309 | and updates, where a refusal lists the MACs as the request spells them |
| `RequestLaws.SetIgnoresCase` | internal/postgres/bootparams.go:1905-1974 | and sets |
| `StoreRefinement.StepRefines` | internal/postgres/bootparams.go:784-1974 | each operation answers, refusals included, as its simple counterpart on a plain map from nodes to configurations, and does the same to the map |
| `StoreRefinement.EveryRunRefines` | internal/postgres/bootparams.go:784-1974 | whatever the requests, the map after a run is what the same run of extensions, overlays and restrictions makes of the empty map |
| `StoreDedup.SetStepDeduplicatedIff` | internal/postgres/bootparams.go:1905-1974 | a set stores no content twice exactly when it does not merge two of the groups it hits into content that is neither stored yet nor added by it |
| `StoreDedup.DeduplicatedRunIff` | internal/postgres/bootparams.go:784-1974 | all along a run of the four operations no two groups hold the same content, if and only if no update or set in it merges groups, which the tables before it and the request tell |
| `StoreRuns.AddDeleteRunsStayDeduplicated` | internal/postgres/bootparams.go:784-884 | runs of add and delete never store the same content in two groups |
| `StoreRuns.PlainRunsKeepIdentities` | internal/postgres/bootparams.go:1427-1540 | in runs whose adds and sets name each identity once and none blank, every MAC, xname and NID leads to at most one node |
| `StoreRuns.PlainRunsSeparate` | internal/postgres/bootparams.go:1905-1974 | so in such runs every set updates exactly the nodes that it selects |
| `StatementSafety.ExtendsKeepsAll` | internal/postgres/bootparams.go:851-881 | tables that only had rows added, for new nodes, give every old node its old configuration |
| `StatementSafety.MidUpdateOldOrNew` | internal/postgres/bootparams.go:1840-1895 | with some of the planned rows inserted and some assignments moved, every node still resolves to its old configuration or, if selected, to its overlay |
| `StatementSafety.MidDeleteKeepsOthers` | internal/postgres/bootparams.go:1354-1419 | with some of the rows of a delete gone, every node that is not deleted still resolves to its own configuration |
| `StatementSafety.SetStagesSafe` | internal/postgres/bootparams.go:1905-1974 | between any two statements of the update inside a set every node that was there before the set resolves to its old configuration or, if it is hit, to its overlay |
| `StatementSafety.HitMeansSelected` | internal/postgres/bootparams.go:1905-1974 | where selected nodes have identities that no other node has, that is old or overlay for the selected nodes and old for all others |
| `UpdatePlan.PlanReuse` | internal/postgres/bootparams.go:1795-1816 | planning a group whose overlaid content is stored keeps every entry of the plan right and apart from the others |
| `UpdatePlan.PlanAdd` | internal/postgres/bootparams.go:1817-1832 | so does planning a group whose overlaid content is new |
| `UpdatePlan.MoveStep` | internal/postgres/bootparams.go:1870-1896 | repointing the listed nodes of one entry moves exactly the assignments of its group's selected nodes |
| `UpdatePlan.MovedIsMidUpdate` | internal/postgres/bootparams.go:1870-1896 | after any subset of the entries has been repointed, the tables are between old and new in the sense of the statement-level safety |
| `UpdatePlan.Finished` | internal/postgres/bootparams.go:1835-1898 | when everything planned is inserted and repointed, the tables are updated as specified |
| `UpdatePlan.AllListed` | internal/postgres/bootparams.go:1800-1832 | the nodes of all planned entries are exactly the selected nodes |
| `TableFacts.SimilarIsComplete` | internal/postgres/bootparams.go:1707-1722 | although the search filters only on the fields of the patch, the overlaid content is among its results exactly when it is stored |
| `RequestLaws.FoundIff` | internal/postgres/bootparams.go:439-505 | a non-blank search finds exactly the contents in which one of its non-blank fields, taken alone, would change nothing |
| `BootDb.BootDb.CheckNodeExistence` | internal/postgres/bootparams.go:242-284 | returns the matching rows, and exactly the selectors of each kind that no row has, in order |
| `BootDb.BootDb.GetNodesByItems` | internal/postgres/bootparams.go:289-345 | returns exactly the rows that match some selector, or all rows when there is none |
| `BootDb.BootDb.GetBootConfigsByItems` | internal/postgres/bootparams.go:439-505 | returns exactly the groups, each once and with its config, that share a requested non-blank field, or all groups for a blank request |
| `BootDb.BootDb.FindStored` | internal/postgres/bootparams.go:802-832 | finds a stored group with exactly this configuration if and only if there is one |
| `BootDb.BootDb.AddBootConfigByNode` | internal/postgres/bootparams.go:784-884 | inserts the nodes and their assignments, and one group with its config exactly when none with the content is stored |
| `BootDb.BootDb.Add` | internal/postgres/bootparams.go:1427-1540 | does what the add relation says for the first kind of selector, reports the inserted pair, and keeps every old node's configuration after every statement |
| `BootDb.BootDb.GroupsLeftEmpty` | internal/postgres/bootparams.go:1377-1392 | returns exactly the groups of the removed assignments that no assignment is left for |
| `BootDb.BootDb.DeleteNodesWithBootConfigs` | internal/postgres/bootparams.go:1354-1419 | deletes the matching nodes, their assignments, and the groups and configs that lose their last node |
| `BootDb.BootDb.DeleteMatching` | internal/postgres/bootparams.go:998-1121 | deletes the matching configs, their groups, and the assignments and nodes of these groups |
| `BootDb.BootDb.Delete` | internal/postgres/bootparams.go:1548-1635 | does what the delete function says, reports the deleted ids, and keeps every other node's configuration after every statement |
| `BootDb.BootDb.GetNodesWithConfigs` | internal/postgres/bootparams.go:508-574 | maps exactly the selected nodes, each to the stored group and config that the joins reach from it |
| `BootDb.BootDb.GetConfigsWithNodes` | internal/postgres/bootparams.go:579-663 | maps exactly the groups of the listed nodes to all nodes in them |
| `BootDb.BootDb.SimilarConfigs` | internal/postgres/bootparams.go:1707-1722 | maps content to a stored group with it, for every content that shares a non-blank field with the patch |
| `BootDb.BootDb.PlanAll` | internal/postgres/bootparams.go:1736-1833 | plans every touched group, in any order; the list of configs to delete stays empty |
| `BootDb.BootDb.InsertPlanned` | internal/postgres/bootparams.go:1850-1866 | inserts exactly the planned pairs, and no statement of it changes what a node resolves to |
| `BootDb.BootDb.RepointAll` | internal/postgres/bootparams.go:1870-1896 | moves exactly the assignments of the entries' nodes, in any order of the entries, and reports their ids |
| `BootDb.BootDb.Update` | internal/postgres/bootparams.go:1641-1898 | does what the update relation says, refuses with every table untouched for a missing selector, a blank request or no node, reports the selected ids, and leaves every node with its old configuration or its overlay after every statement |
| `BootDb.BootDb.ReadForSet` | internal/postgres/bootparams.go:1915-1948 | reads which selectors have no node, and the non-blank identities of the nodes that the others find |
| `BootDb.BootDb.Set` | internal/postgres/bootparams.go:1905-1974 | does what the set relation says: an add of what is missing, then an update of what was there; after every statement every node that was there keeps its old configuration or, if it is hit, has its overlay |
| `KvSpec.ImageKeyScanned` | cmd/boot-script-service/boot_data.go:101-105 | the key of an image is one that the scan for images of its type finds |
| `KvSpec.KeysApart` | cmd/boot-script-service/boot_data.go:87-105 | no key is both a kernel and an initrd key, or an image and a host key |
| `KvSpec.OneKeyPerPath` | cmd/boot-script-service/boot_data.go:107-122 | under the interning invariant no two keys of a type hold the same path |
| `KvRequestLaws.WhereThingsAre` | cmd/boot-script-service/boot_data.go:87-105 | host entries are under /params/ with the name, images under /kernel/ or /initrd/ with the hash of the path |
| `KvRequestLaws.NidNameIff` | cmd/boot-script-service/boot_data.go:234-236 | the name of a NID is "nid" with its decimal number |
| `KvLaws.InternKeepsInterned` | cmd/boot-script-service/boot_data.go:206-232 | interning keeps the invariants, and the key it returns leads to the path, even when two paths share a hash |
| `KvLaws.InternKeepsImagesIff` | cmd/boot-script-service/boot_data.go:206-232 | interning leaves every stored image as it was exactly when the key of the path does not hold another path |
| `KvLaws.StoreRefines` | cmd/boot-script-service/boot_data.go:548-636 | where every reference resolves, a store request does to the keys what its counterpart does to host entries with image paths and to image parameters |
| `KvLaws.UpdateRefines` | cmd/boot-script-service/boot_data.go:639-742 | so does an update request, refused or not |
| `KvRevival.StoreRefinesIff` | cmd/boot-script-service/boot_data.go:548-636 | on any store that runs can reach that is so exactly when the request stores no image that an entry, which it does not write, still refers to from before the image was removed |
| `KvRevival.UpdateRefinesIff` | cmd/boot-script-service/boot_data.go:639-742 | and likewise for an update request |
| `KvRemoval.ImageRemovalIff` | cmd/boot-script-service/boot_data.go:311-346 | removing an image clears every reference to it and changes nothing else, and the invariant survives, exactly when every host entry that uses it has a name the scan finds |
| `KvRemoval.RemoveRefines` | cmd/boot-script-service/boot_data.go:238-346 | on any store that runs can reach a remove request does what its counterpart does: hosts leave, and the paths of removed images are cleared, as far as one can see by looking images up |
| `KvRemoval.RemoveInternedIff` | cmd/boot-script-service/boot_data.go:238-346 | references in all host entries resolve after it exactly when no entry that stays, and that the scan passes over, uses a removed image |
| `KvRuns.EveryRunIsSound` | cmd/boot-script-service/boot_data.go:206-742 | after any run of store, update and remove, whatever the names and hash collisions or not, no two keys of a type hold one path, and every reference of a host entry that the scan finds resolves |
| `KvRuns.InternedThroughoutIff` | cmd/boot-script-service/boot_data.go:206-742 | all along a run every reference of every host entry resolves, if and only if no remove in it overlooks an entry that uses an image it removes |
| `KvRuns.NamedRunOverlooksNone` | cmd/boot-script-service/boot_data.go:187-194 | that is so when entries are stored under names that start with a character the scan covers |
| `KvRuns.RunRefinesIff` | cmd/boot-script-service/boot_data.go:206-742 | all along a run on paths without hash collisions the store means exactly what the same run of the simple operations yields, if and only if no call stores an image again that an entry, which it does not write, still refers to |
| `KvRuns.RunRefines` | cmd/boot-script-service/boot_data.go:206-742 | in particular when no remove overlooks an entry |
| `KvMishap.OverlookedReference` | cmd/boot-script-service/boot_data.go:311-346 | storing a kernel for host `~` and removing it leaves a reference to nothing, and storing the kernel for another host gives it back to the first |
| `KvRuns.StoreThenLookup` | cmd/boot-script-service/boot_data.go:548-636 | a lookup of a stored host returns the stored parameters, both paths, cloud-init data and token |
| `KvRequestLaws.StoreInPlainWords` | cmd/boot-script-service/boot_data.go:548-636 | a store request that names hosts, or else MACs, or else NIDs writes exactly the entries of these hosts, of the components that the state manager knows for them, or under the MAC or the name of the NID, with its parameters, paths, cloud-init data and token; every other host entry stays |
| `KvRequestLaws.StoreByMac` | cmd/boot-script-service/boot_data.go:586-605 | for a known MAC the entry is that of its component, and that of the MAC itself stays as it was unless it is the id of a MAC of the request |
| `KvRequestLaws.StoreByNid` | cmd/boot-script-service/boot_data.go:606-624 | for a NID the entry is that of its component, or else the one under its name |
| `KvRequestLaws.StoreForImage` | cmd/boot-script-service/boot_data.go:625-636 | a request that names no host gives its parameters to the kernel, or else to the initrd, and changes no host entry |
| `KvImageLaws.StoreImagesInPlainWords` | cmd/boot-script-service/boot_data.go:206-232 | the images of a store request are there afterwards, with the given parameters when it names no host, and else with their own or none; every other image stays |
| `KvRequestLaws.LookupGivesImage` | cmd/boot-script-service/boot_data.go:1051-1068 | a host is served the parameters, cloud-init data and token of its entry and the image under each of its references |
| `KvRuns.StoreKeepsOtherLookupsIff` | cmd/boot-script-service/boot_data.go:548-636 | and a lookup of any other host answers as before, when no path loses its key, exactly when no reference of it comes back to life |
| `KvStore.NothingGoneIff` | cmd/boot-script-service/boot_data.go:238-292 | a remove request reports no missing host exactly when every name has an entry and none is named twice |
| `KvStore.FirstGoneIff` | cmd/boot-script-service/boot_data.go:238-292 | what is reported is the first name without an entry or named before |
| `KvRequestLaws.RemoveInPlainWords` | cmd/boot-script-service/boot_data.go:238-292 | a remove request takes out exactly the entries of its hosts, of the components of MACs that the state manager knows, and of NIDs or their names |
| `KvRequestLaws.RemoveTakesStored` | cmd/boot-script-service/boot_data.go:238-292 | with the selectors of a store, of one kind and MACs known, it takes out exactly what the store wrote |
| `KvImageLaws.RemoveEntriesInPlainWords` | cmd/boot-script-service/boot_data.go:294-346 | an entry that stays keeps all but the paths of the removed kernel and initrd |
| `KvImageLaws.RemoveImagesInPlainWords` | cmd/boot-script-service/boot_data.go:294-346 | a remove takes out the kernel and the initrd of the request and no other image |
| `KvImageLaws.RemoveOrder` | cmd/boot-script-service/boot_data.go:254-279 | it goes through hosts, then known MACs, then NIDs |
| `KvRequestLaws.AcceptedIff` | cmd/boot-script-service/boot_data.go:661-704 | an update is accepted exactly when every entry that it is about is there: those of its hosts, and for known MACs and NIDs that of the component or else the one under the MAC or NID name |
| `KvRequestLaws.UpdateInPlainWords` | cmd/boot-script-service/boot_data.go:639-742 | then exactly these are patched, each non-blank field replacing the old one and cloud-init data part by part, and else no host entry changes |
| `KvRequestLaws.UpdateTakesStored` | cmd/boot-script-service/boot_data.go:639-742 | right after a store an update with the same selectors, of one kind and known, is accepted and is about exactly what the store wrote |
| `KvImageLaws.UpdateImagesInPlainWords` | cmd/boot-script-service/boot_data.go:729-742 | an update gives its parameters to an image exactly when it is about no host entry |
| `KvImageLaws.UpdateReports` | cmd/boot-script-service/boot_data.go:661-704 | a refused update reports the first host without an entry, and when all have one the MAC before the NIDs |
| `KvStore.KvStore.GetRange` | cmd/boot-script-service/boot_data.go:192-194 | returns exactly the pairs with a key in the half-open range |
| `KvStore.KvStore.ImageFind` | cmd/boot-script-service/boot_data.go:196-202 | returns the key of a path exactly when the path is stored |
| `KvStore.KvStore.ImageStore` | cmd/boot-script-service/boot_data.go:206-232 | returns the key of the path, storing the path when it is new |
| `KvStore.KvStore.Store` | cmd/boot-script-service/boot_data.go:548-636 | writes the entries of hosts, else of MACs, else of NIDs, else the parameters of an image; a request that names nothing is accepted and does nothing |
| `KvStore.KvStore.CheckAll` | cmd/boot-script-service/boot_data.go:661-704 | collects the entry of every chosen host, or stops at the first one without an entry |
| `KvStore.KvStore.PatchAll` | cmd/boot-script-service/boot_data.go:706-728 | patches exactly the collected entries, writing back those that change, in any order |
| `KvStore.KvStore.Update` | cmd/boot-script-service/boot_data.go:639-742 | is refused exactly when a chosen host has no entry, naming the first, and else patches exactly the chosen entries, or an image when none was chosen |
| `KvStore.KvStore.RemoveHosts` | cmd/boot-script-service/boot_data.go:242-279 | deletes the entries of all names and reports the first that was gone |
| `KvStore.KvStore.ClearReferences` | cmd/boot-script-service/boot_data.go:329-343 | clears the references to the image in exactly the scanned host entries |
| `KvStore.KvStore.Remove` | cmd/boot-script-service/boot_data.go:238-292 | removes hosts and images in this order, going on after an error; references stay whole exactly when the scan overlooks none |
| `KvStore.KvStore.BdConvertUsingImageCache` | cmd/boot-script-service/boot_data.go:1023-1049 | returns what the plain conversion returns, without the referral token; the memo stays a part of the store and only grows |
| `KvStore.KvStore.ConvertAll` | cmd/boot-script-service/default_api.go:335-339 | a sequence of conversions sharing one memo gets for each entry what the conversion without a memo returns |
| `KvStore.KvStore.Lookup` | cmd/boot-script-service/boot_data.go:994-1021 | converts the first entry found under the name, the alternate name, the role and the default tag |
| `Backends.BackendsAgree` | cmd/boot-script-service/boot_data.go:639-742 | from states that mean the same, and with no dangling reference to an image of the request, a non-blank update of xnames is refused by both backends with no configuration changed, or done by both with the same overlay as result |
| `KeyRanges.ScanIff` | cmd/boot-script-service/boot_data.go:187-194 | the scans between the lowest and highest key find exactly the keys with the prefix whose next byte is at least a space and below a tilde |
| `KeyRanges.ScansDisjoint` | cmd/boot-script-service/boot_data.go:192-194 | the scans under two prefixes, of which neither starts the other, share no key |
| `KeyRanges.PrefixSearchIff` | cmd/boot-script-service/boot_data.go:823-836 | the search for a prefix finds exactly the keys with the prefix if and only if its last byte is below 127 |
| `KeyRanges.SlashSearch` | cmd/boot-script-service/boot_data.go:867-871 | so every search the code makes, with a prefix that ends in a slash, is right |
| `MapTrees.Mapping.MergeFrom` | cmd/boot-script-service/cloudInitAPI.go:116-135 | merging in place, in any order of the keys, leaves in the first map exactly the merge of the two trees; the second map is not changed, and the result is made of maps of both |
| `MapTrees.Mapping.MergeKey` | cmd/boot-script-service/cloudInitAPI.go:119-132 | one round: two maps under a key are merged where the first one is, any other value is replaced or added |
| `CloudInitMerge.PathLaw` | cmd/boot-script-service/cloudInitAPI.go:45-61 | a leaf that the second tree has on a path is what the merge has; two objects are merged; a path the second tree does not define keeps the first tree's answer |
| `CloudInitMerge.LookupSplit` | cmd/boot-script-service/cloudInitAPI.go:45-61 | a path is followed key by key: its second part is looked up from the object that its first part leads to, and the three errors are kept apart |
| `CloudInitMerge.MergeOrderIff` | cmd/boot-script-service/cloudInitAPI.go:118-135 | merging a with b and then c succeeds exactly when b with c and a with that succeed, for b that may follow a |
| `CloudInitMerge.MergeAssociative` | cmd/boot-script-service/cloudInitAPI.go:118-135 | and then both orders give the same tree |
| `CloudInitMerge.OtherGroupingIsWeaker` | cmd/boot-script-service/cloudInitAPI.go:124 | the other grouping can succeed where the first panics |
| `CloudInitMerge.ServedPrecedence` | cmd/boot-script-service/cloudInitAPI.go:182-193 | a query under Global finds global data only; elsewhere a leaf of the node wins, and the role answers exactly where the node does not |
| `CloudInitMerge.PatchIdempotent` | cmd/boot-script-service/boot_data.go:774 | applying a merge patch twice is applying it once, with nulls or without |
| `CloudInitMerge.MergeIsPatchIff` | cmd/boot-script-service/boot_data.go:744-788 | on compatible trees a merge patch is the merge of role and node data exactly when the patch has no null |
| `CloudInitMerge.UpdateCloudData` | cmd/boot-script-service/boot_data.go:744-788 | returns the patched data, and true exactly when it differs from the old |
| `CloudInitMerge.UpdateIsMergePatchIff` | cmd/boot-script-service/boot_data.go:744-788 | the update is the MergePatch of RFC 7396, section 2, exactly when there was data already or the patch has no null |
| `CloudInitMerge.SecondUpdateIff` | cmd/boot-script-service/boot_data.go:744-788 | the same patch a second time reports no change exactly when the first left some data and stored no null as it came |
| `CloudInitMerge.NullStored` | cmd/boot-script-service/boot_data.go:744-788 | a patch that removes a key stores a null where there was no data, unlike the MergePatch of RFC 7396, and the same patch again reports a change |
| `CloudInitMerge.UpdateAgreesWithMergeIff` | cmd/boot-script-service/boot_data.go:744-788 | storing a patch agrees with the merge on compatible trees exactly when nothing was stored or the patch has no null |
| `CloudInitMerge.UpdateCloudInit` | cmd/boot-script-service/boot_data.go:790-804 | patches meta-data, user-data and phone-home data, and returns true exactly when the whole changed |
| `CloudInitMerge.UpdatedParts` | cmd/boot-script-service/boot_data.go:790-804 | meta-data is patched with meta-data and user data with user data, and the phone-home record is replaced when any of its fields is given |
| `CloudInitMerge.PatchPathLaw` | cmd/boot-script-service/boot_data.go:774 | what a path finds after a merge patch: nothing where the patch has a null, any other leaf of the patch, an object of the patch patched into what was there, and else what was there |
| `Refresh.EveryRunIsOk` | cmd/boot-script-service/sm.go:514-530 | after any interleaving no stamp is ahead of the clock or of the start of a running fetch, the id map is the index of the current components, and unless the last fetch failed or one runs, the data is no older than the stamp |
| `Refresh.StampDropsIff` | cmd/boot-script-service/sm.go:514-530 | a stamp goes down exactly when a fetch for an earlier time starts on a replica that never got data |
| `Refresh.StampNeverDrops` | cmd/boot-script-service/sm.go:514-530 | so while fetches succeed no stamp ever goes down |
| `Refresh.Freshness` | cmd/boot-script-service/scn.go:217-238 | once a replica has answered that it is up to date against ts, each of its later answers is a snapshot taken in or after second ts, whenever within a fetch that was, unless the last fetch before it failed |
| `Refresh.FreshWhenFetchesSucceed` | cmd/boot-script-service/scn.go:217-238 | without failing fetches that holds for every later answer |
| `Refresh.NotificationIsActedOn` | cmd/boot-script-service/scn.go:205-238 | a notification that is stored and read makes a replica refresh as of its second exactly when its stamp is earlier |
| `Refresh.ForcedFetches` | cmd/boot-script-service/scn.go:217-238 | a forced refresh, once pending, is never answered from the cache, only by a fetch of its own |
| `Refresh.ForcedAnswerIsNew` | cmd/boot-script-service/sm.go:517 | when that fetch succeeds the data is a snapshot from no earlier than its start, which is the stamp |
| `Refresh.StaleAnswerIff` | cmd/boot-script-service/sm.go:514-530 | after the answer "up to date" against ts, some continuation serves data from before ts exactly when the replica holds such data |
| `Refresh.StaleAtOnceIff` | cmd/boot-script-service/sm.go:514-530 | a request that waits for no fetch is answered with it exactly when, besides, no fetch is running; then the last one failed |
| `Refresh.FailedFetchGoesUnnoticed` | cmd/boot-script-service/sm.go:514-530 | a run with one failing fetch in which a replica answers that it is up to date and then serves older data |
| `Refresh.FetchIsRequest` | cmd/boot-script-service/sm.go:514-530 | whatever runs between start and return of a fetch, the two leave the cache as the whole request does, with the stamp of the start and a snapshot of any second up to the return |
| `SmCache.SearchesAgreeIff` | cmd/boot-script-service/sm.go:560-578 | the search of the list and the lookup in the id map agree on every name exactly when the first and the last component of each id are equal |
| `SmCache.MakeSmMap` | cmd/boot-script-service/sm.go:80-86 | maps each id to its last component |
| `SmCache.FindByName` | cmd/boot-script-service/sm.go:568-578 | returns the first component with the id |
| `SmCache.StateManager.ProtectedGetState` | cmd/boot-script-service/sm.go:514-530 | fetches exactly when the time asked for is negative, which forces it, or after the stamp, or when there is no data; the stamp is then that time, or the current one when none is given, and the data what the fetch brought; after a successful fetch, whose snapshot may come from any second since the request began, the data is no older than what was asked for and the stamp has not gone down |
| `SmCache.StateManager.FindXnameByIP` | cmd/boot-script-service/sm.go:590-611 | while fetches succeed, a found address comes from data at most ten minutes old, and one not found is not in data taken since the second look began |
| `KernelParams.ReplaceS3Params` | cmd/boot-script-service/default_api.go:103-135 | returns the result of the replacements one after the other, which is the replacement of every match where it stands, and reports an address that cannot be signed |
| `KernelParams.ReplacesInPlace` | cmd/boot-script-service/default_api.go:116-134 | searching the whole line for the first occurrence of each match replaces every match where it stands, up to the first that cannot be signed, when signed addresses have no space and are no S3 addresses |
| `KernelParams.ReplaceIsTokenWiseIff` | cmd/boot-script-service/default_api.go:80 | then the rewriting signs each matching token on its own and leaves all others alone exactly when no token "metal" is followed by one that starts with "server=s3://" |
| `SigningLaws.ParamInLine` | cmd/boot-script-service/default_api.go:80-135 | root=live: or metal.server= with an S3 address has the address signed, with the key kept, alone, first, last and anywhere in the line, whatever the rest of it is |
| `SigningLaws.PlainInLine` | cmd/boot-script-service/default_api.go:80-135 | every other token stays as it is anywhere in the line, unless it is one half of a key split at its dot |
| `SigningLaws.RefusedEnds` | cmd/boot-script-service/default_api.go:116-134 | an address that cannot be signed ends the rewriting: the one before it is signed, and it and everything behind it stay |
| `KernelParams.SignedTwice` | cmd/boot-script-service/default_api.go:126-128 | with signed addresses that are S3 addresses again, of two equal parameters the first is signed twice and the second never |
| `KernelParams.JoinSplit` | cmd/boot-script-service/default_api.go:594 | splitting a command line at spaces and joining it again gives it back |
| `KernelParams.CheckParam` | cmd/boot-script-service/default_api.go:608-614 | appends the parameter when it has a value and no token starts with its name |
| `KernelParams.ParamTokens` | cmd/boot-script-service/default_api.go:602-614 | the tokens of the result are the old ones, with the new one behind them if it was added |
| `KernelParams.ParamAddedOnce` | cmd/boot-script-service/default_api.go:593-614 | afterwards the parameter is there exactly when it was or has a value, and adding it again changes nothing |
| `BuildParams.Build` | cmd/boot-script-service/default_api.go:679-702 | joins the parameters of the boot data, its kernel and its initrd, and adds xname, NID, referral token, boot interface and data source by one call each, in this order |
| `BuildParams.ChainTokens` | cmd/boot-script-service/default_api.go:602-614 | the tokens after a chain of such calls are the old ones, followed by those of each parameter that has a value and whose name no token starts with by then |
| `BuildParams.AllDueAddedIff` | cmd/boot-script-service/default_api.go:602-614 | every parameter that was due at the start is added, in order, exactly when no due one brings a token that starts with the name of a later due one |
| `BuildParams.SpecialsAdded` | cmd/boot-script-service/default_api.go:687-702 | with values without spaces the script builder adds exactly those of the five parameters that have a value and whose name no token of the boot data starts with, as one token each |
| `BuildParams.SpecialsInPlainWords` | cmd/boot-script-service/default_api.go:687-702 | written out: xname=, nid=, bss_referral_token=, BOOTIF= with 01- and the MAC with dashes, and ds=nocloud-net;s= with the address and a slash |
| `BuildParams.BaseTokens` | cmd/boot-script-service/default_api.go:679-686 | the tokens they are added to are those of the boot data, then of its kernel, then of its initrd |
| `BuildParams.SpaceCovers` | cmd/boot-script-service/default_api.go:687-702 | an xname with a space in it can keep the NID from being added |
| `Regroup.Regroup` | cmd/boot-script-service/boot_data.go:388-481 | one entry per configuration read, pairwise different, each with its identities of each kind in the order they were read |
| `Regroup.MacsConserved` | cmd/boot-script-service/boot_data.go:405-426 | every MAC is listed under its configuration as often as it was read |

## Left out

- BootDb: SQL text, quoting, row scanning and driver errors are not modelled; each statement is its effect on the tables, and statements do not fail.
- BootDb.BootDb.Add: hosts are node xnames; the node-group names that `Add` and `Delete` also accept are not modelled, since the add path never inserts them.
- Tables: NIDs are unbounded integers, not 32 bits wide, and rows with NULL columns do not occur.
- SetLaws.SetRefines: requires MACs to be stored in lower case, which every run of the four operations keeps (`StoreRuns.EveryRunIsWellFormed`).
- StatementSafety: one operation at a time; two operations running at once on the same tables or keys are not modelled.
- KvStore: errors of the key-value store and the distributed lock are not modelled, and neither are `StoreNew` and the lookups by MAC and NID.
- KvSpec: values are stored as data, not as JSON text; encoding is taken to be a faithful round trip.
- KvLaws.StoreRefines: like the other refinements it assumes that no path in use takes the key of another; without that only the invariants and the lookup of what was just stored are claimed.
- KvRequestLaws.UpdateInPlainWords: so does this, and it requires that the update stores no image that an entry, which it does not write, still refers to; `KvRevival.UpdateRefinesIff` shows that such an entry would change its meaning.
- MapTrees.Mapping.MergeFrom: requires that no map occurs twice in the two trees, which holds for decoded JSON.
- CloudInitMerge.UpdateCloudData: returns the new data instead of writing it through a pointer.
- CloudInitMerge.Merge: requires shape-compatible trees; on others the code panics.
- CloudInitMerge.MergePatch: the library also drops nulls inside arrays of new members; the model keeps arrays as they are.
- Refresh.Freshness: all replicas read one clock, and a fetch brings one snapshot, of some second between its start and its return, or fails as a whole.
- SmCache.Component: only the fields the index and the searches use; MAC collection, the canned test data and the notification subscription are left out.
- KernelParams: the regular expression engine, the URL signer and the rest of the script builder are left out, among them the join token and the removal of an old initrd parameter.
- Regroup.MacsConserved: stated for MACs; xnames and NIDs are handled by the same loop, and `Regroup` itself states the contents of all three.
- HTTP handlers, routing, authentication, logging, endpoint history, migrations and flag parsing are not part of this model.
