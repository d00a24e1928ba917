# Folder hierarchy, IAM binding and project grouping tools — a Dafny model

The repository holds two small command-line tools for a cloud resource-management
service. The folder/IAM tool (`Piyush/main.go`) either walks an organization's folder
hierarchy level by level and reports the IAM bindings of every folder (get mode), or
grants one user one role on one folder, either replacing the folder's policy
(overwrite) or appending to it (merge) (set mode). The project search tool
(`Piyush2/main.go`) groups the names of active projects under their parent resources.

This model replaces every remote call by a function given as a parameter:

- `FolderWalk.Lister`: for a parent, the pages of child folder names the listing delivers, or an error;
- `Iam.PolicyGetter`: a folder's IAM policy, or an error;
- the projects of the one search response the tool reads, which are a `seq<ProjectGroups.Project>`.

An error reply stands for the source's `log.Fatal`. The model does not end a process.
It returns an outcome (`Fatal`, `WalkFatal`, `Aborted`) that names the resource whose
call failed, and then does nothing more.

Files:

- `calls.dfy`: replies of the service (`Reply`) and outcomes of steps that make several calls (`Result`).
- `folder_walk.dfy`: `getFolders` as the method `GetFolders`, proved against the function `ChildrenOf`.
  It also holds the level loop as `WalkHierarchy`, proved against `Level`, `Discovered` and `WalkAt`.
- `get_mode.dfy`: the policy-reporting loop (`ReportPolicies`) and get mode as a whole (`Get`).
- `iam.dfy`: bindings, policies and set mode (`OverwritePolicy`, `MergePolicy`, `SetMode`).
- `project_groups.dfy`: the grouping loop (`GroupActive`), proved against `Grouped`.
  A per-parent filter (`ActiveUnder`) is the independent reference definition for it.

A binding's members are an ordered list (`Members []string`). Merge mode performs no
duplicate check; `MergePolicy` states that the new binding's multiplicity goes up by one.

## Model

| member | source | states |
|---|---|---|
| `FolderWalk.GetFolders` | Piyush/main.go:27-42 | the nested loop over parents, pages and entries returns exactly `ChildrenOf`: every parent's child names in parent order, pages and entries in delivery order, or the first parent whose listing fails; no parents gives the empty list |
| `FolderWalk.ChildrenOfAppend` | Piyush/main.go:30-39 | listing a concatenation of parent lists is listing each part and concatenating the results, and a failure in the first part wins |
| `FolderWalk.FlattenMembership` | Piyush/main.go:31-35 | a name is on the drained pages exactly when it is on one of the pages |
| `FolderWalk.ChildrenOfSucceeds` | Piyush/main.go:30-39 | listing the children succeeds exactly when every parent's own listing succeeds |
| `FolderWalk.FatalIsFirst` | Piyush/main.go:30-39 | a failing listing names the first parent, in parent order, whose listing fails; every parent before it was listed successfully |
| `FolderWalk.ChildrenOfMembership` | Piyush/main.go:28-41 | when the listing succeeds, a name is in the result exactly when some parent's listing succeeded and one of its pages delivers it |
| `FolderWalk.WalkHierarchy` | Piyush/main.go:83-102 | the walk stops at the first level below the organization that is empty or fails (`FirstEnd`). If it finds folders, it returns levels 1 through n-1 concatenated in discovery order. Each level lists the children of the one above. An org listing that comes back empty yields the no-folders outcome, and only then |
| `FolderWalk.FirstEndUnique` | Piyush/main.go:94-98 | the level at which the loop exits is unique, so the walk's outcome depends only on the listing |
| `FolderWalk.EndsStays` | Piyush/main.go:95-98 | once a level is empty or fails, every deeper level is too (failures keep the same resource), so stopping at the first empty round loses nothing |
| `FolderWalk.DiscoveredGrows` | Piyush/main.go:100 | each round only appends: the accumulated list after round k+1 is the list after round k followed by level k+1, so its length never decreases |
| `FolderWalk.DiscoveredMembership` | Piyush/main.go:93-101 | a folder is accumulated exactly when it belongs to one of the levels 1..k |
| `FolderWalk.FoundLevels` | Piyush/main.go:86-101 | a walk that finds folders has at least one non-empty level: every level above the stopping level is non-empty, the stopping level is empty, and the reported list is non-empty |
| `GetMode.ReportPolicies` | Piyush/main.go:104-123 | exactly one policy fetch per folder, in order. It stops at the first failing fetch, which is the last one made. Every folder fetched before it has already had its entry reported, holding that folder's bindings. When no fetch fails, every folder has its entry |
| `GetMode.ReportedUnique` | Piyush/main.go:105-123 | the lookups and the report of the policy loop, including the entries printed before a failure, are determined by the folders and the policy call |
| `GetMode.Get` | Piyush/main.go:79-123 | an organization with no folders yields the empty-organization message and no policy fetch at all. A failed folder listing aborts before any fetch and with nothing reported. Otherwise the policy loop runs over the walk's folders in discovery order |
| `Iam.NewBinding` | Piyush/main.go:131-133 | the new binding grants the given role to the given user alone, with no validation of either string |
| `Iam.OverwritePolicy` | Piyush/main.go:129-139 | the overwrite policy has version 1 and exactly one binding, (role, [user]) |
| `Iam.MergePolicy` | Piyush/main.go:155-159 | merge keeps the version and every fetched binding unchanged and in order. It appends exactly one binding (role, [user]) at the end. That binding's multiplicity rises by one, since nothing checks for duplicates |
| `Iam.SetMode` | Piyush/main.go:126-169 | overwrite writes Policy(1, [(role, [user])]) to the folder with no policy fetch, so no prior binding survives. Merge fetches the folder's policy exactly once, aborts if the fetch fails, and otherwise writes the fetched policy with the binding appended |
| `ProjectGroups.GroupActive` | Piyush2/main.go:51-58 | the single pass over the search results builds exactly `Grouped` |
| `ProjectGroups.GroupedIsFiltered` | Piyush2/main.go:51-58 | the map's keys are exactly the parents of active projects. Each group equals the active projects under that parent, filtered in search order |
| `ProjectGroups.ActiveUnderMembership` | Piyush2/main.go:54-56 | a name is in the reference filter for a parent exactly when an active result with that name has that parent |
| `ProjectGroups.GroupsHoldExactlyActive` | Piyush2/main.go:53-57 | a name is in the group of parent k exactly when some search result is an active project with that name and parent k. So only active projects appear, each one under its own parent |
| `ProjectGroups.NoEmptyGroup` | Piyush2/main.go:51-56 | every key of the map has a non-empty group |
| `ProjectGroups.GroupKeepsOrder` | Piyush2/main.go:53-56 | within a group, names from earlier results come before those from later results, each in its own order |
| `ProjectGroups.InactiveLeavesGroups` | Piyush2/main.go:54 | a result whose state is not ACTIVE leaves the map unchanged |
| `ProjectGroups.TotalIsActiveCount` | Piyush2/main.go:53-57 | the groups hold, all together, as many names as there are active projects |

## Left out

- Credential acquisition and client and service construction (`google.DefaultClient`, `cloudresourcemanager.New`): foreign library calls whose only local effect is a fatal exit on error.
- HTTP transport and pagination mechanics: a listing call is one reply holding all of its pages, or an error. Pages delivered before an error are not modelled, because `log.Fatal` makes them unobservable.
- Later pages of the project search: the tool reads the single response of `reqProj.Do()` (Piyush2/main.go:44-45) and follows no page token, so projects on later search pages never reach the grouping. The model's input is that one response's project list; the one-reply-holding-all-pages reading above applies to folder listings only.
- Process exit: `log.Fatal` is modelled as an outcome that names the failing resource and ends the modelled operation.
- Flag parsing and defaults: flags are plain parameters. `-get` and `-set` are independent checks in the source, so one invocation can run get mode and then set mode. Set mode does not run when get mode ends the process first: after the empty-organization message (the `return` at Piyush/main.go:89) or after a fatal error. The model has the two modes as separate methods, `GetMode.Get` and `Iam.SetMode`, and does not model their sequencing.
- Console output: get mode yields one entry per reported folder holding its bindings, without the text layout. This includes the folders reported before a failing fetch. The project tool's printing is not modelled, and the model does not specify the order in which groups are printed, since Go's map iteration order is random.
- The outcome of the policy-write call itself: `Iam.SetMode` returns the request it issues. An error from the write only ends the process.
- Fields of an IAM policy other than version and bindings (etag, audit configurations), and fields of a binding other than role and members (its condition): merge mode in the source sends them back unchanged inside the fetched policy and its bindings; the model does not carry them.
- Folder records other than their names: a listing delivers only `folder.Name` to the walk.
- FolderWalk.WalkHierarchy: ends only on hierarchies that have a level that is empty or fails. Its ghost `depth` precondition asks for such a level, because the source has no guard against cycles or repeated folders. The model claims no termination on other hierarchies.
- Absence of duplicates in the walk's output: the traversal neither adds nor removes names. Whether names repeat depends on the service returning a tree, which is outside the model.
- The empty `test()` function of `Piyush2/main.go`: it does nothing.
