# Lab inventory reconciliation, modelled in Dafny

This project models the two dynamic-inventory plugins of the `grid` collection.
`lab_db` reads from MongoDB and `lab_psql` reads from PostgreSQL. Each turns
fetched database records into an Ansible host/group inventory. The model keeps
the reconciliation logic of each plugin and treats the fetched records as
inputs. Ansible's inventory object becomes an immutable graph:

- a map from host fully-qualified name (`hostname ++ domain`) to host variables,
  whose keys are the host nodes;
- a set of group names;
- a set of group-to-host membership edges.

Modules:

- `Inventory` (`inventory.dfy`) holds the graph, the tagged `Value` union for
  stored fields with Python truthiness, the error kinds (`EmptyDataset`,
  `MissingField`) and `Result`, and the domain suffixing `Fqdn`, which is
  proved injective for a fixed domain.
- `LabDb` (`lab_db.dfy`) models the document-style path.
  - The emptiness checks of the fetch come first: groups, then machines.
  - The machine pass (`Step`, `MachinePass`) adds every active machine as a host.
    Its variables are every field except `hostname`. It also filters every
    inactive machine's hostname out of every group's member list.
  - The group pass (`GroupNodes`, `MemberEdges`) then adds a node per group and
    an edge per surviving member.
  - A record without `hostname` fails exactly where the Python code raises
    `KeyError`. An active record always fails. An inactive record fails only
    when some group still has a member to compare with.
- `LabPsql` (`lab_psql.dfy`) models the relational-style path.
  - The fetched rows are bucketed by group (`GroupRows`, `Append`). The buckets
    form an insertion-ordered sequence, like the Python dictionary.
    - A null group goes to `"ungrouped"`.
    - A row whose width is not 2 is skipped.
    - An empty grouping is an error (`FetchMemberships`).
  - The graph-building loop (`ParseRelational`, `AddBucket`) works over the
    buckets with the deny list, as nested loops.

Both builders are deterministic functions of their inputs. Running one twice on
the same records gives the same graph by construction.

Behaviour of the code worth noting:

- Every field except `hostname` becomes a host variable, `active` included.
  A record `{hostname: "a", active: true}` gives host `a.x` with the variable
  `active = true` (`LabDb.ActiveMachineExample`).
- If several active records share a hostname, their variables are merged key by
  key, and a later record wins for each key (`LabDb.LastActiveRecordWins`,
  `LabDb.HostVarsKeys`). This is what repeated `set_variable` calls do.
- A later inactive record with the same hostname filters that name out of the
  groups. The host node an earlier active record created stays
  (`LabDb.HostNodesComeFromActiveRecords`).
- Whether the machine pass fails can depend on the order of the records: a
  record without `hostname` fails only while some group still has a member
  (`LabDb.OrderDecidesFailure`).
- The document path adds an edge for every surviving member, whether or not
  that member is a host, so dangling edges occur (`LabDb.DanglingEdge`).
  The relational path has no dangling edges (`LabPsql.BuildFromRows`).
- The relational path fails only when the grouping is empty. A null group is
  not an error: it becomes `"ungrouped"`, and a group that is really named
  `"ungrouped"` shares that bucket (`LabPsql.GroupKey`).
- The deny list is matched exactly and case-sensitively on the bare hostname.

## Model

| member | source | states |
|---|---|---|
| Inventory.FqdnInjective | grid/plugins/inventory/lab_db.py:116 | Appending the configured domain never makes two different bare hostnames share a fully-qualified name. |
| Inventory.QualifyMembership | grid/plugins/inventory/lab_db.py:116-117 | `h ++ domain` is among the qualified names of a set exactly when `h` is in the set. |
| LabDb.Without | grid/plugins/inventory/lab_db.py:112-114 | The filtered member list holds exactly the original members whose hostname is not retracted, and is no longer than the original. |
| LabDb.WithoutConcat | grid/plugins/inventory/lab_db.py:112-114 | Filtering distributes over concatenation, so survivors keep their relative order. |
| LabDb.WithoutCount | grid/plugins/inventory/lab_db.py:112-114 | Each hostname that is not retracted occurs after filtering as often as before; a retracted one occurs zero times. |
| LabDb.WithoutTwice | grid/plugins/inventory/lab_db.py:110-114 | Filtering by one set and then another equals filtering once by their union, so successive retractions commute. |
| LabDb.WithoutNoneDead | grid/plugins/inventory/lab_db.py:112-114 | A member list that names no retracted hostname is left unchanged. |
| LabDb.RetractAllTwice | grid/plugins/inventory/lab_db.py:110-114 | Retracting two sets of hostnames from every group, one after the other, equals retracting their union. |
| LabDb.Active | grid/plugins/inventory/lab_db.py:109 | A record without `active` is active. A record with `active` is active exactly when its value is not one Python reads as false: null, `false`, `0`, the empty string or the empty list. |
| LabDb.HostVarsOf | grid/plugins/inventory/lab_db.py:118-120 | A record's host variables are all its fields other than `hostname`, each with its own value, and nothing else. The `hostname` key is kept out by the record's `Fields` type, which holds every key of the document but `hostname`. |
| LabDb.RetractAll | grid/plugins/inventory/lab_db.py:110-114 | Retraction keeps every group, in order, with its name. Each member list keeps exactly the members that are not retracted. |
| LabDb.Step | grid/plugins/inventory/lab_db.py:109-120 | One record fails exactly when it lacks `hostname` and is active or finds a member left to compare with. Otherwise a record without `hostname` changes nothing. An inactive record removes its hostname from every member list and leaves the hosts alone. An active record leaves the groups alone. It makes `h ++ domain` a host and sets its own variables on it. The host keeps every variable earlier records set that this record does not. Every other host stays as it was. An inactive record keeps every group's name and position. |
| LabDb.MachinePass | grid/plugins/inventory/lab_db.py:108-120 | After the machine pass, the host nodes are exactly `h ++ domain` for the active records' hostnames. The groups are the input groups with every inactive record's hostname filtered out. No host has a `hostname` variable. A failure is always the missing `hostname` field. |
| LabDb.MachinePassFails | grid/plugins/inventory/lab_db.py:108-117 | The machine pass fails exactly when some record lacks `hostname` and is either active or met while some group still has a member to compare it with. |
| LabDb.HostVarsKeys | grid/plugins/inventory/lab_db.py:116-120 | Host `h ++ domain` has variable `k` exactly when some active record named `h` has field `k` other than `hostname`. |
| LabDb.LastActiveRecordWins | grid/plugins/inventory/lab_db.py:108-120 | A host variable takes its value from the last active record of that hostname that sets it. |
| LabDb.SoleActiveRecord | grid/plugins/inventory/lab_db.py:116-120 | A hostname with a single active record gets exactly that record's fields, `hostname` aside, as variables. |
| LabDb.RetractionOrderIndependent | grid/plugins/inventory/lab_db.py:108-114 | When two orderings of the same machine records both succeed, they give the same retracted groups and the same host nodes. Which orderings succeed can differ (`OrderDecidesFailure`). |
| LabDb.OrderDecidesFailure | grid/plugins/inventory/lab_db.py:108-115 | Take group `g` with member `a`, an inactive `a` and an inactive record without `hostname`. With `a` first, the pass succeeds, because `g` has no member left when the nameless record is met. In the other order, it fails. |
| LabDb.RetractionOnlyTouchesMembers | grid/plugins/inventory/lab_db.py:110-114 | Retraction keeps the number of groups, their order and their names. Each hostname's count in a member list is unchanged unless an inactive record retracts it, and then it is zero. |
| LabDb.GroupNodes | grid/plugins/inventory/lab_db.py:122-124 | The group pass makes exactly one node per group record's name, including groups with no members. |
| LabDb.GroupEdges | grid/plugins/inventory/lab_db.py:125-126 | One group's edges are exactly those from the group to `member ++ domain` for each listed member. |
| LabDb.MemberEdges | grid/plugins/inventory/lab_db.py:122-126 | The edges over all groups are exactly the pairs (group name, `member ++ domain`) for each group and each of its members. |
| LabDb.BuildFromDocuments | grid/plugins/inventory/lab_db.py:108-150 | An empty group collection is reported before an empty machine collection. Otherwise the build fails exactly as the machine pass does, so it succeeds whenever every record has a hostname. On success, the hosts are the active records' fqdns, with no `hostname` variable. Their variables are those the machine pass produced, so `HostVarsKeys`, `LastActiveRecordWins` and `SoleActiveRecord` describe them. The groups are all group names. The edges run to `member ++ domain` for every member not retracted. |
| LabDb.HostNodesComeFromActiveRecords | grid/plugins/inventory/lab_db.py:108-117 | `h ++ domain` is a host exactly when some active record is named `h`. An inactive record neither creates nor removes a host. |
| LabDb.DanglingEdge | grid/plugins/inventory/lab_db.py:125-126 | A member with no machine record still gets an edge, to an fqdn that is not a host node. |
| LabDb.ActiveMachineExample | grid/plugins/inventory/lab_db.py:108-126 | Group `g` with member `a` and active machine `a`, domain `.x`: the only host is `a.x`, with the single variable `active`; the only group is `g`, with member `a.x`. |
| LabDb.InactiveMachineExample | grid/plugins/inventory/lab_db.py:108-126 | The same machine marked inactive: there are no hosts, and `g` remains with no members. |
| LabPsql.GroupKey | grid/plugins/inventory/lab_psql.py:128 | A group resolves to the bucket `"ungrouped"` exactly when it is null or is named `"ungrouped"`. Any other group keeps its own name. |
| LabPsql.Append | grid/plugins/inventory/lab_psql.py:129-131 | Appending a hostname under `k` adds `k` to the bucket names, if it is not there yet, and adds exactly one hostname in total. |
| LabPsql.GroupRows | grid/plugins/inventory/lab_psql.py:125-131 | The buckets are named by exactly the resolved groups of the well-formed rows. They hold one hostname per well-formed row. |
| LabPsql.AppendKeyOrder | grid/plugins/inventory/lab_psql.py:129-131 | Appending under an existing key keeps the key order. A new key is added at the end. |
| LabPsql.AppendLookup | grid/plugins/inventory/lab_psql.py:129-131 | Appending adds exactly one hostname, at the end of its key's list, and leaves every other list unchanged. |
| LabPsql.AppendDistinct | grid/plugins/inventory/lab_psql.py:129-130 | Appending never creates a second bucket with an existing name. |
| LabPsql.GroupRowsNames | grid/plugins/inventory/lab_psql.py:125-131 | The grouping has one bucket per resolved group name of a well-formed row, a null group resolving to `"ungrouped"`, and no name twice. |
| LabPsql.GroupRowsLists | grid/plugins/inventory/lab_psql.py:125-131 | The list under each key is the well-formed rows' hostnames resolving to it, in row order. The lists hold as many hostnames in total as there are well-formed rows. |
| LabPsql.MalformedRowsIgnored | grid/plugins/inventory/lab_psql.py:125-127 | Rows whose width is not 2 contribute nothing: the grouping equals the grouping of the well-formed rows alone. |
| LabPsql.BucketMembership | grid/plugins/inventory/lab_psql.py:125-131 | Hostname `h` is listed in bucket `k` exactly when some well-formed row pairs `h` with a group resolving to `k`. |
| LabPsql.FetchMemberships | grid/plugins/inventory/lab_psql.py:122-134 | The fetch fails with an empty-dataset error exactly when no row is well-formed. Otherwise it returns the grouping, with distinct names that are exactly the resolved group names. |
| LabPsql.AddBucket | grid/plugins/inventory/lab_psql.py:104-109 | One bucket's pass adds `h ++ domain`, without variables, as a host, and the edge from the bucket's group to it, for every listed hostname not on the deny list. It adds nothing else. |
| LabPsql.ParseRelational | grid/plugins/inventory/lab_psql.py:101-109 | Every bucket becomes a group node, even when all its hostnames are denied. The hosts and edges are exactly those of the listed hostnames not on the deny list. Hosts carry no variables. |
| LabPsql.AllowedFromRows | grid/plugins/inventory/lab_psql.py:101-131 | The hosts and edges the grouping yields are exactly those described by the well-formed rows whose hostname is not denied. |
| LabPsql.DeniedNeverHost | grid/plugins/inventory/lab_psql.py:104-106 | A hostname on the deny list never yields a host, even when another row would give the same fqdn. |
| LabPsql.BuildFromRows | grid/plugins/inventory/lab_psql.py:97-109 | The build fails exactly when no row is well-formed. On success, the groups are the resolved group names. The hosts are `h ++ domain` for each well-formed row whose `h` is not denied. Each such row gives an edge from its group. No denied hostname is a host, and every edge ends at a host. |
| LabPsql.GroupingExample | grid/plugins/inventory/lab_psql.py:125-131 | Rows `(a, web)` and `(b, null)` are bucketed as `web: [a]` followed by `ungrouped: [b]`. |

## Left out

- Connecting to MongoDB and PostgreSQL, the 2000 ms server-selection probe, and the SQL query text are left out. They are network I/O through client libraries. The fetched lists are inputs.
- The debug JSON dumps to `/tmp` are left out. They are file I/O and do not affect the returned data.
- `verify_file`, configuration loading and `get_option` are left out. They are Ansible framework plumbing. `domain` and the deny list are plain parameters.
- Translating `KeyError`, `ConnectionError` and `ValueError` into `AnsibleParserError` is not modelled. Failures are the error kinds of `Inventory.Error`. Connection failures are not modelled.
- Ansible's `InventoryData` internals are replaced by the abstract graph. `add_host` is idempotent and `set_variable` is a per-key map update. Groups are a set, so Ansible's group insertion order is not kept. Ansible's `add_child` would reject a child that is not a known host. The model keeps the dangling edge as the plugin code requests it.
- Group documents missing `name` or `members`, and member entries missing `hostname`, are not modelled. A group member is its bare hostname string, so the `KeyError` these would raise is not modelled.
- Non-string `hostname` values are not modelled. The f-string would render them through Python's `str`, and a hostname is a string here.
- The relational hostname column is taken as non-null. A full outer join can return a null hostname, which the code would render as the text `None`. The database schema that decides whether this happens is not part of this model.
- The `Value` union covers null, booleans, integers, strings and lists. Floats, nested documents and BSON-specific types are not modelled. Values pass through unchanged; only the truthiness of `active` affects control flow.
- The `DOCUMENTATION` strings and option defaults are declarative metadata and are not modelled.
