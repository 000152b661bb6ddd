# Azure runbooks: flattener, type grouping and the Flexible-server start/stop guard

A Dafny model of the pure logic in three Azure Automation runbooks, with proofs
about it.

- **`NestedToSimpleDict`** (AzureInventory.py). This flattens a nested JSON resource record into one flat dict. Its keys are built from the path, joined by a separator.
  - All writes go into one shared dict, so a later write to the same key wins and keeps the key's first position.
  - The model keeps the code's quirks:
    - At record level, a non-empty list of dicts drops its own key.
    - Inside a dict value, such a list keeps its key. One level further down, it drops it again.
    - List indices accumulate: element *i* is named `base_0_1_…_i`. At the top level the base is empty, so the fields of a list's elements are named `_0_name`, `_0_1_name`, … (`FlattenExamples.DiskListExample`).
    - Empty lists, and lists holding any non-dict, are stored as they are.
    - An empty dict writes nothing.
- **`get_resoure_type` / `save_to_excel`**. Both inventory collectors have these.
  - Records are filed into an insertion-ordered dict from `str(type)` to records.
  - The resource-client collector first stamps each typed record with the name of its resource group.
  - Each type gets a sheet label: the text after its last `/`.
  - Types sharing a label are listed under it in first-seen order. Only the first one is written; the records of the later ones are dropped (`Sheets.ExportedIffFirstOfLabel`).
- **`FlexiAuto`** (FlexiRunAs.py and FlexiMID.py, one model for both):
  - the action gives an (expected, desired) state pair;
  - the status read at start-up decides: quit, abort, or send the request;
  - only HTTP 200 and 202 are accepted;
  - the wait loop stops exactly when the desired state is read.

Modules:
- `Wrappers`: `Option`.
- `Dicts`: a Python dict as an association list. `Put` is `d[k] = v`: it updates in place or appends.
- `Json`: the value type, and Python's `str()` of integers.
- `NestedToSimpleDict`: the flattener. `Walk`/`Entry`/`Inner`/`IsList` thread the shared dict. `Paths` is a separate write-log definition. The contracts of `Walk`, `Entry`, `Inner` and `IsList` tie the flattener to it.
- `FlattenExamples`: worked records.
- `Buckets`: the append-or-create idiom, and what it means.
- `Grouping` and `ResourceClient`: the two `get_resoure_type` variants.
- `Sheets`: the labels and the export.
- `Lifecycle`: the Flexible-server guard.

## Model

| member | source | states |
|---|---|---|
| Dicts.Get | FlexiRunAs.py:62-63 | a lookup fails exactly when the key is absent, and otherwise returns a value paired with that key in the dict |
| Dicts.GetAt | AzureInventory.py:142-143 | in a dict without repeated keys, looking up the key at position i gives the value at position i |
| Dicts.Put | AzureInventory.py:65-67 | after `d[k] = v`, `k` holds `v` and every other key is unchanged; a present key keeps its position; a new key is appended at the end; keys stay distinct |
| Dicts.LastWriteIsLast | AzureInventory.py:56 | the value `LastWrite` picks comes from a write to that key that no later write to the key follows |
| Dicts.PutAllGet | AzureInventory.py:56-67 | after a series of writes, a key holds the value of the last write to it, or its old value if it was never written |
| Dicts.PutAllKeepsKeys | AzureInventory.py:56-67 | writes never move or remove a key: the old keys stay at the front in order, and distinctness is kept |
| Dicts.PutAllAppend | AzureInventory.py:42 | applying two write series in turn is the same as applying their concatenation |
| Dicts.PutAllFresh | AzureInventory.py:65 | writing pairs whose keys are all new and distinct just appends them |
| Json.ParseNatToString | AzureInventory.py:37 | `int(str(i)) == i` for the index text used in list paths |
| Json.NatToString | AzureInventory.py:37 | `str(i)` of a list index is a non-empty string of decimal digits with no leading zero |
| Json.NatToStringInjective | AzureInventory.py:37 | distinct list indices are written as distinct texts |
| NestedToSimpleDict.Walk | AzureInventory.py:41-68 | the loop over a dict's items leaves the shared dict equal to the old dict with the dict's write log applied |
| NestedToSimpleDict.Entry | AzureInventory.py:43-67 | one loop iteration leaves the shared dict equal to the old dict with that entry's writes applied |
| NestedToSimpleDict.Inner | AzureInventory.py:44-56 | the inner loop over a dict value leaves the shared dict equal to the old dict with the value's writes applied |
| NestedToSimpleDict.IsList | AzureInventory.py:35-39 | `_is_list` leaves the shared dict equal to the old dict with its elements' writes applied in element order |
| NestedToSimpleDict.Flatten | AzureInventory.py:27-33 | the flat record has distinct keys, holds only leaves, maps each key to the last value written to it by the walk, and lists its keys in the order of their first write |
| NestedToSimpleDict.FlattenIsPutAll | AzureInventory.py:29-33 | the flat record is the empty dict with the whole write log applied |
| NestedToSimpleDict.PathsAppend | AzureInventory.py:42 | the write log of a record is the log of its first entries followed by the log of the rest |
| NestedToSimpleDict.LeavesKeepTheirKeys | AzureInventory.py:63-67 | a dict of leaves is written entry by entry, each key prefixed by the current path only |
| NestedToSimpleDict.FlattenLeavesIsIdentity | AzureInventory.py:63-65 | a record of scalars, empty lists and not-all-dict lists flattens to itself, same keys, same order |
| NestedToSimpleDict.NestedDictExtendsPath | AzureInventory.py:44-50 | a dict value of leaves under `key` writes each leaf `k` at `key_k`, or `p_key_k` under an existing path `p` |
| NestedToSimpleDict.ListPathsAreCumulative | AzureInventory.py:35-39 | element j of a list of dicts is walked under `base + _0 + _1 + … + _j` |
| NestedToSimpleDict.DictListDropsKey | AzureInventory.py:57-61 | a non-empty list of dicts met by the record loop is walked under the current path without its own key |
| NestedToSimpleDict.DictListInDictKeepsKey | AzureInventory.py:46-53 | the same list one level down, inside a dict value, is walked under a path that includes its key |
| NestedToSimpleDict.DictListTwoLevelsDownDropsKey | AzureInventory.py:49-61 | two levels down, inside a dict inside a dict value, the list drops its key again |
| NestedToSimpleDict.ListStoredVerbatim | AzureInventory.py:52-57 | an empty list or one holding a non-dict is one write of the list itself, at the record level and inside a dict value |
| NestedToSimpleDict.EmptyDictWritesNothing | AzureInventory.py:41-44 | removing an entry whose value is `{}` from any dict being walked, under any path and into any shared dict, changes neither the writes nor the shared dict, so not the flat record either |
| NestedToSimpleDict.EmptyInnerDictWritesNothing | AzureInventory.py:44-50 | removing an entry `k: {}` from a dict value changes neither its writes nor the shared dict |
| NestedToSimpleDict.NestedKeysContainSep | AzureInventory.py:46-48 | below the top level every written key contains the separator |
| NestedToSimpleDict.TopLevelWrites | AzureInventory.py:63-65 | every top-level write is either a path containing the separator or a leaf entry of the record, and every leaf entry is written |
| FlattenExamples.NestedDictExample | AzureInventory.py:44-48 | `{"a":{"b":1,"c":2}}` flattens to `a_b`, `a_c` |
| FlattenExamples.DiskListExample | AzureInventory.py:36-38 | `{"disks":[{"name":"d0"},{"name":"d1"}]}` flattens to `_0_name: d0`, `_0_1_name: d1` |
| FlattenExamples.CollisionExample | AzureInventory.py:46-56 | when two paths build the key `a_b`, the later value wins |
| Buckets.FirstKeys | AzureInventory.py:149 | the keys listed once each, exactly the keys some element has |
| Buckets.BucketEmptyIffUnseen | AzureInventory.py:142-145 | a key's bucket is empty exactly when no element has that key |
| Buckets.BucketHeadIsFirst | AzureInventory.py:163-166 | a bucket starts with the first element carrying its key |
| Buckets.Bucketize | AzureInventory.py:142-145 | append-or-create gives one non-empty bucket per key, in first-seen order, each holding its elements in input order |
| Buckets.AddKeepsBuckets | AzureInventory.py:142-145 | one append-or-create step keeps the bucketing meaning for the input extended by one element |
| Buckets.BucketizeGet | AzureInventory.py:143 | looking up a key finds its elements in input order, or nothing if the key never occurs |
| Buckets.PutAllKeysInFirstWriteOrder | AzureInventory.py:56-67 | after writes into an empty dict, the keys stand in the order of their first write, a key written again keeping its place |
| Grouping.TypeKey | AzureInventory.py:141-145 | a type gets a key unless it is a list or dict (TypeError); a string type is its own key |
| Grouping.AddRecord | AzureInventory.py:140-147 | a string-typed or untyped record is filed by append-or-create or skipped; a non-string hashable type replaces its group by `[r]` and leaves other groups alone |
| Grouping.GroupByType | AzureInventory.py:137-147 | `res_by_type` has distinct keys, in first-seen order of the records' group keys, for every input, including a non-string `type` that restarts its group |
| Grouping.GetResourceType | AzureInventory.py:149-152 | `all_type` is the keys of `res_by_type`, each once, in first-seen order; empty input gives an empty map |
| Grouping.GroupByTypeIsBucketize | AzureInventory.py:137-147 | with string types, the loop is append-or-create bucketing by type |
| Grouping.GroupByTypeIsBucketing | AzureInventory.py:139-149 | with string types, groups appear in first-seen order, and each holds exactly its type's records in input order |
| Grouping.GroupedRecordsComeFromInput | AzureInventory.py:139-145 | every grouped record is an input record filed under its own type |
| Grouping.UntypedRecordSkipped | AzureInventory.py:146-147 | a record without a usable `type` changes nothing, and the loop goes on |
| Grouping.NonStringTypeResetsGroup | AzureInventory.py:142-145 | a hashable non-string type never tests as present, so its group is restarted with the record alone |
| Grouping.FlattenKeepsTopLevelType | AzureInventory.py:123-141 | a record's string `type` survives flattening unchanged, so the flattened record is filed under it |
| Grouping.InventoryResourceType | AzureInventory.py:123-152 | `all_type` lists, once each, exactly the group keys of the flattened records |
| Grouping.InventoryGroupsByOwnType | AzureInventory.py:123-152 | for dict records with a string `type`, each flattened record is filed under the record's own `type`; groups come in first-seen type order and hold exactly their type's flattened records in input order |
| ResourceClient.StampAll | AzureInventoryResourceClient.py:81-85 | every resource of every group is among the records filed, stamped with its own group's name |
| ResourceClient.Stamp | AzureInventoryResourceClient.py:85 | `resource_group` holds the group name, any old value overwritten; nothing else changes |
| ResourceClient.FileResource | AzureInventoryResourceClient.py:83-91 | looking up the type, stamping, then filing is the same as filing the stamped record |
| ResourceClient.FileGroup | AzureInventoryResourceClient.py:82-91 | the inner loop files the group's resources, each stamped, in order |
| ResourceClient.GetResourceTypeByGroup | AzureInventoryResourceClient.py:73-96 | the result is the grouping of all resources, in group order then resource order, each stamped; `all_type` lists the keys once each, in first-seen order |
| ResourceClient.StampAllCarriesGroup | AzureInventoryResourceClient.py:81-85 | each stamped record is a resource of some group, stamped with that group's name |
| ResourceClient.GroupedRecordsAreStamped | AzureInventoryResourceClient.py:81-89 | every grouped record is a resource of some group, whose own type is the group's, stamped with the name of the group it was listed under |
| Sheets.SheetName | AzureInventory.py:162 | the label never contains a `/` |
| Sheets.SheetNameIsLastSegment | AzureInventory.py:162 | the label is a suffix of the type with no `/`, preceded by a `/` when shorter; with no `/` it is the whole type |
| Sheets.SheetNameAfterLastSlash | AzureInventoryResourceClient.py:106 | whatever precedes the last `/`, the label is the text after it |
| Sheets.SheetFrames | AzureInventory.py:159-166 | `all_df` has one entry per label in first-seen order, each listing exactly the types with that label, in their order |
| Sheets.ExportedTypes | AzureInventory.py:159-173 | one exported type per label, in first-seen label order, carrying that label |
| Sheets.FrameHead | AzureInventory.py:173 | each label's first frame comes from a type with that label |
| Sheets.ExportedFor | AzureInventoryResourceClient.py:107-117 | a label is exported once, with the first type that has it |
| Sheets.ExportedIffFirstOfLabel | AzureInventory.py:163-173 | a type is exported exactly when no earlier type has its label |
| Sheets.Export | AzureInventoryResourceClient.py:116-117 | one sheet per distinct label |
| Sheets.ExportedSheetRecords | AzureInventory.py:160-173 | the first type with a label has its records written under that label |
| Lifecycle.GetStatus | FlexiRunAs.py:55-67 | a read succeeds exactly when the body is an object whose `properties` is an object |
| Lifecycle.GetStatusReadsState | FlexiRunAs.py:61-63 | what a successful read gives, other than `None`, is the `state` found in `properties` |
| Lifecycle.GetStatusReturnsState | FlexiRunAs.py:61-63 | a `state` present in an object `properties` is exactly what the read gives |
| Lifecycle.MissingStateReadsAsNone | FlexiMID.py:41-42 | `properties` without `state` reads as `None` |
| Lifecycle.NoPropertiesFailsRead | FlexiMID.py:38-46 | a body without an object `properties` makes the read fail |
| Lifecycle.ExpectedState | FlexiRunAs.py:69-79 | only `start` and `stop` give a pair, both states among `Stopped`/`Ready` and never equal; anything else raises |
| Lifecycle.ActionsAreOpposite | FlexiMID.py:50-57 | `start` is (`Stopped`, `Ready`), and `stop` is the same pair swapped |
| Lifecycle.Decide | FlexiRunAs.py:84-101 | quit exactly when the status is the desired state; request exactly when it is the expected one; `None` aborts |
| Lifecycle.Poll | FlexiRunAs.py:111-118 | the wait loop ends on a read of the desired state, with every earlier read a successful one of another state; otherwise on a failed read or when the reads run out |
| Lifecycle.PollStopsAtFirstDesired | FlexiMID.py:92-98 | the loop ends right after the first read of the desired state |
| Lifecycle.AfterRequest | FlexiRunAs.py:90-118 | the run ends at the request exactly when `requests.post` raised; otherwise it is rejected exactly when the code is not 200 or 202, and succeeds only after an accepted request, on a read of the desired state |
| Lifecycle.Run | FlexiRunAs.py:81-118 | a failed start-up read exits first; an invalid action raises whatever the status; the request is reached only from the expected state |
| Lifecycle.RunSendsRequest | FlexiRunAs.py:88-92 | from the expected state the run goes on to the request, and what follows is decided by the request's result and the later reads alone |
| Lifecycle.InvalidActionIgnoresStatus | FlexiRunAs.py:77-83 | an action other than `start`/`stop` raises before any status comparison |
| Lifecycle.AlreadyInStateSendsNothing | FlexiMID.py:62-65 | a server already in the desired state makes the run quit, whatever the request would have returned |
| Lifecycle.RequestOnlyFromExpected | FlexiMID.py:67-82 | the request is sent iff the start-up status is the expected state; `None` aborts |
| Lifecycle.AcceptedRunEndsAtDesired | FlexiMID.py:84-98 | after an accepted request, the run succeeds at the first read of the desired state |

## Left out

- Azure SDK and Resource Graph calls, credentials, Key Vault and `automationassets` lookups (AzureInventory.py:22-24, 91-128; AzureInventoryResourceClient.py:19-71). These are foreign calls.
  - The records they return are parameters.
  - When there is at least one resource group, `get_rg_resource` returns the last group's `res_list` as its second result. That result is unused and is not modelled.
  - When there are no resource groups, `res_list` is never assigned, and the `return` at AzureInventoryResourceClient.py:71 raises `UnboundLocalError`. The resource-client collector therefore never runs on an empty group dict. `ResourceClient.GetResourceTypeByGroup` still accepts one and gives an empty result; that crash is not modelled.
  - When the Resource Graph query fails, the `except` at AzureInventory.py:119-121 only prints. `res` is then unassigned, and the loop at AzureInventory.py:124 raises `UnboundLocalError`. `Grouping.InventoryResourceType` takes the records as given and does not model that crash.
- pandas and Excel writing (AzureInventory.py:161, 170-176). Only the label map and the choice of `frame[0]` are modelled. A sheet is the label with the records of one type.
- `SendMail` and the `__main__` blocks, which are I/O.
- Token acquisition, HTTP GET/POST, `time.sleep`, `print` and URL formatting in FlexiRunAs.py and FlexiMID.py. This includes the whitespace that FlexiMID.py's line continuations put into its URLs.
  - The status reads are given as a sequence of replies.
  - The request's result is given as raised or a status code.
  - Any other failure while getting the token is not modelled.
- TakeSnapShots.py is not part of this model. It is compute-SDK calls, Resource Graph queries and clock-based names around an OS/data disk split.
- Lifecycle.Poll: the Python loop waits forever for the desired state. The model reads a finite sequence and ends `Exhausted` when it runs out, which stands for "still waiting".
- Lifecycle.Run: `sys.exit()` and the raised exception become `Outcome` values. Exit codes and printed messages are not modelled.
- Json: floats are carried as the text `str()` gives them. Float arithmetic is never needed.
- Json: a JSON object with a repeated key keeps its last value in Python. The model assumes records already have distinct keys wherever a lemma needs it.
- ResourceClient.GetResourceTypeByGroup: the Python loop also writes `resource_group` into the caller's own records. That shared-object mutation is not modelled. Only typed records are stamped, and the stamp on a record that is later skipped is never observable in the result.
- Sheets.Export: its contract states only the number of sheets. Which records each sheet holds is stated by `Sheets.ExportedSheetRecords`.
- NestedToSimpleDict.Flatten: a key is any string. `str(key)` on non-string JSON keys does not arise, because JSON object keys are strings.
- Sheets.SheetName: its own contract says only that the label holds no `/`. That the label is the text after the last `/` is stated by `Sheets.SheetNameIsLastSegment` and `Sheets.SheetNameAfterLastSlash`. Those facts are kept out of the function's contract because every proof that uses labels would carry them.
