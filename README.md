# prepare-swagger, modelled in Dafny

`prepare-swagger` fetches a Swagger 2.0 document for each schema entry of a
configuration file, rewrites it, and saves it as YAML. This project models
the rewrite that `process_schema` performs on a document that has already
been fetched, and proves what it does.

- **Path table.**
  - Listed paths are removed.
  - Paths are renamed by regular-expression rules.
  - Every operation gets an `operationId` generated from its verb and its
    path template.
  - `{?...}` query templates are cut out of the keys.
  - The table is sorted by key.
- **Definitions table.**
  - Listed definitions are removed, new ones are added, and overrides are
    merged into existing ones with `merge`.
  - Every definition with `properties` but no `required` gets a `required`
    list of all its property names.
  - Every definition and the table itself are sorted by key.
- **Tag catalogue.** Only the tags some operation uses are kept, sorted by
  name.

Maps are modelled as follows:

- An `IndexMap` is an ordered association list with distinct keys
  (`OrderedMaps`).
- `shift_remove`, `insert`, `extend`, `get` and `sort_keys` are modelled
  with the order behaviour that crate documents.
- serde_json's `Map::remove` is a swap-remove, its behaviour when insertion
  order is preserved.

Every `&mut` helper is a method that takes the map and returns the new map.
Each has a `while` loop that follows the source loop, and each is proved
against a specification function that folds over the same items. A panic
is handled in one of two ways:

- A helper method requires the condition that rules the panic out.
- `ProcessSchema` returns `Panicked(reason)` exactly where the source would
  panic.

Modules:

- `Text`: the order of `String`.
- `OrderedMaps`: the map operations, insertion sort by key, and its
  permutation, order and stability lemmas.
- `Json`: `serde_json::Value`.
- `Swagger`: the document.
- `Config`: the schema entry.
- `MergeMap`: `merge`.
- `OperationIds`: `generate_operation_id`.
- `PathRewrite`: `remove_paths`, `rename_paths`, `remove_query_params` and
  `change_operation_id`.
- `DefinitionEdits`: the definitions part of `process_schema`.
- `TagFilter`: `collect_tags` and the tag filtering.
- `Pipeline`: `process_schema` end to end.

## Model

| member | source | states |
|---|---|---|
| MergeMap.Merged | src/merge_map.rs:4-30 | The reference fold of `merge`: the patch entries in order, each inserted with the value `MergeValue` gives it against the key's current value. `None` as soon as an entry meets a value it cannot merge with, where the source unwraps and panics. |
| MergeMap.MergeValue | src/merge_map.rs:6-28 | The value one key holds after its patch value meets it. Vacant: the patch value. An array: the target's elements, then the patch's. An object: `MergeObject`. Anything else: the patch value. |
| MergeMap.MergeObject | src/merge_map.rs:11-20 | The object arm. Without `__remove`, the object extended with the patch. Otherwise each listed name is swap-removed in list order, then the object is extended with the patch minus `__remove`. |
| MergeMap.Merge | src/merge_map.rs:4-30 | When no patch entry meets an incompatible target value, the loop finishes without a panic. The target it leaves is the entry-by-entry fold `Merged`. |
| MergeMap.MergeField | src/merge_map.rs:6-28 | One patch entry meeting the current value of its key. The result depends on that value: absent, the patch value; an array, the two arrays appended; an object, the object merge; anything else, the patch value. |
| MergeMap.MergeObjectInto | src/merge_map.rs:11-20 | The fields listed under `__remove` are removed one at a time, then the rest of the patch is inserted one level deep. |
| MergeMap.MergeSucceedsIff | src/merge_map.rs:9-16 | `merge` finishes without a panic if and only if every patch entry is compatible with the target: an array meets an array, an object meets an object whose `__remove` is an array of strings. |
| MergeMap.MergeLookup | src/merge_map.rs:4-30 | After the merge, a key not in the patch keeps its value. A patch key holds its patch value merged into the target's original value for that key. |
| MergeMap.MergeKeys | src/merge_map.rs:5-27 | Nothing is removed at the top level. The target's keys keep their order at the front, the key set is the union of both maps, and keys stay distinct. |
| MergeMap.MergeInsertsAbsent | src/merge_map.rs:25-27 | A key the target lacks takes the patch value verbatim and lands after all the target's entries. |
| MergeMap.MergeAppendsArrays | src/merge_map.rs:8-10 | An array meeting an array becomes their concatenation, the target's elements first. |
| MergeMap.MergeReplacesScalars | src/merge_map.rs:21-23 | A value that is neither an array nor an object is replaced by the patch value. |
| MergeMap.MergeMergesObjects | src/merge_map.rs:11-20 | An object meeting an object becomes the object merge of the two. |
| MergeMap.RemoveNamesLookup | src/merge_map.rs:14-18 | Removing the listed names deletes exactly those fields and keeps every other field's value. |
| MergeMap.MergeObjectLookup | src/merge_map.rs:11-20 | After the object merge, a patch field (other than `__remove`) holds the patch value. A listed field that the patch does not set again is gone. Every other field keeps its value. |
| MergeMap.MergeObjectDropsRemoval | src/merge_map.rs:14-19 | The `__remove` directive never ends up in the merged object. |
| OrderedMaps.Insert | src/main.rs:55 | `IndexMap::insert`: an existing key keeps its slot and takes the new value; a new key is appended at the end. |
| OrderedMaps.Without | src/main.rs:51 | The entries whose key is not in the given set, in their order. `shift_remove` of one key is `Without` of that key alone. |
| OrderedMaps.ShiftRemoveAll | src/main.rs:94-99 | The loop that shift-removes every listed key in turn (also src/main.rs:49-52) leaves the map `Without` the listed keys. |
| OrderedMaps.SwapRemove | src/merge_map.rs:14-16 | serde_json's `Map::remove` under `preserve_order`: an absent key changes nothing; otherwise the last entry moves into the removed key's slot. |
| OrderedMaps.Extend | src/merge_map.rs:19 | `extend`: `Insert` of each source entry, in source order. |
| OrderedMaps.SortKeys | src/main.rs:44 | `sort_keys`: a stable insertion sort of the entries by key under the `String` order. |
| OrderedMaps.GetWithout | src/main.rs:49-52 | `shift_remove` of a set of keys makes exactly those keys absent and leaves every other lookup unchanged. |
| OrderedMaps.GetInsert | src/main.rs:53-56 | After `insert`, the key holds the new value and every other key keeps its value. |
| OrderedMaps.GetExtend | src/merge_map.rs:19 | After `extend`, every key of the source holds the source's value and every other key keeps its value. |
| OrderedMaps.ExtendKeepsOrder | src/merge_map.rs:19 | `extend` keeps the existing keys in their slots, at the front. |
| OrderedMaps.GetSwapRemove | src/merge_map.rs:14-16 | serde_json's `remove` makes the key absent and keeps every other lookup. |
| OrderedMaps.SortKeysSpec | src/main.rs:44 | `sort_keys` gives a map in strictly ascending key order with the same entries and the same lookups. |
| OrderedMaps.SortKeysSorted | src/main.rs:82-84 | `sort_keys` on a map already in ascending order leaves it unchanged, so sorting is idempotent. |
| OrderedMaps.SortByPermutes | src/main.rs:89 | `sort_by_key` is a permutation. |
| OrderedMaps.SortBySorted | src/main.rs:89 | `sort_by_key` orders by the key. |
| OrderedMaps.SortByStable | src/main.rs:89 | `sort_by_key` is stable: the elements that share a key keep their relative order. |
| Text.LessTotal | src/main.rs:44 | The `String` order is total: two different strings are ordered one way or the other. |
| Text.LessTransitive | src/main.rs:44 | The `String` order is transitive. |
| OperationIds.GenerateOperationId | src/main.rs:142-174 | `generate_operation_id`: the verb's prefix (`get`, `create`, `update`, `delete`, or nothing), then each piece after the first of the `[/ ]+` split, reduced to the word of its first `{word}` where it has one, Pascal-cased and joined. |
| OperationIds.OperationIdPrefix | src/main.rs:143-150 | The id begins with `get`, `create`, `update` or `delete` for `get`, `post`, `put` or `delete`. Any other verb contributes nothing. |
| OperationIds.SplitWell | src/main.rs:152-155 | Splitting on `[/ ]+` gives pieces without a delimiter. Every piece except the first and the last is non-empty. |
| OperationIds.SplitConcat | src/main.rs:152-155 | The pieces, read in order, spell the template with every delimiter dropped. |
| OperationIds.CaptureFound | src/main.rs:156-163 | The capture of `\{(\w+)}` is the word of the leftmost match. |
| OperationIds.CaptureMissing | src/main.rs:156-165 | Where `\{(\w+)}` does not match, there is no capture and the piece is used as it is. |
| OperationIds.TokenBraced | src/main.rs:156-163 | A piece holding `{word}` after a brace-free prefix contributes `word`. |
| OperationIds.TokenPlain | src/main.rs:164 | A piece without a brace contributes itself. |
| OperationIds.TokensOfSegments | src/main.rs:152-166 | For a template `/s1/.../sn`, the tokens are those of the segments, in order: the empty first piece is skipped. |
| OperationIds.OperationIdOfParameter | src/main.rs:142-174 | `get` on `/resource/{param}` gives `get` followed by the Pascal-cased `resource` and the Pascal-cased `param`. |
| OperationIds.OperationIdKeepsQueryTemplate | src/main.rs:142-174 | A segment carrying a `{?query}` template is cased whole, because `{?` opens no `\{(\w+)}` match. |
| PathRewrite.RemovePaths | src/main.rs:94-99 | The loop leaves the table without the listed keys, with the remaining entries in their order. |
| PathRewrite.RemovePathsLookup | src/main.rs:94-99 | After removal, the listed keys are absent and every other path keeps its operations. |
| PathRewrite.RemovePathsAbsent | src/main.rs:94-99 | Removing keys the table lacks leaves it unchanged. |
| PathRewrite.MoveEntries | src/main.rs:110-115 | The loop over the `renamed` map performs each move in turn. |
| PathRewrite.MoveEntryEffect | src/main.rs:111-114 | After one move, the target key holds the moved operations and the source key is gone. A new target goes to the end; an existing target keeps its slot. |
| PathRewrite.MoveEntryAbsent | src/main.rs:112 | A move whose source key is absent does nothing. |
| PathRewrite.ApplyRenamesFrame | src/main.rs:110-115 | A sequence of moves keeps keys distinct and never touches an entry whose key no move names. |
| PathRewrite.ApplyCollisionFree | src/main.rs:110-115 | When no move's target is an untouched key or another move's key, every key ends up holding what was moved to it. |
| PathRewrite.RenamePlan | src/main.rs:103-110 | The `renamed` map: the rules in order, each scanning every key and inserting the key with its rewrite when the rule matches it, so a later rule overwrites an earlier one. |
| PathRewrite.RenamePaths | src/main.rs:101-117 | With no rules the table is unchanged. Otherwise the table after the moves planned by the rules, each rule scanning every key. |
| PathRewrite.PlanLookup | src/main.rs:103-109 | The `renamed` map sends each matching key to its rewrite by the last rule that matches it. Keys that no rule matches are not in the map. |
| PathRewrite.PlanRuleLookup | src/main.rs:104-109 | One rule adds its rewrite for every key it matches and leaves other entries as they were. |
| PathRewrite.RenameChain | src/main.rs:111-115 | Moves `a -> b` then `b -> c` leave only `c`, holding `a`'s operations. `b`'s operations are lost. |
| PathRewrite.RenameChainReversed | src/main.rs:111-115 | The same moves in the other order leave `c` with `b`'s operations and `b` with `a`'s. The outcome depends on the order of the `renamed` map. |
| PathRewrite.StripQuery | src/main.rs:124 | `re.replace(key, "")` for `\{\?.*\}`: the first match is cut out; a key without a match is kept. |
| PathRewrite.QueryPlan | src/main.rs:120-125 | The `renamed` map of `remove_query_params`: every key that matches, in key order, mapped to its stripped form. |
| PathRewrite.QuerySpanFromSpec | src/main.rs:121 | The span found is the leftmost match of `\{\?.*\}`, and the longest at that position (`.*` is greedy and stops at a line break). No span means no match. |
| PathRewrite.QueryMatchAt | src/main.rs:121 | A match starting at a `{?` ends at the last `}` before the line ends, and no match there ends later. |
| PathRewrite.StripTrailingQuery | src/main.rs:121-124 | A key `base{?query}` with a brace-free base is matched and becomes `base`. |
| PathRewrite.QueryPlanLookup | src/main.rs:120-125 | Every key with a query template is planned to move to its stripped form. Other keys are not in the plan. |
| PathRewrite.RemoveQueryParams | src/main.rs:119-131 | The loop builds the plan of stripped keys and performs the moves. |
| PathRewrite.ChangeOperationId | src/main.rs:133-140 | The nested loops stamp every operation of every path with the id generated from its verb and its path. |
| PathRewrite.StampEffect | src/main.rs:136-137 | Stamping sets `operationId` to the generated string and leaves the operation's other fields and its key order alone. |
| PathRewrite.ChangeOperationIdEffect | src/main.rs:133-140 | After stamping, the paths and the verbs are the same keys in the same order. Each operation's `operationId` is the id of its own verb and path, and every other field is unchanged. |
| DefinitionEdits.Overridden | src/main.rs:57-64 | The override fold: for each override in order, a present name is shift-removed, merged with the patch and inserted again at the end; an absent name is skipped; `None` where the merge panics. |
| DefinitionEdits.Edited | src/main.rs:47-65 | With no edits, the fetched table. Otherwise `Without` the removed names, extended with the added ones, then `Overridden`. |
| DefinitionEdits.RemoveDefinitions | src/main.rs:49-52 | The loop shift-removes every listed definition. |
| DefinitionEdits.AddDefinitions | src/main.rs:53-56 | The loop inserts every added definition, replacing one of the same name in place. |
| DefinitionEdits.OverrideDefinitions | src/main.rs:57-64 | When every override of a present name merges without a panic, the loop leaves the overridden table. |
| DefinitionEdits.EditDefinitions | src/main.rs:47-65 | The three edit loops in order: remove, add, override. |
| DefinitionEdits.OverriddenLookup | src/main.rs:57-64 | After overriding, a present definition with an override holds the merge of the two. Every other name keeps its definition, and an override of an absent name adds nothing. |
| DefinitionEdits.OverriddenSucceedsIff | src/main.rs:57-64 | The override loop finishes without a panic if and only if each override of a present name is mergeable with the definition. |
| DefinitionEdits.EditedLookup | src/main.rs:47-65 | Each name's final definition is found in stages. An added definition wins over the original; a removed, not-added name is gone; then any override is merged into what is left. |
| DefinitionEdits.Normalized | src/main.rs:68-82 | One definition after the loop body: `required` synthesized where it is missing and `properties` is present, then `sort_keys`. |
| DefinitionEdits.NormalizeDefinitions | src/main.rs:67-84 | The loop synthesizes `required`, sorts each definition, then sorts the table. |
| DefinitionEdits.WithRequiredEffect | src/main.rs:68-80 | A definition without `required` but with `properties` gains `required` at the end, listing the property names. Any other definition is unchanged. |
| DefinitionEdits.PropertyNamesSpec | src/main.rs:72-78 | The `required` list holds the property names as strings, one per property, in declaration order. |
| DefinitionEdits.NormalizedIdempotent | src/main.rs:67-83 | Normalizing a definition twice is the same as once. |
| DefinitionEdits.NormalizeEachGet | src/main.rs:67-83 | The loop keeps the names and their order and normalizes each definition in its slot. |
| DefinitionEdits.NormalizedAllSpec | src/main.rs:67-84 | The table and each definition end in strictly ascending key order. Every name maps to its normalized definition. |
| TagFilter.UsedTags | src/main.rs:176-187 | The reference set of `collect_tags`: the union, over the paths and their operations, of the strings in each operation's `tags` array. |
| TagFilter.CollectTags | src/main.rs:176-187 | The nested loops collect exactly the tag names used by the operations. |
| TagFilter.CollectPathTags | src/main.rs:179-184 | The middle loop adds the tags of every operation of one path. |
| TagFilter.CollectOperationTags | src/main.rs:180-183 | The inner loop adds every string of the operation's `tags` array. |
| TagFilter.UsedTagsComplete | src/main.rs:176-187 | Every string in any operation's `tags` array is collected. |
| TagFilter.UsedTagsSound | src/main.rs:176-187 | Every collected name comes from some operation's `tags` array. |
| TagFilter.RetainMember | src/main.rs:88 | `retain` keeps a tag if and only if it was in the catalogue and its name is used. |
| TagFilter.RetainWithKey | src/main.rs:88 | `retain` keeps the catalogue order of the kept tags. |
| TagFilter.FilterTags | src/main.rs:88-89 | The catalogue after `retain` on the used names, then the stable `sort_by_key` on the name. |
| TagFilter.FilterTagsSpec | src/main.rs:87-89 | The final catalogue is sorted by name and is a permutation of the retained tags. It holds exactly the catalogue's tags whose name is used, with equal names in catalogue order. |
| Pipeline.Process | src/main.rs:33-92 | The reference outcome of `process_schema`. The five panics are checked in source order: a rename pattern that does not compile, an operation without `operationId`, a merge conflict, `properties` that is not an object, missing or malformed `tags`. Otherwise the document with the finished paths, the normalized definitions and the filtered tags. |
| Pipeline.ProcessSchema | src/main.rs:33-92 | The edits in source order. The result is `Panicked(reason)` exactly where the source panics, otherwise the document handed to `save_yaml`. |
| Pipeline.ApplyRenamesValues | src/main.rs:110-115 | Renaming never invents operations: each value after the moves was a value before them. |
| Pipeline.RenamedWellFormed | src/main.rs:37-41 | After removal and renaming, paths and verbs still have distinct keys. |
| Pipeline.FinishedWellFormed | src/main.rs:42-45 | After stamping, stripping and sorting, the path table is in strictly ascending key order and every map has distinct keys. |
| Pipeline.EditedWellFormed | src/main.rs:47-65 | A successful edit of the definitions keeps every definition's keys distinct. |
| Pipeline.ProcessSaved | src/main.rs:33-92 | A saved document is fully sorted and well formed. Paths, definitions and every definition are in ascending key order with distinct keys. The tags are sorted by name and hold exactly the catalogue's tags used by some saved operation. |

## Left out

- Fetching, reading and saving are left out: `main`, `get_swagger`, `get_config`, `save_yaml`, YAML output, the HTTP headers, and the `multienv` default at src/main.rs:34. The model starts from the fetched document.
- The rename rules' regular-expression engine is a parameter (`Regex`): whether a pattern compiles, whether it matches, and what it replaces. The two fixed patterns, `[/ ]+` with `\{(\w+)}` and `\{\?.*\}`, are written out.
- Pascal casing (`convert_case`) is a parameter `pascal`.
- `\w` is taken as ASCII word characters.
- Maps that the configuration and the operations hold as a `HashMap`, and the `renamed` maps, are iterated in one fixed order, the sequence order. `RenameChain` and `RenameChainReversed` show that results can depend on that order.
- JSON numbers are integers; floating point does not matter to any edit.
- serde_json objects are assumed to keep insertion order (`preserve_order`), so `Map::remove` is `swap_remove`.
- `ProcessSchema` requires the fetched definitions table and each of its definitions to have distinct keys; both are `IndexMap`s (src/swagger.rs:20-21). It also requires `EditsWellFormed` of the configured `__add` and `__override`: their names are distinct because each is a `HashMap` (src/config.rs:30-31), and the fields of each configured definition are distinct because a definition is an `IndexMap` (src/config.rs:35). The helper methods require their no-panic conditions; `ProcessSchema` checks those conditions and turns a violation into `Panicked`.
- OperationIds.OperationIdPrefix: states only the prefix part of the id; the rest is covered by the segment lemmas.
