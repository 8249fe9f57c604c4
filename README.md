# jsonb_ivm core, modelled in Dafny

jsonb_ivm is a PostgreSQL extension for surgical edits of JSONB documents
during incremental view maintenance. Every operation takes whole documents
and returns a document: no I/O and no shared state. This project models the
tree operations behind the SQL functions and proves what they promise:

- **Depth guard** (`Depth`). `MAX_JSONB_DEPTH` (1000), the recursive
  `validate_depth`, and `get_max_depth`.
- **Path mini-language** (`Path`):
  - `parse_path` tokenizes `a.b[0].c` into key and index segments;
  - `navigate_path` walks a document read-only;
  - `set_path` creates containers and pads arrays with null on its way down.
- **Element search** (`Search`). The integer-id search, the generic equality
  scan, and the two forms of `find_element_by_match`: with a fallback
  (`array_ops.rs`, `merge.rs`) and without one (`lib.rs`). Also the shared
  "merge updates into the first match" step.
- **Merges** (`Merge`):
  - `jsonb_merge_shallow` and `jsonb_merge_at_path`;
  - the three `jsonb_smart_patch_*` entry points;
  - `jsonb_deep_merge` and `deep_merge_recursive`.
- **Array surgery** (`ArrayOps`):
  - update of the first match, batch update by integer id, and delete of the
    first match;
  - sorted insert, with `find_insertion_point` and the cross-type
    comparator `compare_values`.
- **Top-level helpers** (`Lib`):
  - `jsonb_extract_id` and `jsonb_array_contains_id`;
  - `jsonb_ivm_array_update_where_path` and `jsonb_ivm_set_path`.

## How the model is built

**Values.** A JSON value is the datatype `Json.Value`, with six kinds.
Numbers split into:

- `Int`: a number `as_i64` accepts;
- `NonInt`: any other number, holding the real value the comparator uses and
  its text.

Objects are finite maps, because no operation depends on key order. Each
`error!` of the source becomes an `Err` of the `Result` type, carrying only the
kind of error. Each SQL `NULL` argument becomes an `Option`.

**Functions and methods.** Pure code is modelled as recursive functions:
`get_max_depth`, `navigate_path`, `deep_merge_recursive`, `compare_values`,
`find_insertion_point` and the searches. Code that changes things step by step
is modelled as methods with loops, each proved equal to a specification
function. Those methods are:

- the `parse_path` character loop (`Path.ParsePath` against the recursive
  tokenizer `Path.Scan`);
- the `&mut` cursor walks of `set_path`, `jsonb_merge_at_path` and
  `jsonb_ivm_array_update_where_path` (`Path.WalkAndSet`, `Merge.MergeAtPath`);
- the null-padding loops (`Path.PadWithNull`);
- the `Map::insert` loops (`Json.InsertAll`);
- the batch table loop (`ArrayOps.BuildUpdateTable`).

**Cursor walks.** A walk is modelled as a list of frames, one per container
left behind (`Json.Frame`). The tree is rebuilt from the frames and the value
under the cursor (`Json.Plug`). The loop invariant of each walk says that
rebuilding around the rest of the specification gives the specification of
the whole walk.

**Behaviour worth knowing.** The model follows the code in each of these:

- `compare_values(null, null)` is `Less`, not `Equal`. Its `(Null, _)` arm
  comes before the general case (src/array_ops.rs:508). So the comparator
  is not antisymmetric on two nulls. `ArrayOps.CompareValuesSwap` excludes
  exactly that pair. Sortedness is proved against an independent total
  preorder, `ArrayOps.KeyLe`, in which two nulls tie.
- Only some entry points run the depth guard:
  - it runs in `jsonb_merge_shallow`, `jsonb_deep_merge`,
    `jsonb_array_update_where`, `jsonb_ivm_array_update_where_path` and
    `jsonb_ivm_set_path`;
  - it does not run in `jsonb_merge_at_path`, `jsonb_smart_patch_array` or the
    batch update.
- In `jsonb_ivm_array_update_where_path` the containers along the path are
  still reshaped. But a path whose last segment is an index writes nothing at
  that index (src/lib.rs:292-298). `Path.SetAtWith` takes this as the flag
  `assignFinalIndex`.
- `parse_path` accepts these forms:
  - a leading dot or a trailing dot;
  - an index whose `]` is missing at the end of the input;
  - an index with a leading `+`, which `usize::from_str` accepts.

## Model

| member | source | states |
|---|---|---|
| Json.InsertAll | src/merge.rs:67-72 | inserting the source entries one by one yields exactly the union of both key sets; the source value wins on a shared key and a target-only key keeps its value |
| Depth.MaxDepth | src/depth.rs:66-87 | `get_max_depth` is 0 exactly for a scalar or an empty container; its meaning against the guard is `CheckDepthIff` and `ValidateDepthIff`, and its growth per level is `ContainersCountAlike`, `SingleChildDepth` and `NestDepth` |
| Depth.CheckDepth | src/depth.rs:29-50 | the inner walk never passes when the starting level is already beyond the limit; what it decides in full is `CheckDepthIff` |
| Depth.ValidateDepth | src/depth.rs:28-53 | the only error `validate_depth` raises is the depth error |
| Depth.CheckDepthIff | src/depth.rs:29-50 | the inner `check_depth` started at level `current` succeeds iff `current + get_max_depth(v) <= max` |
| Depth.ValidateDepthIff | src/depth.rs:28-53 | `validate_depth(v, max)` succeeds iff `get_max_depth(v) <= max` |
| Depth.ContainersCountAlike | src/depth.rs:67-84 | an array and an object holding the same children have the same depth, so both kinds add exactly one level |
| Depth.SingleChildDepth | src/depth.rs:69-75 | an object with one entry is one level deeper than that entry |
| Depth.NestDepth | src/depth.rs:69-75 | wrapping a value in n single-key objects adds exactly n levels |
| Depth.DepthThreshold | src/depth.rs:106-144 | a chain of exactly 1000 levels has depth 1000 and passes the guard; one more level fails it |
| Depth.DeepWrappingFails | src/property_tests.rs:62-72 | any value wrapped in more than 1000 object layers fails the guard |
| Depth.ObjectDepthExamples | src/depth.rs:124-129 | depth 0 for a scalar, 1 for `{"a":1}`, 3 for `{"a":{"b":{"c":1}}}` |
| Depth.ArrayDepthExample | src/depth.rs:124-129 | depth 3 for `[{"a":[1,2]}]` |
| Path.ParseUsize | src/path.rs:77-79 | an index that parses is at most `usize::MAX` |
| Path.ParseUsizeDecimal | src/path.rs:77-79 | the decimal text of every `usize` parses back to it |
| Path.ParseUsizeRejects | src/path.rs:77-79 | a bracket body holding any character other than a digit or a leading '+' is rejected |
| Path.FirstClose | src/path.rs:71 | `take_while(c != ']')` stops at the first ']', or at the end when there is none |
| Path.TakeUntilClose | src/path.rs:71 | the collecting loop returns exactly the characters before the first ']' and where it stopped |
| Path.ReadIndex | src/path.rs:65-81 | the bracket branch fails exactly as the tokenizer does on an empty or non-numeric index, and otherwise pushes the index and resumes after the ']' |
| Path.ParsePath | src/path.rs:48-100 | the character loop with its segment list and key buffer computes the recursive tokenizer `Scan` |
| Path.ParseProducesExpressible | src/path.rs:53-97 | a successful parse is non-empty; each key in it is non-empty and free of '.', '[' and ']'; each index fits a `usize` |
| Path.ParseRenderRoundTrip | src/path.rs:48-100 | parsing the documented text of any non-empty expressible segment list gives that list back |
| Path.Scan | src/path.rs:48-100 | the tokenizer never succeeds with an empty list and only appends to the segments found so far; its meaning is given by `ScanStep`, `ScanProducesExpressible`, `ParseRenderRoundTrip`, `ScanRejectsBadPair` and `ScanRejectsStrayClose` |
| Path.ScanIndex | src/path.rs:65-81 | a successful index step appends an index segment after the segments found so far; `ScanIndexAt` and `ReadIndex` say which index and where scanning resumes |
| Path.ScanRejectsBadPair | src/path.rs:55-79 | an input containing ".." or "[]" anywhere is rejected |
| Path.ScanRejectsStrayClose | src/path.rs:82-84 | an input with a ']' that no '[' precedes is rejected |
| Path.ParseDottedExample | src/path.rs:29-36 | `"a.b.c"` parses to three keys |
| Path.ParseIndexedExample | src/path.rs:38-46 | `"a[0].b[1]"` parses to key a, index 0, key b, index 1 |
| Path.ParseMixedExample | src/path.rs:260-272 | `"orders[0].items[1].price"` parses to the five documented segments |
| Path.ParseRejectionExamples | src/path.rs:274-287 | `"a..b"`, `"a[]"` and `"a]"` are rejected |
| Path.ParseLeadingDot | src/path.rs:55-64 | a leading dot is tolerated: `".a"` parses to key a |
| Path.ParseTrailingDot | src/path.rs:91-93 | a trailing dot is tolerated: `"a."` parses to key a |
| Path.ParseUnclosedIndex | src/path.rs:71-81 | an index missing its ']' at the end is accepted: `"a[0"` parses to key a, index 0 |
| Path.Navigate | src/path.rs:125-148 | the empty path gives the value itself; a key on a non-object or a missing key gives None; an index on a non-array or out of range gives None; a single key equals direct lookup |
| Path.NavigateAppend | src/path.rs:125-148 | navigating along `p + q` is navigating along `p` and then along `q` |
| Path.PadProperties | src/path.rs:193-195 | padding keeps the earlier elements, adds only null, and stops at exactly the needed length unless the array was already longer |
| Path.PadWithNull | src/path.rs:193-195 | the `while len <= idx` push loop yields the padded array, in which `idx` is in range |
| Path.FillReshapeKey | src/path.rs:178-186 | a key step turns a non-object into `{}`, binds the key to the child below, and leaves every other field as it was |
| Path.FillReshapeIndex | src/path.rs:187-197 | an index step turns a non-array into `[]`, pads with null to length at least idx+1, and holds the child at idx; earlier elements are kept and the padding is null |
| Path.NavigateThroughFill | src/path.rs:176-199 | navigating through the container a step rebuilt reaches the child put back into it |
| Path.Descend | src/path.rs:176-199 | one step of the cursor yields the reshaped container and the child it descends to, `{}` for a missing key |
| Path.WriteLast | src/path.rs:202-221 | the final step assigns the value into the reshaped node |
| Path.SetAtWith | src/path.rs:166-224 | the root becomes an object holding the first key, or an array long enough for the first index, except that a lone unassigned final index leaves the value alone; `NavigateAfterSetKeyEnded` and `FinalIndexWritesNothing` state what the path then reaches |
| Path.SetAt | src/path.rs:166-224 | `set_path` turns the root into an object holding the first key or an array long enough for the first index; `NavigateAfterSet` states that the path then reaches the value set |
| Path.WalkAndSet | src/path.rs:175-221 | the in-place cursor walk leaves exactly the tree the setter specification describes |
| Path.SetPath | src/path.rs:166-224 | `set_path` fails only on the empty path, and otherwise yields the specified tree |
| Path.NavigateAfterSet | src/path.rs:166-224 | after `set_path` on a non-empty path, navigating along that path finds the value just set |
| Path.NavigateAfterSetKeyEnded | src/lib.rs:267-298 | when the last segment is a key, or the final index is assigned, navigating along the path finds the value |
| Path.FinalIndexWritesNothing | src/lib.rs:292-298 | when the last segment is an index that is not assigned, the result does not depend on the value; a one-segment path leaves the node unchanged |
| Path.SetExamples | src/path.rs:317-331 | setting `user.name` in `{"user":{}}` and `items[0]` in `{"items":[]}` gives the documented documents |
| Search.FirstMatch | src/array_ops.rs:530-532 | the generic scan returns the first index whose `match_key` field equals the value, and None iff no element matches |
| Search.FindByIntId | src/array_ops.rs:522-527 | the integer-id search returns the first index whose field reads as that integer, and None iff there is none |
| Search.HasIntIdIsMatch | src/array_ops.rs:522-527 | a field reads as the integer `id` exactly when it equals the number `id` |
| Search.FindByIntIdIsFirstMatch | src/array_ops.rs:521-533 | the integer-id search agrees with the generic scan for an integer value |
| Search.FindElementByMatch | src/array_ops.rs:521-533 | the fast path followed by the fallback finds the first element whose field equals the value, whatever its kind |
| Search.FindElementByMatchNoFallback | src/lib.rs:186-195 | the variant without a fallback finds the same first match as the one with a fallback |
| Search.PatchedFirst | src/merge.rs:337-343 | only the first matching element changes: it gains the updates, which win, and keeps its other fields; the length and every other element are kept; with no match, or a non-object match, nothing changes |
| Search.PatchFirstMatch | src/array_ops.rs:88-97 | finding the element and inserting the updates into its map one by one yields that patched array |
| Merge.ShallowMerged | src/merge.rs:38-76 | succeeds iff the source passes the depth guard and both are objects; errors come in the order depth, target, source; the result keys are the union, the source wins, and target-only keys are kept |
| Merge.MergeShallow | src/merge.rs:38-76 | a NULL argument gives NULL; otherwise the result is the shallow merge |
| Merge.SmartPatchScalar | src/merge.rs:214-217 | the scalar smart patch is the shallow merge |
| Merge.KeyPath | src/merge.rs:100-182 | the merge path's keys as key segments, one per key, in order |
| Merge.MergedAtPath | src/merge.rs:100-182 | a non-object source fails with its own error, and success needs an object target whose keys all survive; `MergeAtPathSucceedsIff`, `NavigateAfterMergeAtPath` and `MergeAtPathKeepsOffPath` state when it succeeds, what the path then reaches and that everything off the path is kept |
| Merge.MergeUnder | src/merge.rs:134-179 | on success the node was an object, gains at most the first key, and every other field is kept; `MergeUnderKeepsOffPath` extends this to siblings at every depth |
| Merge.MergeAtPath | src/merge.rs:100-182 | the in-place cursor walk with its insert loop yields the specified result of `jsonb_merge_at_path` |
| Merge.MergeUnderEmptySucceeds | src/merge.rs:174-176 | below a missing key, where `{}` is created, the merge always succeeds |
| Merge.MergeUnderSucceedsIff | src/merge.rs:134-179 | the walk succeeds iff every existing value along the path, the last one included, is an object |
| Merge.MergeUnderKeepsOffPath | src/merge.rs:134-179 | navigating along any path that agrees with the merge keys for i steps and then leaves them finds what it found before: siblings at every level are kept |
| Merge.MergeAtPathKeepsOffPath | src/merge.rs:100-182 | after `jsonb_merge_at_path`, any path that leaves the merge keys reaches what it reached before |
| Merge.MergeAtPathSucceedsIff | src/merge.rs:105-179 | `jsonb_merge_at_path` succeeds iff the source is an object and every existing value along the path is an object; a non-object source always gives the source error |
| Merge.NavigateAfterMergeUnder | src/merge.rs:134-179 | after the walk, the object at the path is the old one (or `{}`) with the source entries inserted |
| Merge.NavigateAfterMergeAtPath | src/merge.rs:100-182 | after `jsonb_merge_at_path`, navigating along the keys finds the old object there, `{}` when missing, overlaid with the source |
| Merge.MergeAtPathExample | src/merge.rs:90-97 | the documented merge of `{"name":"updated"}` at `network_configuration` |
| Merge.MergeNestedExample | src/merge.rs:238-243 | merging `{"name":"ACME Corp"}` at `user.company` changes that name and keeps `id`, the user's `name` and the company's `city` |
| Merge.SmartPatchNested | src/merge.rs:251-253 | the nested smart patch is `jsonb_merge_at_path` |
| Merge.SmartPatchedArray | src/merge.rs:297-346 | succeeds iff the field exists, holds an array, and the source is an object, with errors in that order; only the field changes, and it becomes the array with the first match patched |
| Merge.SmartPatchArray | src/merge.rs:297-346 | the imperative smart patch yields that result |
| Merge.DeepMergeRec | src/merge.rs:392-419 | a non-object source wins outright, and an object source gives an object holding at least the source keys; `DeepMergeShape`, `DeepMergeIdempotent`, `DeepMergeFlatIsShallow` and `DeepMergeSourceLeavesWin` state the rest |
| Merge.DeepMerged | src/merge.rs:378-386 | `jsonb_deep_merge` succeeds iff the source passes the depth guard, and then yields the recursive deep merge |
| Merge.DeepMergeShape | src/merge.rs:392-419 | two non-objects give the source; two objects give the key union, keep target-only entries, merge shared object entries again, and take any other shared entry, arrays included, from the source |
| Merge.DeepMergeIdempotent | src/merge.rs:397-408 | deep-merging a value into itself gives that value |
| Merge.DeepMergeFlatIsShallow | src/merge.rs:392-419 | when no shared key holds objects on both sides, the deep merge is the shallow overlay |
| Merge.DeepMergeSourceLeavesWin | src/merge.rs:392-419 | any non-object the source holds at a path is what the result holds there |
| Merge.DeepMergeExample | src/merge.rs:362-367 | the documented deep merge of nested objects |
| ArrayOps.UpdatedWhere | src/array_ops.rs:49-100 | succeeds iff the field exists, holds an array, and the updates pass the depth guard and are an object, with errors in that order; only the field changes, to the array with the first match patched |
| ArrayOps.UpdateWhere | src/array_ops.rs:49-100 | the imperative update yields that result |
| ArrayOps.UpdateWhereIsGuardedSmartPatch | src/array_ops.rs:49-100 | the update is the array smart patch with the depth guard added in front |
| ArrayOps.UpdateWhereExample | src/array_ops.rs:29-38 | the documented update of server 42 changes only that element |
| ArrayOps.SpecEntry | src/array_ops.rs:150-170 | a spec counts iff it is an object with an integer `match_value` and object `updates` |
| ArrayOps.UpdateTable | src/array_ops.rs:150-170 | the table holds at most one entry per spec; `UpdateTableLastWins` states which ids it holds and that the last spec for an id wins |
| ArrayOps.BuildUpdateTable | src/array_ops.rs:150-170 | the table-building loop yields the table of the specs in order |
| ArrayOps.UpdateTableLastWins | src/array_ops.rs:150-170 | an id is in the table iff some well-formed spec names it, and its updates come from the last such spec |
| ArrayOps.PatchElement | src/array_ops.rs:173-184 | an element whose integer id is in the table gains those updates, which win, and keeps its other fields; any other element is unchanged |
| ArrayOps.ApplyBatch | src/array_ops.rs:173-184 | the pass over the array patches each element by the table and keeps the length |
| ArrayOps.PatchAll | src/array_ops.rs:173-184 | the specified pass patches each element by the table and keeps the length |
| ArrayOps.BatchUpdated | src/array_ops.rs:129-187 | succeeds iff the field exists and holds an array and the specs are an array, with errors in that order; only the field changes, its length is kept, and each element is patched by the table built from the specs |
| ArrayOps.BatchUpdate | src/array_ops.rs:129-187 | the imperative batch update yields that result |
| ArrayOps.BatchPatchesByLastSpec | src/array_ops.rs:150-184 | an element whose id no spec names is unchanged; otherwise it is patched by the last spec naming its id |
| ArrayOps.DeletedWhere | src/array_ops.rs:322-348 | a missing or non-array field leaves the document unchanged; otherwise exactly the first match is removed, the rest keep their order, and the array shrinks by one iff there is a match |
| ArrayOps.DeleteWhere | src/array_ops.rs:322-348 | the imperative delete yields that result |
| ArrayOps.DeleteWhereExample | src/array_ops.rs:288-300 | the documented delete of post 2 |
| ArrayOps.CompareStringsDecides | src/array_ops.rs:504 | the string comparison is the lexicographic order |
| ArrayOps.StrLeTransitive | src/array_ops.rs:504 | the lexicographic order is transitive |
| ArrayOps.StrLeTotal | src/array_ops.rs:504 | the lexicographic order is total |
| ArrayOps.CompareValues | src/array_ops.rs:488-518 | values of different kinds compare by kind rank (null, bool, number, string, container); `CompareValuesDecides` and `CompareValuesSwap` state the order within kinds |
| ArrayOps.CompareValuesDecides | src/array_ops.rs:488-518 | for every pair other than two nulls, `compare_values` decides the preorder `KeyLe` (null < bool < number < string < array/object, by value within a kind); for two nulls it says Less |
| ArrayOps.CompareValuesSwap | src/array_ops.rs:488-518 | swapping the arguments reverses the result, for every pair other than two nulls |
| ArrayOps.KeyLeTotalPreorder | src/array_ops.rs:488-518 | the order the comparator decides is reflexive, total and transitive |
| ArrayOps.CompareValuesExamples | src/array_ops.rs:488-518 | integers by value, `false < true`, the ranking across kinds, array equal to object, and `compare_values(null, null) == Less` |
| ArrayOps.CompareDatesExample | src/array_ops.rs:504 | date strings compare in calendar order |
| ArrayOps.IsAsc | src/array_ops.rs:476-480 | the order string means ascending iff it is "asc" in any mix of letter case |
| ArrayOps.IsAscExamples | src/array_ops.rs:476-480 | "ASC" matches in any letter case; every other order string, the empty one included, means descending |
| ArrayOps.GoesBefore | src/array_ops.rs:468-482 | the new value goes before an element only when the element has the sort key and its value is strictly after the new one in the requested direction (`KeyLe`), two nulls aside |
| ArrayOps.FirstGoesBefore | src/array_ops.rs:468-482 | the `position` scan returns the first element the new value goes strictly before, or the length |
| ArrayOps.FindInsertionPoint | src/array_ops.rs:458-483 | the result is in [0, len]; it is len when the new element lacks the sort key; otherwise it is the first keyed element the new value is strictly before in the requested direction, elements without the key being passed over |
| ArrayOps.InsertPosition | src/array_ops.rs:441-448 | without a sort key the element goes at the end |
| ArrayOps.InsertedWhere | src/array_ops.rs:411-453 | succeeds iff the target is an object whose field is absent or an array, with errors in that order; only the field changes; the array grows by one with the element at its position, and the elements before and after it are kept in order |
| ArrayOps.InsertWhere | src/array_ops.rs:411-453 | the imperative insert yields that result |
| ArrayOps.KeyedValuesAppend | src/array_ops.rs:470-482 | the sort values of a concatenation are the sort values of its parts |
| ArrayOps.InOrderFromCompare | src/array_ops.rs:476-480 | the comparator's verdict places the new value before or after an element in the preorder |
| ArrayOps.InOrderTransitive | src/array_ops.rs:488-518 | the order in either direction is transitive |
| ArrayOps.SortedAround | src/array_ops.rs:441-448 | a value in order with everything before it and everything after it keeps a sorted sequence sorted |
| ArrayOps.InsertKeepsSorted | src/array_ops.rs:441-448 | inserting at `find_insertion_point` into an array whose sort values are sorted keeps them sorted |
| ArrayOps.InsertSortedExample | src/array_ops.rs:379-389 | id 2 lands between id 1 and id 3 |
| Lib.ExtractId | src/lib.rs:94-103 | an id is found iff the field is a string or a number; a string comes back as itself |
| Lib.ExtractIntIdRoundTrip | src/lib.rs:94-103 | an integer id comes back as decimal text that reads as that integer |
| Lib.ExtractIdExamples | src/lib.rs:66-85 | the documented extractions: a string id, the integer 42 as "42", and None for a missing key, a boolean and a non-object |
| Lib.ArrayContainsId | src/lib.rs:171-182 | true iff the field exists, holds an array, and some element's key equals the value |
| Lib.UpdatedWherePath | src/lib.rs:226-302 | succeeds iff the path parses, the field exists, holds an array, and the value passes the depth guard, with errors in that order |
| Lib.IvmArrayUpdateWherePath | src/lib.rs:226-302 | the imperative walk inside the matched element yields that result |
| Lib.UpdateWherePathOnlyMatchedElement | src/lib.rs:261-298 | only the first matching element changes, and no match leaves the document unchanged; a final key makes the value found at the path, and a final index writes nothing |
| Lib.SetPathText | src/lib.rs:336-350 | succeeds iff the path parses and the value passes the depth guard, with errors in that order; the result is then `set_path` on the parsed segments, and the value is found at the parsed path |
| Lib.IvmSetPath | src/lib.rs:336-350 | parsing, the guard and `set_path` together yield that result |

## Left out

- PostgreSQL plumbing is not modelled: `#[pg_extern]` registration, the
  `JsonB` wrapper, `pg_module_magic!` and the `pg_test` module. The key arrays
  of `jsonb_merge_at_path` and `jsonb_smart_patch_nested` are given as a list
  of strings, so the flattening of NULL array elements is not modelled.
- `jsonb_array_update_multi_row` is left out. It is set-returning iterator
  plumbing that applies `jsonb_array_update_where` to each row.
- src/search.rs is not part of this model. Its `find_by_int_id_optimized` is
  modelled as the plain first-match scan it stands for
  (`Search.FindByIntId`). Its unrolled loop shape is a performance detail.
- Floating-point numbers are not modelled as IEEE values. A `NonInt` number
  carries an exact real, which the comparator uses. So the rounding of
  i64/u64 to f64 and NaN are out of scope, and `jsonb_extract_id`'s text for
  such numbers is taken as given.
- Error message texts and `value_type_name` are not modelled. Only the kind of
  each error is.
- Object key order in `serde_json::Map` is not modelled, because no operation
  depends on it.
- The stack exhaustion the depth guard protects against is not modelled. Only
  the guard's pass or fail verdict is.
- The default key `'id'` of `jsonb_extract_id` is an SQL default. The model
  takes the key as a parameter.
- ArrayOps.CompareValuesSwap: stated for every pair except two nulls, because
  `compare_values(null, null)` is `Less` in both argument orders.
- ArrayOps.InsertKeepsSorted: states sortedness of the elements that carry
  the sort key, under the preorder `KeyLe`. Elements without the key are
  passed over by the search, and no order is promised for them.
- Path.Navigate: its full recursive meaning is stated through
  `Path.NavigateAppend` and the setter lemmas rather than in its own contract.
- The fuzz targets and property tests are not modelled as code. The
  properties they assert are proved where cited above.
