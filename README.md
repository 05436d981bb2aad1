# HistoryPx extended history, modelled in Dafny

HistoryPx extends a PowerShell session's command history. For each command line, its
`Out-Default` replacement records:

- the output the command produced, up to a per-entry maximum;
- how many objects it output;
- the errors it raised;
- whether it succeeded.

These records go into an insertion-ordered table keyed by history id. That table keeps
only the newest entries. The replacement also refreshes a "last result" variable (`$__`
by default) with the command's output, unless the command line itself refers to the
variable or only assigns, defines or increments. A registry keeps one such table per
runspace. It drops a table when its runspace closes, or when the module is removed and
its runspace becomes available again.

The model has one Dafny module per source file:

| module | file | source | form |
|---|---|---|---|
| `Queued` | `queued_dictionary.dfy` | `QueuedDictionary.cs` | class over a `map` and a key `seq` |
| `Table` | `extended_history_table.dfy` | `ExtendedHistoryTable.cs` | class; its static state is one object |
| `Records` | `extended_history_info.dfy` | `ExtendedHistoryInfo.cs` | class plus copy getters |
| `OutDefault` | `out_default_command.dfy` | `OutDefaultCommand.cs` | pure rules plus the command class |
| `Manager` | `extended_history_manager.dfy` | `ExtendedHistoryManager.cs` | registry class |
| `Config` | `capture_output_configuration.dfy` | `CaptureOutputConfiguration.cs` | pure constants |

Three further modules support these:

- `Sequences`: duplicate-free sequences, removing one value or a list of values, and keeping the newest `n`;
- `Engine`: abstract stand-ins for the shell's objects, error records, error-log entries and parsed statement trees;
- `Wrappers`: `Option`.

The classes keep a `Valid()` invariant. For the dictionary, the key queue lists exactly
the map's keys, once each, oldest first. For the table, the id order lists exactly the
stored ids, and each record is filed under its own id. For the registry:

- the pending-removal list has no duplicates;
- each pending runspace is subscribed to availability changes once;
- each registered runspace is subscribed to state changes;
- distinct runspaces have distinct tables.

State-changing methods state their new state in terms of the old one, and their
`modifies` clauses bound what may change. For example, `EndProcessing` may change only
the command's id and retained output, the table, and the one record filed under the
final id (no record while the module is being removed). Its `ensures` gives that record,
the table's order, watermark and maximums, and every other record unchanged. One value is
deliberately left unspecified: a new per-runspace table's initial watermark (see below). The
table's order after `Add` is the function `OrderAfterAdd`, and the properties of that
order are proved as lemmas. The command-line classification, the assignment rule and
the error slice are pure functions. The loops that compute them are methods proved
equal to those functions.

## Model

| member | source | states |
|---|---|---|
| `Config.Default` | HistoryPx/CaptureOutputConfiguration.cs:8-26 | The variable name is `__`, at most 1000 items are captured, the exclusion list is the built-in one, and value types and null are not captured. |
| `Config.PowerShellVariableIdentifier` | HistoryPx/CaptureOutputConfiguration.cs:28-33 | The identifier is one character longer than the name: a `$` followed by the name. |
| `Config.DefaultIdentifier` | HistoryPx/CaptureOutputConfiguration.cs:8-33 | With the default name the identifier is `$__`. |
| `Config.DefaultExcludedTypesShape` | HistoryPx/CaptureOutputConfiguration.cs:10-24 | The built-in exclusion list has 13 names, among them `System.String` and `Microsoft.PowerShell.Commands.HistoryInfo#Extended`. |
| `Queued.QueuedDictionary.constructor` | HistoryPx/QueuedDictionary.cs:28-32 | The capacity is the argument; the map and the queue start empty. |
| `Queued.QueuedDictionary.Count` | HistoryPx/QueuedDictionary.cs:5-7 | The number of entries equals the number of queued keys. |
| `Queued.QueuedDictionary.Add` | HistoryPx/QueuedDictionary.cs:46-54 | A full queue first loses its oldest key from both the queue and the map. The new key then goes last with its value. Starting within capacity, the count stays within capacity. A key still present after the eviction is excluded, because the base Add throws on it. |
| `Queued.QueuedDictionary.Get` | HistoryPx/QueuedDictionary.cs:36-39 | Returns the mapped value; a missing key is excluded. |
| `Queued.QueuedDictionary.Set` | HistoryPx/QueuedDictionary.cs:40-43 | Behaves as Add (evict when full, then append), not as an in-place update. Starting within capacity, the count stays within capacity. |
| `Queued.QueuedDictionary.Clear` | HistoryPx/QueuedDictionary.cs:56-60 | Empties both the map and the queue and keeps the capacity. |
| `Queued.QueuedDictionary.Remove` | HistoryPx/QueuedDictionary.cs:62-84 | The result is whether the key was present. The key leaves the map, and leaves the queue with the other keys kept in order. An absent key changes nothing. The queue must be non-empty (Peek). |
| `Queued.QueuedDictionary.Requeue` | HistoryPx/QueuedDictionary.cs:72-81 | The rebuilt queue holds every key except the removed one, in the old order. |
| `Queued.QueuedDictionary.SetCapacity` | HistoryPx/QueuedDictionary.cs:16-25 | As written: growing by `d` evicts the `d` oldest keys, and shrinking evicts none. The new capacity is stored. Growth by at least the current count is excluded, because the loop then dequeues or peeks an empty queue and throws (:19-23, :64). |
| `Queued.QueuedDictionary.SetCapacityEvicting` | HistoryPx/QueuedDictionary.cs:16-25 | Intended setter: the oldest keys are evicted until at most `value` remain; the newest keys survive in order. |
| `Sequences.DropOldest` | HistoryPx/QueuedDictionary.cs:19-23 | Evicting `n` keys leaves the key sequence without its `n` oldest keys and the map without exactly those keys (the same loop is the table's eviction, ExtendedHistoryTable.cs:47-51). |
| `Queued.GrowingCapacityEvicts` | HistoryPx/QueuedDictionary.cs:16-25 | Raising the capacity from 3 to 4 with keys 1 and 2 loses key 1. |
| `Queued.ShrinkingCapacityOverflows` | HistoryPx/QueuedDictionary.cs:16-54 | Lowering the capacity from 2 to 1 with two keys, then adding a third, leaves 3 keys under capacity 1. |
| `Queued.ShrinkingCapacityEvicting` | HistoryPx/QueuedDictionary.cs:16-25 | With the intended setter, the same steps leave one key, the newest. |
| `Records.ExtendedHistoryInfo.constructor` | HistoryPx/ExtendedHistoryInfo.cs:14-21 | Id, success flag, output, output count and errors are stored verbatim, null collections included. |
| `Records.ExtendedHistoryInfo.Update` | HistoryPx/ExtendedHistoryInfo.cs:58-63 | The new output follows the old output, the new errors follow the old errors, and the count grows by the given count. Id and success never change. Null collections are excluded (Concat throws). |
| `Records.ExtendedHistoryInfo.Output` | HistoryPx/ExtendedHistoryInfo.cs:28-41 | Null when the output is null; otherwise a fresh array with the same objects in order. |
| `Records.ExtendedHistoryInfo.Error` | HistoryPx/ExtendedHistoryInfo.cs:43-56 | The same copy rule, for the errors. |
| `Records.UpdateTwiceIsUpdateOnce` | HistoryPx/ExtendedHistoryInfo.cs:58-63 | Two updates leave a record in the same state as one update with the concatenated collections and the summed count. |
| `Table.OrderAfterAddProperties` | HistoryPx/ExtendedHistoryTable.cs:33-52 | After Add the order has no duplicates and at most the maximum number of ids. It is a suffix of the old order with the new id appended (unless the id was already present). Under the maximum nothing is evicted. A new id ends up last. |
| `Table.AppendUnderMaximum` | HistoryPx/ExtendedHistoryTable.cs:39-42 | Below the maximum, a new id is simply appended. |
| `Table.ExtendedHistoryTable.constructor` | HistoryPx/ExtendedHistoryTable.cs:15-17 | Defaults: maximum 200 entries, 1000 items per entry, watermark -1, and an empty table. |
| `Table.ExtendedHistoryTable.Item` | HistoryPx/ExtendedHistoryTable.cs:19-23 | Null exactly when the id is absent; otherwise the record filed under that id. |
| `Table.ExtendedHistoryTable.Clear` | HistoryPx/ExtendedHistoryTable.cs:25-29 | Empties the table; the settings and the watermark are kept. |
| `Table.ExtendedHistoryTable.Add` | HistoryPx/ExtendedHistoryTable.cs:33-52 | The order becomes `OrderAfterAdd`. A new id gets a fresh record built from the arguments. An existing id keeps its record object, which is merged by Update. Every other surviving record keeps its object and its output, count and errors. The maximums, the watermark and the removal flag are unchanged, and records that all hold both collections still do when both new collections are present. |
| `Table.ExtendedHistoryTable.Insert` | HistoryPx/ExtendedHistoryTable.cs:39-42 | A new id gets a fresh record built from the arguments and goes last in the order; the other records stay filed. |
| `Table.ExtendedHistoryTable.MoveWatermark` | HistoryPx/OutDefaultCommand.cs:321-323 | Sets the watermark to the hash code of the newest error collected; its frame is that one field, so the order, the records and the removal flag are unchanged. |
| `Table.ExtendedHistoryTable.EndRemoval` | HistoryPx/OutDefaultCommand.cs:322-337 | Resets the removal flag and moves the watermark; its frame is those two fields, so no record and no other setting changes. |
| `Table.ExtendedHistoryTable.Merge` | HistoryPx/ExtendedHistoryTable.cs:43-46 | The record filed under the id gets the contribution appended and the count added; no other record changes. |
| `Table.ExtendedHistoryTable.EvictOldest` | HistoryPx/ExtendedHistoryTable.cs:47-51 | Drops the oldest entries until the count is within the maximum; the survivors keep their records and order. |
| `Table.ExtendedHistoryTable.Remove` | HistoryPx/ExtendedHistoryTable.cs:54-58 | Only that id leaves the order and the map; an absent id changes nothing. |
| `Table.ExtendedHistoryTable.RemoveAllExcept` | HistoryPx/ExtendedHistoryTable.cs:60-85 | As written: a null or empty list clears the table. Otherwise exactly the listed ids are removed, and the others keep their records and order. |
| `Table.ExtendedHistoryTable.RemoveAllExceptListed` | HistoryPx/ExtendedHistoryTable.cs:60-85 | Intended: exactly the listed ids are kept, in table order. |
| `Table.ExtendedHistoryTable.RemoveIds` | HistoryPx/ExtendedHistoryTable.cs:80-83 | Removing the collected ids one by one filters them out of the order and the map. |
| `Table.CollectIds` | HistoryPx/ExtendedHistoryTable.cs:70-78 | The walk over the table's ids collects those in the list (or, for the intended version, those not in it), in table order. |
| `Table.RemoveAllExceptDropsListed` | HistoryPx/ExtendedHistoryTable.cs:70-78 | For a table of ids 1 and 2, "all except [1]" as written leaves [2]. |
| `Table.RemoveAllExceptListedKeepsListed` | HistoryPx/ExtendedHistoryTable.cs:60-85 | The intended version leaves [1]. |
| `Table.ThreeEntryScenario` | HistoryPx/ExtendedHistoryTable.cs:33-52 | With a maximum of 3, ids 1 to 4 leave [2, 3, 4]. A second Add for 2 keeps [2, 3, 4]. Keeping 3 and 4 with the intended `RemoveAllExceptListed` leaves [3, 4]; the source's `RemoveAllExcept` would leave [2] (:74). |
| `Table.FourthEvictsFirst` | HistoryPx/ExtendedHistoryTable.cs:47-51 | A fourth id in a full table of three evicts the first. |
| `Table.ExistingKeepsPlace` | HistoryPx/ExtendedHistoryTable.cs:43-46 | An id already present keeps its position. |
| `OutDefault.StripPrefix` | HistoryPx/OutDefaultCommand.cs:122 | Removes one leading `Deserialized.`, or else one leading `Selected.`, and nothing else. |
| `OutDefault.Forms` | HistoryPx/OutDefaultCommand.cs:122-127 | Three spellings, among them the type name itself. |
| `OutDefault.AdmittedExcludesListed` | HistoryPx/OutDefaultCommand.cs:117-131 | An admitted object has no type name in the exclusion list, under its own spelling or with either prefix. |
| `OutDefault.FormsIgnorePrefix` | HistoryPx/OutDefaultCommand.cs:120-127 | `x`, `Deserialized.x` and `Selected.x` are filtered alike. |
| `OutDefault.NoListCapturesNothing` | HistoryPx/OutDefaultCommand.cs:118-119 | A null or empty exclusion list admits nothing. |
| `OutDefault.DefaultExcludesStrings` | HistoryPx/OutDefaultCommand.cs:117-131 | By default strings are not captured. |
| `OutDefault.DefaultExcludesDeserializedStrings` | HistoryPx/OutDefaultCommand.cs:117-131 | By default deserialized strings are not captured either. |
| `OutDefault.DefaultAdmitsFileInfo` | HistoryPx/OutDefaultCommand.cs:117-131 | By default a `System.IO.FileInfo` is captured. |
| `OutDefault.ListedNotAdmitted` | HistoryPx/OutDefaultCommand.cs:120-127 | An object with a type name in the exclusion list is not captured. |
| `OutDefault.UnlistedLength` | HistoryPx/CaptureOutputConfiguration.cs:10-24 | No built-in exclusion has 18, 27 or 31 characters. |
| `OutDefault.Unprefixed` | HistoryPx/OutDefaultCommand.cs:122 | A name starting with neither prefix is its own stripped form. |
| `OutDefault.MentionsIgnoresCase` | HistoryPx/OutDefaultCommand.cs:260-263 | Whether a tree refers to the variable does not depend on the identifier's letter case. |
| `OutDefault.StatementMentionKeeps` | HistoryPx/OutDefaultCommand.cs:258-264 | A statement that refers to the variable makes the command line keep it. |
| `OutDefault.UnwrapToVariable` | HistoryPx/OutDefaultCommand.cs:213-237 | The do-while unwrapping index targets and member owners ends at a variable exactly when `RootIsVariable` holds. |
| `OutDefault.StatementIsExempt` | HistoryPx/OutDefaultCommand.cs:176-246 | A statement is exempt exactly when it is an assignment, a function definition, or a one-element pipeline whose command expression is `++`/`--` (prefix or postfix) or a variable reached through indexes and members. |
| `OutDefault.ClassifyKeep` | HistoryPx/OutDefaultCommand.cs:168-264 | The value is kept exactly when any one holds: there is no tree; there is no end block, or it has no statements; every statement is exempt; some node refers to the variable. |
| `OutDefault.Assignment` | HistoryPx/OutDefaultCommand.cs:267-293 | Kept: no write. No items: null exactly when null is captured. One item: set, unless it is a value type and value types are not captured. Several items: the whole collection. |
| `OutDefault.DefaultSkipsValuesAndNull` | HistoryPx/OutDefaultCommand.cs:267-285 | By default a lone value-type result and an empty result leave the variable alone. |
| `OutDefault.CollectedFromLog` | HistoryPx/OutDefaultCommand.cs:299-317 | Only log entries are collected: none of a skipped kind, none that is the watermark entry, and no more than the log holds. |
| `OutDefault.CollectedStep` | HistoryPx/OutDefaultCommand.cs:306-316 | An entry before the watermark is collected exactly when it is not of a skipped kind. |
| `OutDefault.CollectedStopsAtWatermark` | HistoryPx/OutDefaultCommand.cs:301-305 | Nothing at or after the first watermark entry is collected. |
| `OutDefault.CollectedWithoutWatermark` | HistoryPx/OutDefaultCommand.cs:299-317 | Without a watermark, every entry that is not a skipped kind is collected. |
| `OutDefault.SliceAgainIsEmpty` | HistoryPx/OutDefaultCommand.cs:319-324 | Slicing the same log again, against the watermark a slice just set, collects nothing, provided something was collected and the newest collected entry's hash code is not -1 (-1 means "no watermark", :301). |
| `OutDefault.ExemptCommandLinesKeep` | HistoryPx/OutDefaultCommand.cs:176-246 | For any identifier, the variable keeps its value after the command lines `$x = 1`, `$x++`, `$x[0].Name` and `function f { 1 }`. |
| `OutDefault.BareCommandRefreshes` | HistoryPx/OutDefaultCommand.cs:168-264 | For any identifier, a bare command such as `Get-ChildItem` refreshes the variable. |
| `OutDefault.MixedLineRefreshes` | HistoryPx/OutDefaultCommand.cs:168-264 | `Get-ChildItem; $x = 1` refreshes the variable unless its identifier equals `$x` ignoring case: a line is exempt only when all its statements are. |
| `OutDefault.MinusOneHashSlicesAgain` | HistoryPx/OutDefaultCommand.cs:299-321 | An entry whose hash code is -1 is collected again by the next slice, since the watermark it sets reads as none. |
| `OutDefault.WrapAll` | HistoryPx/OutDefaultCommand.cs:316 | Each entry is wrapped as an object, in order. |
| `OutDefault.CollectErrors` | HistoryPx/OutDefaultCommand.cs:297-317 | The loop's result is the collected entries, wrapped, newest first. |
| `OutDefault.WrapAllSnoc` | HistoryPx/OutDefaultCommand.cs:316 | Wrapping one more entry appends its wrapper. |
| `OutDefault.SliceErrors` | HistoryPx/OutDefaultCommand.cs:297-324 | The errors are the collected entries, wrapped and reversed to oldest first. The watermark moves to the newest collected entry, or stays when nothing is collected. |
| `OutDefault.DecimalString` | HistoryPx/OutDefaultCommand.cs:158 | The count is rendered as decimal digits without a leading zero. |
| `OutDefault.DecimalRoundTrip` | HistoryPx/OutDefaultCommand.cs:158 | The rendered count reads back as the count. |
| `OutDefault.OmissionWarning` | HistoryPx/OutDefaultCommand.cs:156-161 | A warning record with the warning-stream property and the text `<Omitting n history information objects>`. |
| `OutDefault.ErrorRecordOf` | HistoryPx/OutDefaultCommand.cs:62-71 | The error record is the input itself when it is one, or the ErrorRecord property of an object that contains one. |
| `OutDefault.OutDefaultCommand.constructor` | HistoryPx/OutDefaultCommand.cs:29-35 | Empty collections, no adjustment, zero counters, history id -1, no tree. |
| `OutDefault.OutDefaultCommand.BeginProcessing` | HistoryPx/OutDefaultCommand.cs:37-50 | Resets the helpers and takes the invocation's history id and the pipeline's tree. |
| `OutDefault.OutDefaultCommand.ProcessRecord` | HistoryPx/OutDefaultCommand.cs:57-133 | An error-stream record never raises the history id. It lowers the id to a smaller record id, and sets the adjust flag for id -1 only when the error came from a throw statement or wraps a parent's record. Other input is retained up to the per-entry maximum, or else counted as removed. History objects are never retained. Each output input is counted exactly once. Input is captured exactly when the list has room and the filter admits it. |
| `OutDefault.OutDefaultCommand.EndProcessing` | HistoryPx/OutDefaultCommand.cs:139-341 | The id drops by one after an adjustment. The output count is the retained items plus both removal counters, taken before the warning goes first. The variable write follows `Assignment` over the classification. The watermark follows `SliceErrors`. Success is forced when there is no output and no error. If the removal flag is set it is reset and nothing is recorded; otherwise the record is added or merged under the final id. Every record under another id is unchanged, the table stays valid with both collections in every record, and its maximums are kept, so a next command can run. Only the id and the retained output of the command change. |
| `OutDefault.OutDefaultCommand.LastValueWrite` | HistoryPx/OutDefaultCommand.cs:162-293 | The variable write is `Assignment` applied to the command line's classification, for the identifier built from the configured name. |
| `OutDefault.OutDefaultCommand.Summarize` | HistoryPx/OutDefaultCommand.cs:152-324 | The output is the retained output, behind an omission warning when history objects were dropped. The count covers retained and dropped objects. The errors and the new watermark follow `SliceErrors`. |
| `OutDefault.OutDefaultCommand.RecordExecution` | HistoryPx/OutDefaultCommand.cs:322-341 | Sets the watermark. Then it either resets the removal flag and leaves the table alone, or makes exactly one Add. A fresh record's success flag is the shell's flag, or true when there was no output and no error. No record under another id changes, no record at all while the module is removed, and the table's maximums and the both-collections invariant are kept. |
| `OutDefault.OutDefaultCommand.Commit` | HistoryPx/OutDefaultCommand.cs:147-160 | The command keeps the adjusted id and the output with its warning; nothing else of it changes. |
| `Engine.ToLower` | HistoryPx/OutDefaultCommand.cs:261 | Upper-case ASCII letters map to lower case; other characters are unchanged. |
| `Manager.RunspaceTable.constructor` | HistoryPx/ExtendedHistoryManager.cs:71 | A new table built with the registry's two maximums, with no entries. |
| `Manager.RunspaceTable.Clear` | HistoryPx/ExtendedHistoryManager.cs:34 | The table loses its entries. |
| `Manager.RunspaceTable.Add` | HistoryPx/ExtendedHistoryManager.cs:104 | The table receives the entry. |
| `Manager.ExtendedHistoryManager.constructor` | HistoryPx/ExtendedHistoryManager.cs:17-23 | No tables, nothing pending, no subscriptions; it takes the maximums 200 entries and 1000 items per entry (lines 108-109). |
| `Manager.ExtendedHistoryManager.OnRunspaceStateChanged` | HistoryPx/ExtendedHistoryManager.cs:25-38 | For a Closing runspace that is registered: one state subscription goes, and the table is cleared (keeping its watermark) and dropped. Any other case leaves the registry and the subscriptions unchanged. In every case the pending list, the availability subscriptions and the maximums are kept, and every remaining table keeps its entries and its watermark. |
| `Manager.ExtendedHistoryManager.Unregister` | HistoryPx/ExtendedHistoryManager.cs:33-35 | One state subscription of the runspace goes, its table is cleared (keeping its watermark) and dropped, every other table keeps its entries and its watermark, and a balanced registry stays balanced. |
| `Manager.ExtendedHistoryManager.DropTable` | HistoryPx/ExtendedHistoryManager.cs:34-35 | Clears one table, whose watermark is kept, and removes it from the registry; every other table keeps its entries and its watermark. |
| `Manager.ExtendedHistoryManager.OnRunspaceAvailabilityChanged` | HistoryPx/ExtendedHistoryManager.cs:40-58 | As written: a pending runspace that becomes Available or None is unsubscribed from availability changes and unmarked, and its table, if any, is cleared (keeping its watermark) and dropped. Its state subscription stays. Any other case leaves the pending list, the subscriptions and the registry unchanged. In every case the maximums are kept, and every remaining table keeps its entries and its watermark. |
| `Manager.ExtendedHistoryManager.OnRunspaceAvailabilityChangedBalanced` | HistoryPx/ExtendedHistoryManager.cs:40-58 | Intended: the same, and dropping the table drops its one state subscription, so each registered runspace stays subscribed exactly once. Any other case changes none of the registry, the pending list or the subscriptions, and every remaining table keeps its entries and its watermark. |
| `Manager.ExtendedHistoryManager.Unmark` | HistoryPx/ExtendedHistoryManager.cs:49-50 | The availability subscription and the pending mark go together. |
| `Manager.ExtendedHistoryManager.GetTable` | HistoryPx/ExtendedHistoryManager.cs:60-76 | Null with no default runspace. A registered runspace gets its own table back. An unknown runspace gets a fresh table and one new state subscription. |
| `Manager.ExtendedHistoryManager.RemoveTable` | HistoryPx/ExtendedHistoryManager.cs:78-91 | A registered runspace not yet pending is appended to the pending list once and subscribed to availability changes. Every other case changes nothing. |
| `Manager.ExtendedHistoryManager.AddEntry` | HistoryPx/ExtendedHistoryManager.cs:93-106 | The default runspace's registered table receives the entry; no table is created. Its frame is that one table, so the registry does not change, and every table keeps its watermark and every other table its entries. |
| `Manager.ExtendedHistoryManager.GetWatermark` | HistoryPx/ExtendedHistoryManager.cs:113-117 | -1 with no default runspace, with nothing changed. Otherwise the watermark of the default runspace's table. An existing table leaves the registry unchanged. A missing one is created empty with the registry's maximums, filed under the runspace and subscribed once to state changes. The pending list, the availability subscriptions, the maximums and balanced subscriptions are kept. |
| `Manager.ExtendedHistoryManager.SetWatermark` | HistoryPx/ExtendedHistoryManager.cs:118-125 | Sets only the default runspace's table's watermark, keeping every other table's watermark and every table's entries; nothing changes with no default runspace. A missing table is created and subscribed as by the getter; otherwise the registry and the subscriptions are unchanged. |
| `Manager.ReimportDoublesSubscription` | HistoryPx/ExtendedHistoryManager.cs:40-76 | Import, remove, then become available, then import again: 2 state subscriptions for one runspace. |
| `Manager.ReimportKeepsOneSubscription` | HistoryPx/ExtendedHistoryManager.cs:40-76 | With the balanced handler the same steps leave 1. |
| `Manager.RemoveFirst` | HistoryPx/ExtendedHistoryManager.cs:50 | Removing a present id shortens the list by one; an absent id changes nothing. |
| `Manager.RemoveFirstCounts` | HistoryPx/ExtendedHistoryManager.cs:50 | Exactly one occurrence of the id is removed. |
| `Manager.WithoutOne` | HistoryPx/ExtendedHistoryManager.cs:50 | In a duplicate-free list, the first occurrence is the only one. |
| `Manager.Success` | HistoryPx/ExtendedHistoryManager.cs:196-208 | False for a failed command. Otherwise the recorded flag when there is a record (a null flag is excluded, since the cast throws), and "completed" when there is none. |
| `Manager.OutputCountMember` | HistoryPx/ExtendedHistoryManager.cs:215 | The recorded count when it is positive; null otherwise, including when there is no record. |
| `Manager.ExtendHistoryInfoObject` | HistoryPx/ExtendedHistoryManager.cs:176-188 | A non-history item passes through unchanged; a history item gets the extended type name in front. |
| `Manager.ExtendedObjectsNotCaptured` | HistoryPx/ExtendedHistoryManager.cs:188 | By default an extended history object is never captured into the variable. |

## Left out

- Manager.ExtendedHistoryManager.RemoveTable: assumes a default runspace exists, and takes that runspace's id as its parameter. Without a default runspace the source would fail with a null dereference, which the model does not represent. The source reads the default runspace's id without a null check (HistoryPx/ExtendedHistoryManager.cs:80-81), and its only caller, the module's removal handler (:154-163), runs on a runspace's thread.
- Reflection into the engine's private fields is not part of this model (`PowerShellInternals.cs`, `RunspaceInternals.cs`). Only its outcome enters, as an input: the current pipeline's tree, or `None`.
- The cmdlet and module-hook wrappers `GetHistoryCommand.cs`, `ClearHistoryCommand.cs`, `ModuleAssemblyInitializer.cs` and `ModuleAssemblyCleanup.cs` are not part of this model. They only forward to the manager.
- The proxy and steppable-pipeline calls of `OutDefaultCommand` and the formatted display are host I/O. Their only effect on the modelled state is none.
- Reading `$?` and `$Error`, and setting the variable, are session I/O. The success flag and the error log are parameters of `EndProcessing`, and the variable write is its result.
- `OnImportModule`, `OnRemoveModule` and `SyncWithHistoryTable` are session-state I/O, and `ExtendedHistoryTable.cs` declares no `Sync` method (ExtendedHistoryManager.cs:173 calls one on the per-runspace table). The static `Add` forwards to `AddEntry`, which is modelled.
- ExtendHistoryInfoObject: the Duration property (date arithmetic) and the other note properties are left out. Only the extended type name, `Success` and `OutputCount` are modelled, and the table lookup is not done: the recorded flag is an argument of `Success`.
- Engine objects are abstract. Objects carry a kind, type names, note-property names and a value-type flag. Hash codes are given integers. The anchored regular expression is prefix stripping. Error-log entries wrapped as objects carry no type names.
- `Engine.EqualsIgnoreCase`: `string.Compare(a, b, true)` folds case by culture; the model folds ASCII only.
- Aliasing: `ExtendedHistoryInfo`'s constructor keeps the caller's collections, and `ExtendHistoryInfoObject` inserts the type name into the item's own `TypeNames`. The model keeps collections as values and returns the extended object as a new value, so a caller that still holds the collection or the item sees no change.
- Integer widths: history ids (`long`), counters and counts (`int`) are unbounded. The removal counters cannot wrap.
- Event handlers run one at a time, with no locking and no threads. A handler subscribed twice is invoked once per event in the model.
- `ExtendedHistoryTable.cs` declares no `OnRemove` member, though `OutDefaultCommand.cs:334-336` reads and resets `ExtendedHistoryTable.OnRemove`. It is the table object's `onRemove` field.
- `CaptureOutputConfiguration.cs` has no `PowerShellVariableName`, which `OutDefaultCommand.cs:261-263` compares against. The compared identifier is `PowerShellVariableIdentifier`, that is `$` followed by the name.
- The configuration's public static fields appear as one value passed to the operations that read them. A reassignment between calls is a different argument.
- The manager's per-runspace table, an `ExtendedHistoryTable` with a two-argument constructor (ExtendedHistoryManager.cs:71), belongs to a different API generation from the static class in `ExtendedHistoryTable.cs`. `Manager.RunspaceTable` records the entries it is given and does nothing else; its eviction and merge are not modelled, its initial watermark is unspecified, and output sources are omitted.
- RemoveAllExcept's list holds boxed ids, and unboxing fails for a non-`long` object. The model takes a list of integers.
- `OutDefault.Assignment`: the "single null item" case at OutDefaultCommand.cs:270 is absent, because the captured collection only ever receives non-null input (:60).

## Findings

| source | as written | input that shows it | evidently intended | confidence | as-written member | corrected member |
|---|---|---|---|---|---|---|
| HistoryPx/ExtendedHistoryTable.cs:74 | Collects the table ids that DO occur in the list and removes them. | Table holding ids 1 and 2; "remove all except [1]" leaves 2. | Keep the listed ids and remove the others. | high; not executed | `Table.ExtendedHistoryTable.RemoveAllExcept`, `Table.RemoveAllExceptDropsListed` | `Table.ExtendedHistoryTable.RemoveAllExceptListed`, `Table.RemoveAllExceptListedKeepsListed` |
| HistoryPx/QueuedDictionary.cs:18 | Evicts `value - capacity` keys, which is positive when the capacity GROWS. | Capacity 3 with keys 1 and 2; setting 4 evicts key 1. | Evict only when the new capacity is below the count. | high; not executed | `Queued.QueuedDictionary.SetCapacity`, `Queued.GrowingCapacityEvicts` | `Queued.QueuedDictionary.SetCapacityEvicting`, `Queued.ShrinkingCapacityEvicting` |
| HistoryPx/QueuedDictionary.cs:18-24, 48 | Shrinking evicts nothing, and Add only evicts when the count EQUALS the capacity, so the dictionary outgrows it. | Capacity 2 with keys 1 and 2; setting 1 and adding key 3 leaves 3 keys. | Evict down to the new capacity, so later Adds stay within it. | high; not executed | `Queued.QueuedDictionary.SetCapacity`, `Queued.ShrinkingCapacityOverflows` | `Queued.QueuedDictionary.SetCapacityEvicting`, `Queued.ShrinkingCapacityEvicting` |
| HistoryPx/ExtendedHistoryManager.cs:51-55 | Drops a table without removing the StateChanged handler that GetTable added with it; a later GetTable adds a second one. | Import, remove, runspace available, import again: two subscriptions for one runspace. | One state subscription per registered table. | medium; not executed | `Manager.ExtendedHistoryManager.OnRunspaceAvailabilityChanged`, `Manager.ReimportDoublesSubscription` | `Manager.ExtendedHistoryManager.OnRunspaceAvailabilityChangedBalanced`, `Manager.ReimportKeepsOneSubscription` |
