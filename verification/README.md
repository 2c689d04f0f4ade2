# MultiQS, modelled in Dafny

MultiQS is a Daggerfall Unity mod that keeps several quicksaves instead of one.
It takes over the game's quicksave key. When that key goes down and saving is
allowed, the mod renames the existing quicksave slot to `QuickSave.old` followed
by its formatted timestamp. Unless retention is unlimited, it then deletes the
oldest backups until at most `MaxOldQuicksavesNumber` remain. Finally it asks the
game to quicksave. The player's chosen key is kept in a one-line restore file,
and the game's own quicksave binding is kept cleared.

The model has one module per concern:

- `SaveStore` (`save_store.dfy`): the active character's save folders as a map
  from folder key to `Slot(saveName, realTime)`. It also holds the save manager's
  calls (rename, delete, quicksave) as pure transitions, the `BackupName`
  constant, and the ordinal substring test.
- `Retention` (`retention.dfy`): `RemoveOldQuickSaves`. It filters backups in the
  host's listing order, sorts them by timestamp, and deletes from the front.
- `QuickSaveHotkey` (`quicksave_hotkey.dfy`): `BackupQuickSave` and the key-down
  branch of `Update`, together with the `TimeFormat` choice. Each step returns the
  new store and the trace of host calls it made, in order.
- `KeyHijack` (`key_hijack.dfy`): `LoadQSKey`, `UpdateKey` and
  `OnQuickSaveKeyChanged`, over the restore file, the live binding, the persisted
  binding and the hijacked key.
- `SeqFacts` and `Wrappers`: shared helpers.

Several things the mod depends on are parameters of the model:

- the host's enumeration order of save keys;
- timestamp formatting (`DateTime.ToString` with a pattern);
- key-name parsing and printing (`Enum.Parse`, `KeyCode.ToString`);
- the key the host picks for a new quicksave folder, as a function of the store it saves into (`PicksFreshKeys`), so it may reuse a key the same key press just freed;
- the current time;
- the "saving prevented" flag.

## Model

| member | source | states |
|---|---|---|
| SaveStore.ContainsIffOccurs | scripts/MultiQS.cs:109 | The backup filter's substring test holds exactly when the marker occurs at some position of the name. |
| SaveStore.BackupNames | scripts/MultiQS.cs:96-97 | A name built from the backup marker is counted as a backup. The quicksave name is not, and the two names differ. |
| SaveStore.FindQuickSave | scripts/MultiQS.cs:90 | Under the one-quicksave invariant, the folder found is the quicksave, and it is the only one. |
| SaveStore.Rename | scripts/MultiQS.cs:97 | Renaming changes only the named folder's name. Its timestamp and every other folder stay the same. |
| SaveStore.DeleteSaveFolder | scripts/MultiQS.cs:122 | Deleting removes exactly that folder and changes nothing else. |
| SaveStore.QuickSave | scripts/MultiQS.cs:84 | Quicksaving leaves exactly one quicksave, stamped now. It reuses the existing quicksave's folder, or otherwise adds exactly the new key. Other folders are untouched. |
| SaveStore.QuickSaveKeepsBackups | scripts/MultiQS.cs:84 | A quicksave neither creates nor removes a backup. |
| Retention.CollectBackups | scripts/MultiQS.cs:104-113 | The filtered list holds exactly the listed keys whose name contains the backup marker. |
| Retention.CollectBackupsCount | scripts/MultiQS.cs:104-115 | Over a full listing (`Enumerates`: the keys `GetCharacterSaveKeys` returns, each exactly once), the filtered keys are the store's backups, and the count compared with the maximum is the number of backups. |
| Retention.InsertByTime | scripts/MultiQS.cs:117-119 | Insertion adds exactly one key, and it keeps the sequence ordered by timestamp. |
| Retention.SortByTime | scripts/MultiQS.cs:117-119 | The sort returns a permutation of its input, ordered by ascending timestamp. |
| Retention.DeleteEarliest | scripts/MultiQS.cs:120-124 | The loop deletes exactly the queue's front part that leaves max entries, or nothing when at most max are queued. Only those folders disappear. |
| Retention.SortedBackups | scripts/MultiQS.cs:115-119 | The queue holds every backup exactly once, earliest first. |
| Retention.RemoveOldQuickSaves | scripts/MultiQS.cs:102-126 | Only deleted folders disappear, and only backups are deleted. Every non-backup folder survives unchanged. |
| Retention.PruneDeletesQueuePrefix | scripts/MultiQS.cs:115-125 | Pruning deletes the sorted queue's front part that leaves max entries, and nothing when the count is not above max. |
| Retention.PruneNoOpWithinMax | scripts/MultiQS.cs:115 | With no more backups than max (the strict comparison), pruning changes nothing. |
| Retention.PruneDeletedSorted | scripts/MultiQS.cs:117-124 | The deleted keys are distinct and are deleted in ascending timestamp order. |
| Retention.PruneLeavesMax | scripts/MultiQS.cs:115-125 | Above max, exactly count − max folders are deleted and exactly max backups remain. |
| Retention.PruneDeletesEarliest | scripts/MultiQS.cs:117-124 | Every deleted backup is stamped no later than every surviving backup. |
| Retention.EveryTimeOrderArises | scripts/MultiQS.cs:117-119 | Every arrangement of the backups in timestamp order, however ties fall, is the queue for some listing of the store. The listing parameter therefore covers every order the unstable sort may return. |
| QuickSaveHotkey.TimeFormat | scripts/MultiQS.cs:55-60 | The pattern is a date `yyyyMMdd_` followed by time `:mm:ss`. The hour field is the 24-hour `HH` exactly when the setting is on. Otherwise it is the 12-hour `hh` followed by the AM/PM designator ` tt`. |
| QuickSaveHotkey.RenameAddsBackup | scripts/MultiQS.cs:94-97 | Renaming the quicksave to `BackupNameFor` its timestamp (the marker followed by the formatted time) turns it into a backup that was not one before. It adds exactly that folder to the backups and leaves no quicksave. |
| QuickSaveHotkey.PruneUnlessUnlimited | scripts/MultiQS.cs:98-99 | With unlimited retention nothing is deleted. Otherwise only backups are deleted and nothing else changes. |
| QuickSaveHotkey.BackupQuickSave | scripts/MultiQS.cs:88-100 | The backup step adds no folder and leaves no quicksave behind. |
| QuickSaveHotkey.BackupQuickSaveCalls | scripts/MultiQS.cs:88-100 | The rename of the quicksave comes first. Every later call deletes a backup or the renamed folder. With unlimited retention the rename is the only call. |
| QuickSaveHotkey.BackupQuickSaveRetains | scripts/MultiQS.cs:96-125 | The renamed backup is counted, so min(backups + 1, max) backups remain. With max = 0 every backup is deleted, including the one just renamed. |
| QuickSaveHotkey.BackupQuickSaveUnlimited | scripts/MultiQS.cs:97-99 | With unlimited retention the backups are the old ones plus the renamed quicksave, and the store is the rename alone. |
| QuickSaveHotkey.OnQuickSaveKeyDown | scripts/MultiQS.cs:75-85 | When saving is prevented, the store is unchanged and the only call is one message. Otherwise the backup step runs when `HasQuickSave` holds, and the last call is the quicksave. The host picks a key not in use in the store after the rename and prune. Exactly one quicksave remains, stamped now. |
| QuickSaveHotkey.KeyDownWithoutQuickSave | scripts/MultiQS.cs:82-84 | When `HasQuickSave` is false, the only call is the quicksave, into the folder the host picks for the unchanged store. |
| QuickSaveHotkey.KeyDownRenamesFirst | scripts/MultiQS.cs:55-99 | The rename comes first, to `QuickSave.old` plus the timestamp in the configured 24-hour or 12-hour pattern. Deletes of backups follow, and the quicksave comes last. Unlimited retention means exactly two calls. |
| QuickSaveHotkey.KeyDownKeepsOthers | scripts/MultiQS.cs:73-126 | A key press leaves every folder that is neither a backup nor the quicksave unchanged. |
| KeyHijack.FirstLine | scripts/MultiQS.cs:133 | An empty file has no first line. Otherwise the first line is the longest line-break-free prefix of the contents. |
| KeyHijack.SaveKeyBinds | scripts/MultiQS.cs:154 | Persisting bindings records the live binding and changes nothing else. |
| KeyHijack.UpdateKey | scripts/MultiQS.cs:158-163 | The mod listens for the previous live binding and writes its name to the restore file. The live binding ends cleared. |
| KeyHijack.LoadQSKey | scripts/MultiQS.cs:128-155 | A file without lines fails, and so does a first line whose number overflows, since only the argument error is caught. A name that parses is listened for, and the file is kept. A line that is not a key name falls back to F9 and rewrites the file to "F9". Without a file, the live key is taken over. On success the binding is cleared and the cleared binding is persisted. |
| KeyHijack.OnQuickSaveKeyChanged | scripts/MultiQS.cs:166-172 | A cleared binding changes nothing. Any other binding is taken over as `UpdateKey` does. |
| KeyHijack.UpdateThenLoadRestores | scripts/MultiQS.cs:128-163 | The key written by `UpdateKey` is the key the next load listens for, and that load keeps the file. |
| KeyHijack.LoadIdempotent | scripts/MultiQS.cs:128-155 | Loading again after a successful load gives the same state. |
| KeyHijack.LoadEstablishesConsistent | scripts/MultiQS.cs:128-155 | After a successful load, the restore file names the key listened for, and the game's binding is cleared. |
| KeyHijack.RebindKeepsConsistent | scripts/MultiQS.cs:157-172 | The host saves the new binding k, then the handler runs. The handler keeps the file and the listened key in step. A new key is taken over and written to the file, and a cleared binding leaves the rest as it was. The persisted binding stays k, because the handler clears only the live one. |
| KeyHijack.RebindThenRestart | scripts/MultiQS.cs:128-172 | After a rebinding and a restart, loading listens for the new key again, or for the old key if the binding was cleared, and persists the cleared binding. This holds whatever binding the host makes live at the start. |

## Left out

- The Unity lifecycle is not modelled: `Init`, the `Awake` setting reads, directory creation and event registration. The per-frame input polling is not modelled either. The key-down handler is modelled as one step taken when the hijacked key goes down.
- File I/O is not modelled. The restore file is an optional string in the state.
- Save-manager internals are not modelled: the on-disk save format, `GetSaveInfo`, and filtering saves by player name. The store holds the active character's folders only.
- `DateTime.FromBinary(..).ToString(pattern)` is a function parameter, because its output is culture-dependent. The model fixes only which pattern is passed in.
- `Enum.Parse` and `KeyCode.ToString` are function parameters. Round-trip properties assume the two agree (`WellBehaved`). That the literal "F9" parses to F9 is taken as given.
- Localised message text and `Debug.LogWarning` are not modelled. The message is recorded by its text key alone.
- `Settings.maxBackups` is a natural number. A negative `MaxOldQuicksavesNumber` would make the source's deletion loop call `First()` on an empty list and throw.
- `Retention.SortByTime` is a stable insertion sort over the host's listing order, but `List.Sort` is not stable. So the listing parameter also decides how ties fall. `Retention.PruneDeletesQueuePrefix` describes the deletions for that particular tie order. `Retention.EveryTimeOrderArises` shows that every timestamp-sorted arrangement of the backups arises from some listing, so properties proved for all listings cover every tie order the source may produce.
- `KeyHijack.LoadQSKey` models two cases as failures with nothing changed: an empty restore file, and a first line on which `Enum.Parse` overflows. In the source, `First()` throws in the first case, and only `ArgumentException` is caught in the second, so the exception leaves `Awake` in both.
- `KeyHijack.OnQuickSaveKeyChanged` clears the host's live binding without saving the bindings again. The model does not say whether the host quicksaves on the saved key before the next start, because that depends on input-manager internals that are not part of this model.
- Max = 0 follows the code. The rename happens before pruning, so the backup made in the same call is counted, and with max = 0 it is deleted at once (`QuickSaveHotkey.BackupQuickSaveRetains`).
- Stores with more than one folder named `QuickSave` are not modelled (`QuickSaveUnique`). The host's quicksave overwrites its one slot, and under that invariant the folder `FindSaveFolderByNames` returns is determined.
- Re-applying default bindings at start-up is not modelled. The host restores defaults for a binding left at none, but `KeyHijack.RebindThenRestart` holds for any binding made live at start, because a present restore file makes loading ignore it.
