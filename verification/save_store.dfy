/**
 The host's save directory for the active character, seen as an immutable store
 from folder key to the save's metadata, and the host save-manager calls the mod
 makes on it (rename, delete, quicksave) as pure transitions.
 */
module SaveStore {

  /** The reserved name of the quicksave slot. */
  const QuickSaveName: string := "QuickSave"

  /** The marker a renamed quicksave carries; pruning selects slots containing it. */
  const BackupName: string := "QuickSave.old"

  /** The metadata the mod reads from a save folder: its name and its timestamp. */
  datatype Slot = Slot(saveName: string, realTime: int)

  /** Save folders of the active character, by folder key. */
  type Store = map<int, Slot>

  /** A host call the mod issues, in the order it issues them. */
  datatype HostCall =
    | RenameCall(key: int, name: string)
    | DeleteCall(key: int)
    | QuickSaveCall
    | MessageBoxCall(textKey: string)

  predicate StartsWith(s: string, prefix: string) {
    |prefix| <= |s| && s[..|prefix|] == prefix
  }

  /** Ordinal substring test, as string.Contains performs it. */
  predicate Contains(s: string, needle: string)
    decreases |s|
  {
    StartsWith(s, needle) || (|s| > 0 && Contains(s[1..], needle))
  }

  /** The needle occurs in s starting at position i. */
  predicate OccursAt(s: string, needle: string, i: int) {
    0 <= i && i + |needle| <= |s| && s[i..i + |needle|] == needle
  }

  /** The recursive substring test agrees with the positional definition. */
  lemma {:induction false} ContainsIffOccurs(s: string, needle: string)
    ensures Contains(s, needle) <==> exists i :: OccursAt(s, needle, i)
    decreases |s|
  {
    if StartsWith(s, needle) {
      assert OccursAt(s, needle, 0);
    } else if |s| > 0 {
      ContainsIffOccurs(s[1..], needle);
      if Contains(s[1..], needle) {
        var i :| OccursAt(s[1..], needle, i);
        assert s[i + 1..i + 1 + |needle|] == s[1..][i..i + |needle|];
        assert OccursAt(s, needle, i + 1);
      } else {
        forall i | 0 < i && i + |needle| <= |s|
          ensures OccursAt(s, needle, i) == OccursAt(s[1..], needle, i - 1)
        {
          assert s[i..i + |needle|] == s[1..][i - 1..i - 1 + |needle|];
        }
      }
    }
  }

  /** A string never contains a longer one. */
  lemma {:induction false} ContainsOnlyShorter(s: string, needle: string)
    requires Contains(s, needle)
    ensures |needle| <= |s|
    decreases |s|
  {
    if !StartsWith(s, needle) {
      ContainsOnlyShorter(s[1..], needle);
    }
  }

  /** Whether a slot is one the retention policy counts as a backup. */
  predicate IsBackup(slot: Slot) {
    Contains(slot.saveName, BackupName)
  }

  /** A name built from the backup marker is a backup, and the quicksave name is not. */
  lemma BackupNames(suffix: string, realTime: int)
    ensures IsBackup(Slot(BackupName + suffix, realTime))
    ensures !IsBackup(Slot(QuickSaveName, realTime))
    ensures BackupName + suffix != QuickSaveName
  {
    assert (BackupName + suffix)[..|BackupName|] == BackupName;
    if IsBackup(Slot(QuickSaveName, realTime)) {
      ContainsOnlyShorter(QuickSaveName, BackupName);
    }
  }

  /** Keys of the backup slots of a store. */
  function Backups(s: Store): set<int> {
    set k | k in s && IsBackup(s[k])
  }

  predicate IsQuickSave(s: Store, k: int) {
    k in s && s[k].saveName == QuickSaveName
  }

  /** The host keeps at most one folder under the quicksave name. */
  predicate QuickSaveUnique(s: Store) {
    forall a, b :: a in s && b in s && IsQuickSave(s, a) && IsQuickSave(s, b) ==> a == b
  }

  /** HasQuickSave: some folder carries the quicksave name. */
  predicate HasQuickSave(s: Store) {
    exists k :: k in s && IsQuickSave(s, k)
  }

  /** FindSaveFolderByNames for the quicksave name. */
  function FindQuickSave(s: Store): (k: int)
    requires QuickSaveUnique(s) && HasQuickSave(s)
    ensures IsQuickSave(s, k)
    ensures forall j :: IsQuickSave(s, j) ==> j == k
  {
    var k :| k in s && IsQuickSave(s, k); k
  }

  /** Rename: only the named folder changes, and only its name. */
  function Rename(s: Store, key: int, name: string): (r: Store)
    ensures r.Keys == s.Keys
    ensures key in s ==> r[key] == Slot(name, s[key].realTime)
    ensures forall k :: k in s && k != key ==> r[k] == s[k]
  {
    if key in s then s[key := s[key].(saveName := name)] else s
  }

  /** DeleteSaveFolder: the folder disappears and nothing else changes. */
  function DeleteSaveFolder(s: Store, key: int): (r: Store)
    ensures r.Keys == s.Keys - {key}
    ensures forall k :: k in r ==> r[k] == s[k]
  {
    s - {key}
  }

  /**
   QuickSave: overwrites the existing quicksave folder, or creates one under the
   fresh key the host picks; in both cases the result holds exactly one quicksave,
   stamped with the current time, and every other folder is untouched.
   */
  function QuickSave(s: Store, newKey: int, now: int): (r: Store)
    requires QuickSaveUnique(s) && newKey !in s
    ensures QuickSaveUnique(r) && HasQuickSave(r)
    ensures r[FindQuickSave(r)].realTime == now
    ensures HasQuickSave(s) ==> r.Keys == s.Keys && FindQuickSave(r) == FindQuickSave(s)
    ensures !HasQuickSave(s) ==> r.Keys == s.Keys + {newKey} && FindQuickSave(r) == newKey
    ensures forall k :: k in s && !IsQuickSave(s, k) ==> k in r && r[k] == s[k]
  {
    var slot := Slot(QuickSaveName, now);
    var key := if HasQuickSave(s) then FindQuickSave(s) else newKey;
    var r := s[key := slot];
    assert IsQuickSave(r, key);
    r
  }

  /** A quicksave neither creates nor removes a backup. */
  lemma QuickSaveKeepsBackups(s: Store, newKey: int, now: int)
    requires QuickSaveUnique(s) && newKey !in s
    ensures Backups(QuickSave(s, newKey, now)) == Backups(s)
  {
    var r := QuickSave(s, newKey, now);
    BackupNames("", now);
    forall k ensures k in Backups(r) <==> k in Backups(s) {
      if k in s && IsQuickSave(s, k) {
        BackupNames("", s[k].realTime);
      }
    }
  }
}
