/**
 The quicksave hotkey handler: when the hijacked key goes down, refuse if the
 host forbids saving; otherwise rename an existing quicksave into a timestamped
 backup, prune old backups unless retention is unlimited, and then quicksave.
 */
module QuickSaveHotkey {
  import opened SaveStore
  import opened SeqFacts
  import opened Retention

  /** The mod settings the handler reads. */
  datatype Settings = Settings(maxBackups: nat, unlimited: bool, twentyFourHour: bool)

  /** Localisation key of the message shown when saving is prevented. */
  const CannotSaveNow: string := "cannotSaveNow"

  /** The timestamp pattern the settings select: 24-hour, or 12-hour with an AM/PM marker. */
  function TimeFormat(cfg: Settings): (pattern: string)
    ensures |pattern| >= 17 && pattern[..9] == "yyyyMMdd_" && pattern[11..17] == ":mm:ss"
    ensures cfg.twentyFourHour <==> pattern[9..11] == "HH"
    ensures !cfg.twentyFourHour <==> pattern[9..11] == "hh" && pattern[17..] == " tt"
    ensures cfg.twentyFourHour ==> |pattern| == 17
  {
    var pattern := if cfg.twentyFourHour then "yyyyMMdd_HH:mm:ss" else "yyyyMMdd_hh:mm:ss tt";
    assert pattern[9] == (if cfg.twentyFourHour then 'H' else 'h');
    assert pattern[9..11] == "hh" ==> pattern[9] == 'h';
    assert pattern[9..11] == "HH" ==> pattern[9] == 'H';
    pattern
  }

  /**
   Formatting of a save's timestamp with a pattern; culture-dependent in the host,
   so the model takes it as a parameter.
   */
  type Formatter = (int, string) -> string

  /** The name a quicksave stamped at realTime is renamed to. */
  function BackupNameFor(realTime: int, cfg: Settings, fmt: Formatter): string {
    BackupName + fmt(realTime, TimeFormat(cfg))
  }

  /** The store after a handler step and the host calls it made, in order. */
  datatype Outcome = Outcome(store: Store, calls: seq<HostCall>)

  /** One delete call per key, in the same order. */
  function DeleteCalls(keys: seq<int>): (calls: seq<HostCall>)
    ensures |calls| == |keys|
    ensures forall i :: 0 <= i < |keys| ==> calls[i] == DeleteCall(keys[i])
  {
    seq(|keys|, i requires 0 <= i < |keys| => DeleteCall(keys[i]))
  }

  /**
   A rename followed by deletes of keys drawn from a set: the rename comes first,
   and every later call deletes a key of that set.
   */
  lemma RenameThenDeletes(q: int, name: string, keys: seq<int>, allowed: set<int>)
    requires Elems(keys) <= allowed
    ensures var calls := [RenameCall(q, name)] + DeleteCalls(keys);
      && |calls| == |keys| + 1
      && calls[0] == RenameCall(q, name)
      && forall i :: 1 <= i < |calls| ==> calls[i].DeleteCall? && calls[i].key in allowed
  {
    assert forall i :: 0 <= i < |keys| ==> keys[i] in Elems(keys);
  }

  /** Deleting folders cannot bring a quicksave into a store that has none. */
  lemma NoQuickSaveAppears(s: Store, t: Store)
    requires !HasQuickSave(s)
    requires t.Keys <= s.Keys && forall k :: k in t ==> t[k] == s[k]
    ensures !HasQuickSave(t)
  {
    forall k | k in t ensures !IsQuickSave(t, k) {
      assert !IsQuickSave(s, k);
    }
  }

  /** Renaming the quicksave adds exactly that folder to the backups. */
  lemma RenameAddsBackup(s: Store, cfg: Settings, fmt: Formatter)
    requires QuickSaveUnique(s) && HasQuickSave(s)
    ensures var q := FindQuickSave(s);
      var renamed := Rename(s, q, BackupNameFor(s[q].realTime, cfg, fmt));
      && q !in Backups(s)
      && Backups(renamed) == Backups(s) + {q}
      && !HasQuickSave(renamed)
  {
    var q := FindQuickSave(s);
    var name := BackupNameFor(s[q].realTime, cfg, fmt);
    BackupNames(fmt(s[q].realTime, TimeFormat(cfg)), s[q].realTime);
    var renamed := Rename(s, q, name);
    assert forall k :: k in Backups(renamed) <==> k in Backups(s) || k == q;
  }

  /** Pruning as the backup step runs it: skipped entirely when retention is unlimited. */
  function PruneUnlessUnlimited(s: Store, cfg: Settings, order: seq<int>): (r: Pruned)
    requires Enumerates(order, s)
    ensures cfg.unlimited ==> r == Pruned(s, [])
    ensures r.store.Keys == s.Keys - Elems(r.deleted)
    ensures forall k :: k in r.store ==> r.store[k] == s[k]
    ensures Elems(r.deleted) <= Backups(s)
  {
    if cfg.unlimited then Pruned(s, []) else RemoveOldQuickSaves(s, order, cfg.maxBackups)
  }

  /**
   BackupQuickSave: the quicksave folder is renamed to the backup marker followed
   by its formatted timestamp; then, unless retention is unlimited, old backups are
   pruned with the renamed one counted. No quicksave is left and no folder appears.
   */
  function BackupQuickSave(s: Store, cfg: Settings, fmt: Formatter, order: seq<int>): (r: Outcome)
    requires QuickSaveUnique(s) && HasQuickSave(s) && Enumerates(order, s)
    ensures r.store.Keys <= s.Keys
    ensures !HasQuickSave(r.store)
  {
    var q := FindQuickSave(s);
    var name := BackupNameFor(s[q].realTime, cfg, fmt);
    var renamed := Rename(s, q, name);
    RenameAddsBackup(s, cfg, fmt);
    var pruned := PruneUnlessUnlimited(renamed, cfg, order);
    NoQuickSaveAppears(renamed, pruned.store);
    Outcome(pruned.store, [RenameCall(q, name)] + DeleteCalls(pruned.deleted))
  }

  /**
   The backup step's calls: first the rename of the quicksave, then deletes of
   backups only (the renamed folder among them possibly); none when unlimited.
   */
  lemma BackupQuickSaveCalls(s: Store, cfg: Settings, fmt: Formatter, order: seq<int>)
    requires QuickSaveUnique(s) && HasQuickSave(s) && Enumerates(order, s)
    ensures var r := BackupQuickSave(s, cfg, fmt, order);
      var q := FindQuickSave(s);
      && |r.calls| >= 1
      && r.calls[0] == RenameCall(q, BackupNameFor(s[q].realTime, cfg, fmt))
      && (forall i :: 1 <= i < |r.calls| ==>
            r.calls[i].DeleteCall? && r.calls[i].key in Backups(s) + {q})
      && (cfg.unlimited ==> |r.calls| == 1)
  {
    var q := FindQuickSave(s);
    var name := BackupNameFor(s[q].realTime, cfg, fmt);
    var renamed := Rename(s, q, name);
    RenameAddsBackup(s, cfg, fmt);
    var pruned := PruneUnlessUnlimited(renamed, cfg, order);
    RenameThenDeletes(q, name, pruned.deleted, Backups(s) + {q});
  }

  /**
   With limited retention the renamed quicksave counts toward the maximum: the
   backup step leaves min(backups + 1, max) backups, and with a maximum of 0 it
   deletes every backup, the one just renamed included.
   */
  lemma BackupQuickSaveRetains(s: Store, cfg: Settings, fmt: Formatter, order: seq<int>)
    requires QuickSaveUnique(s) && HasQuickSave(s) && Enumerates(order, s)
    requires !cfg.unlimited
    ensures var r := BackupQuickSave(s, cfg, fmt, order);
      var n := |Backups(s)| + 1;
      && |Backups(r.store)| == (if n > cfg.maxBackups then cfg.maxBackups else n)
      && (cfg.maxBackups == 0 ==> Backups(r.store) == {} && FindQuickSave(s) !in r.store)
  {
    var q := FindQuickSave(s);
    var renamed := Rename(s, q, BackupNameFor(s[q].realTime, cfg, fmt));
    RenameAddsBackup(s, cfg, fmt);
    var r := BackupQuickSave(s, cfg, fmt, order);
    assert r.store == RemoveOldQuickSaves(renamed, order, cfg.maxBackups).store;
    if |Backups(renamed)| > cfg.maxBackups {
      PruneLeavesMax(renamed, order, cfg.maxBackups);
    } else {
      PruneNoOpWithinMax(renamed, order, cfg.maxBackups);
    }
    assert q in Backups(renamed);
    assert q in r.store ==> r.store[q] == renamed[q];
  }

  /** With unlimited retention the backup step is the rename alone. */
  lemma BackupQuickSaveUnlimited(s: Store, cfg: Settings, fmt: Formatter, order: seq<int>)
    requires QuickSaveUnique(s) && HasQuickSave(s) && Enumerates(order, s)
    requires cfg.unlimited
    ensures var r := BackupQuickSave(s, cfg, fmt, order);
      var q := FindQuickSave(s);
      && Backups(r.store) == Backups(s) + {q}
      && r.store == Rename(s, q, BackupNameFor(s[q].realTime, cfg, fmt))
  {
    RenameAddsBackup(s, cfg, fmt);
  }

  /**
   How the host picks the folder for a new quicksave: some key not in use in the
   store it saves into, which may be one the same key press just freed.
   */
  ghost predicate PicksFreshKeys(pickKey: Store -> int) {
    forall t: Store :: pickKey(t) !in t
  }

  /**
   The key-down branch of the update loop. When saving is prevented it only shows
   one message; otherwise it backs up an existing quicksave and then quicksaves,
   so the store ends with exactly one quicksave, stamped now.
   */
  function OnQuickSaveKeyDown(s: Store, prevented: bool, cfg: Settings, fmt: Formatter,
                              order: seq<int>, pickKey: Store -> int, now: int): (r: Outcome)
    requires QuickSaveUnique(s) && Enumerates(order, s) && PicksFreshKeys(pickKey)
    ensures prevented ==> r.store == s && r.calls == [MessageBoxCall(CannotSaveNow)]
    ensures !prevented ==> |r.calls| >= 1 && r.calls[|r.calls| - 1] == QuickSaveCall
    ensures !prevented ==> QuickSaveUnique(r.store) && HasQuickSave(r.store)
    ensures !prevented ==> r.store[FindQuickSave(r.store)].realTime == now
  {
    if prevented then Outcome(s, [MessageBoxCall(CannotSaveNow)])
    else
      var b := if HasQuickSave(s) then BackupQuickSave(s, cfg, fmt, order) else Outcome(s, []);
      Outcome(QuickSave(b.store, pickKey(b.store), now), b.calls + [QuickSaveCall])
  }

  /** Without a quicksave, the handler only quicksaves into a fresh folder. */
  lemma KeyDownWithoutQuickSave(s: Store, cfg: Settings, fmt: Formatter,
                                order: seq<int>, pickKey: Store -> int, now: int)
    requires QuickSaveUnique(s) && Enumerates(order, s) && PicksFreshKeys(pickKey)
    requires !HasQuickSave(s)
    ensures var r := OnQuickSaveKeyDown(s, false, cfg, fmt, order, pickKey, now);
      && r.calls == [QuickSaveCall]
      && r.store == s[pickKey(s) := Slot(QuickSaveName, now)]
  {
  }

  /**
   With a quicksave q stamped t, the first call renames q to the backup marker
   followed by t formatted in the configured pattern; only deletes of backups follow,
   and the quicksave comes last. Unlimited retention deletes nothing.
   */
  lemma KeyDownRenamesFirst(s: Store, cfg: Settings, fmt: Formatter,
                            order: seq<int>, pickKey: Store -> int, now: int)
    requires QuickSaveUnique(s) && Enumerates(order, s) && PicksFreshKeys(pickKey)
    requires HasQuickSave(s)
    ensures var r := OnQuickSaveKeyDown(s, false, cfg, fmt, order, pickKey, now);
      var q := FindQuickSave(s);
      var pattern := if cfg.twentyFourHour then "yyyyMMdd_HH:mm:ss" else "yyyyMMdd_hh:mm:ss tt";
      && |r.calls| >= 2
      && r.calls[0] == RenameCall(q, "QuickSave.old" + fmt(s[q].realTime, pattern))
      && (forall i :: 1 <= i < |r.calls| - 1 ==>
            r.calls[i].DeleteCall? && (r.calls[i].key == q || r.calls[i].key in Backups(s)))
      && r.calls[|r.calls| - 1] == QuickSaveCall
      && (cfg.unlimited ==> |r.calls| == 2)
  {
    var b := BackupQuickSave(s, cfg, fmt, order);
    BackupQuickSaveCalls(s, cfg, fmt, order);
    var r := OnQuickSaveKeyDown(s, false, cfg, fmt, order, pickKey, now);
    assert r.calls == b.calls + [QuickSaveCall];
  }

  /**
   Whatever the settings, a key press leaves every folder that is neither a backup
   nor the quicksave exactly as it was.
   */
  lemma KeyDownKeepsOthers(s: Store, prevented: bool, cfg: Settings, fmt: Formatter,
                           order: seq<int>, pickKey: Store -> int, now: int)
    requires QuickSaveUnique(s) && Enumerates(order, s) && PicksFreshKeys(pickKey)
    ensures var r := OnQuickSaveKeyDown(s, prevented, cfg, fmt, order, pickKey, now);
      forall k :: k in s && !IsBackup(s[k]) && !IsQuickSave(s, k) ==> k in r.store && r.store[k] == s[k]
  {
    if !prevented && HasQuickSave(s) {
      var q := FindQuickSave(s);
      var renamed := Rename(s, q, BackupNameFor(s[q].realTime, cfg, fmt));
      var b := BackupQuickSave(s, cfg, fmt, order);
      assert b.store == PruneUnlessUnlimited(renamed, cfg, order).store;
      forall k | k in s && !IsBackup(s[k]) && !IsQuickSave(s, k)
        ensures k in b.store && b.store[k] == s[k] && !IsQuickSave(b.store, k)
      {
        assert renamed[k] == s[k];
        assert k !in Backups(renamed);
      }
    }
  }
}
