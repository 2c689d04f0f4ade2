/**
 Hijacking the host's quicksave key: the mod remembers the player's quicksave key
 in a one-line restore file, listens for that key itself, and clears the host's
 own quicksave binding.
 */
module KeyHijack {
  import opened Wrappers

  /** A key code of the input system: no key, the default quicksave key, or any other. */
  datatype KeyCode = NoKey | F9 | Other(code: int)

  /**
   What parsing a key name yields: a key; a name that is not one, which the mod
   catches as an argument error; or a number outside the key codes' integer range,
   an overflow the mod does not catch.
   */
  datatype Parsed = Parsed(key: KeyCode) | NotAName | OutOfRange

  /**
   The two conversions between key codes and their names that the host provides:
   parsing a name and printing a key.
   */
  datatype KeyNames = KeyNames(parse: string -> Parsed, show: KeyCode -> string)

  /**
   What the mod reads and writes: the restore file's contents (None when the file
   does not exist), the host's live binding of the quicksave action, the binding
   the host has last persisted, and the key the mod listens for.
   */
  datatype KeyState = KeyState(file: Option<string>, live: KeyCode, saved: KeyCode, hijacked: KeyCode)

  /**
   Why loading can fail: a restore file without any line, or a first line whose
   number overflows; both throw out of the loader before anything changes.
   */
  datatype LoadError = EmptyKeyFile | KeyNameOutOfRange

  /** The name written when the stored name does not parse. */
  const DefaultKeyName: string := "F9"

  predicate IsLineBreak(c: char) {
    c == '\n' || c == '\r'
  }

  /** A string without line breaks. */
  predicate SingleLine(line: string) {
    forall i :: 0 <= i < |line| ==> !IsLineBreak(line[i])
  }

  /**
   The first line of a file's contents, as reading its lines and taking the first
   yields it: none for an empty file, otherwise everything up to the first line break.
   */
  function FirstLine(content: string): (r: Option<string>)
    ensures content == "" <==> r.None?
    ensures r.Some? ==> && SingleLine(r.value)
                        && |r.value| <= |content|
                        && content[..|r.value|] == r.value
                        && (|r.value| == |content| || IsLineBreak(content[|r.value|]))
  {
    if content == "" then None
    else if IsLineBreak(content[0]) then Some("")
    else
      var rest := FirstLine(content[1..]);
      var line := if rest.Some? then [content[0]] + rest.value else [content[0]];
      assert forall i :: 0 < i < |line| ==> line[i] == content[1..][i - 1];
      Some(line)
  }

  /** A non-empty single line is its own first line. */
  lemma FirstLineOfLine(line: string)
    requires line != "" && SingleLine(line)
    ensures FirstLine(line) == Some(line)
  {
    var r := FirstLine(line).value;
    assert line[..|line|] == line;
  }

  /** Saving the key binds: the host persists its live bindings. */
  function SaveKeyBinds(st: KeyState): (r: KeyState)
    ensures r.saved == st.live
    ensures r.(saved := st.saved) == st
  {
    st.(saved := st.live)
  }

  /**
   UpdateKey: the mod takes over the live quicksave binding, writes its name to the
   restore file, and clears the host's binding.
   */
  function UpdateKey(st: KeyState, names: KeyNames): (r: KeyState)
    ensures r.hijacked == st.live
    ensures r.file == Some(names.show(st.live))
    ensures r.live == NoKey && r.saved == st.saved
  {
    KeyState(Some(names.show(st.live)), NoKey, st.saved, st.live)
  }

  /**
   LoadQSKey: with a restore file, listen for the key its first line names (or for
   F9, rewriting the file, when that line is not a key name) and clear the host's
   binding; without one, take over the live binding as UpdateKey does. Either way
   the cleared binding is then persisted. A file without any line, or a first line
   whose number overflows, makes the loader throw before anything changes.
   */
  function LoadQSKey(st: KeyState, names: KeyNames): (r: Result<KeyState, LoadError>)
    ensures r == Failure(EmptyKeyFile) <==> st.file == Some("")
    ensures r == Failure(KeyNameOutOfRange) <==>
      st.file.Some? && st.file.value != "" && names.parse(FirstLine(st.file.value).value) == OutOfRange
    ensures r.Success? ==> r.value.live == NoKey && r.value.saved == NoKey
    ensures st.file.None? ==>
      r == Success(KeyState(Some(names.show(st.live)), NoKey, NoKey, st.live))
    ensures r.Success? && st.file.Some? ==>
      var line := FirstLine(st.file.value).value;
      if names.parse(line).Parsed?
      then r.value.hijacked == names.parse(line).key && r.value.file == st.file
      else r.value.hijacked == F9 && r.value.file == Some(DefaultKeyName)
  {
    match st.file
    case None => Success(SaveKeyBinds(UpdateKey(st, names)))
    case Some(content) =>
      match FirstLine(content)
      case None => Failure(EmptyKeyFile)
      case Some(line) =>
        match names.parse(line)
        case OutOfRange => Failure(KeyNameOutOfRange)
        case Parsed(k) => Success(SaveKeyBinds(st.(hijacked := k, live := NoKey)))
        case NotAName =>
          Success(SaveKeyBinds(st.(file := Some(DefaultKeyName), hijacked := F9, live := NoKey)))
  }

  /**
   OnQuickSaveKeyChanged: after the player rebinds keys, a quicksave binding other
   than none is taken over as UpdateKey does; a cleared binding changes nothing.
   */
  function OnQuickSaveKeyChanged(st: KeyState, names: KeyNames): (r: KeyState)
    ensures st.live == NoKey ==> r == st
    ensures st.live != NoKey ==> r == UpdateKey(st, names)
    ensures r.live == NoKey
  {
    if st.live == NoKey then st else UpdateKey(st, names)
  }

  /**
   The host's conversions agree with each other: a printed key is one non-empty
   line that parses back to the same key, and the default name parses to F9.
   */
  ghost predicate WellBehaved(names: KeyNames) {
    && (forall k :: names.parse(names.show(k)) == Parsed(k))
    && (forall k :: names.show(k) != "" && SingleLine(names.show(k)))
    && names.parse(DefaultKeyName) == Parsed(F9)
  }

  /**
   The restore file names the key the mod listens for, and the host's live binding
   of the quicksave action is cleared. Nothing is said of the persisted binding.
   */
  predicate Consistent(st: KeyState, names: KeyNames) {
    && st.file.Some?
    && FirstLine(st.file.value).Some?
    && names.parse(FirstLine(st.file.value).value) == Parsed(st.hijacked)
    && st.live == NoKey
  }

  /** The key a mod takes over is the key it listens for after the next start. */
  lemma UpdateThenLoadRestores(st: KeyState, next: KeyState, names: KeyNames)
    requires WellBehaved(names)
    requires next.file == UpdateKey(st, names).file
    ensures LoadQSKey(next, names).Success?
    ensures LoadQSKey(next, names).value.hijacked == st.live
    ensures LoadQSKey(next, names).value.file == next.file
  {
    FirstLineOfLine(names.show(st.live));
  }

  /** Loading again after a successful load changes nothing: loading is idempotent. */
  lemma LoadIdempotent(st: KeyState, names: KeyNames)
    requires WellBehaved(names)
    requires LoadQSKey(st, names).Success?
    ensures LoadQSKey(LoadQSKey(st, names).value, names) == LoadQSKey(st, names)
  {
    var a := LoadQSKey(st, names).value;
    match st.file
    case None =>
      FirstLineOfLine(names.show(st.live));
    case Some(content) =>
      var line := FirstLine(content).value;
      if names.parse(line).NotAName? {
        FirstLineOfLine(DefaultKeyName);
      }
  }

  /** A successful load leaves the file naming the key listened for, with the host's binding cleared. */
  lemma LoadEstablishesConsistent(st: KeyState, names: KeyNames)
    requires WellBehaved(names)
    requires LoadQSKey(st, names).Success?
    ensures Consistent(LoadQSKey(st, names).value, names)
  {
    match st.file
    case None =>
      FirstLineOfLine(names.show(st.live));
    case Some(content) =>
      if names.parse(FirstLine(content).value).NotAName? {
        FirstLineOfLine(DefaultKeyName);
      }
  }

  /**
   The player rebinds the quicksave action to k: the host saves its bindings, k
   included, and then runs the handler. The handler keeps the file and the key in
   step; a new key is taken over and a cleared binding leaves everything as it was.
   The handler clears only the live binding, so the persisted one stays k.
   */
  lemma RebindKeepsConsistent(st: KeyState, k: KeyCode, names: KeyNames)
    requires WellBehaved(names)
    requires Consistent(st, names)
    ensures var r := OnQuickSaveKeyChanged(st.(live := k, saved := k), names);
      && Consistent(r, names)
      && r.saved == k
      && (k != NoKey ==> r.hijacked == k && r.file == Some(names.show(k)))
      && (k == NoKey ==> r == st.(saved := NoKey))
  {
    FirstLineOfLine(names.show(k));
  }

  /**
   After a rebinding to k and a restart, whatever binding the host makes live at
   the start (the persisted one, or a default it re-applies), loading listens for
   k again (or for the old key when the binding was cleared) and persists the
   cleared binding: with the restore file present, the live binding is ignored.
   */
  lemma RebindThenRestart(st: KeyState, k: KeyCode, atStart: KeyCode, names: KeyNames)
    requires WellBehaved(names)
    requires Consistent(st, names)
    ensures var a := OnQuickSaveKeyChanged(st.(live := k, saved := k), names);
      var loaded := LoadQSKey(a.(live := atStart), names);
      && loaded.Success?
      && loaded.value.hijacked == (if k == NoKey then st.hijacked else k)
      && loaded.value.live == NoKey && loaded.value.saved == NoKey
  {
    FirstLineOfLine(names.show(k));
  }
}
