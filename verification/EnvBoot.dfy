/**
 The environment bootstrap: the migration run over the dotenv files, the rewrites that follow its
 commits, and what is left in the process environment afterwards.
 */
module EnvBoot {
  import opened Wrappers
  import opened Text
  import opened Dotenv
  import opened SecretMigration
  import opened SecretDecisions

  /** `files` are the rewritten files by index, `removedByFile` the keys whose lines left each. */
  datatype MigrationResult = MigrationResult(
    decisions: seq<Decided>, files: map<nat, string>, removedByFile: map<nat, set<string>>,
    envKeysToUnset: seq<string>, committedSecrets: seq<string>)

  ghost predicate RejectedKey(ds: seq<Decided>, key: string) {
    exists o :: Decided(key, o) in ds && Rejected(o)
  }

  /** Removed keys that a file assigns. */
  function RemovedFrom(content: string, removed: set<string>): set<string> {
    var ls := ParseAll(SplitLines(content));
    set l | l in ls && Removable(l, removed) :: l.key
  }

  // ---------------------------------------------------------------- the migration

  method CollectLines(contents: seq<string>) returns (parsed: seq<seq<Line>>, ls: seq<Line>)
    ensures |parsed| == |contents| && forall i :: 0 <= i < |contents| ==> parsed[i] == ParseAll(SplitLines(contents[i]))
    ensures ls == AllLines(contents)
  {
    parsed, ls := [], [];
    for i := 0 to |contents|
      invariant |parsed| == i && forall j :: 0 <= j < i ==> parsed[j] == ParseAll(SplitLines(contents[j]))
      invariant ls == AllLines(contents[..i])
    {
      var lines := ParseDotenvLines(contents[i]);
      assert contents[..i + 1][..i] == contents[..i];
      parsed := parsed + [lines];
      ls := ls + lines;
    }
    assert contents[..|contents|] == contents;
  }

  /** Group the values of credential assignments by key, and list the keys in order. */
  method GroupByKey(ls: seq<Line>) returns (byKey: map<string, seq<string>>, keys: seq<string>)
    ensures keys == KeysOf(ls) && forall k :: k in byKey <==> k in keys
    ensures forall k :: k in byKey ==> byKey[k] == ValuesOf(ls, k)
  {
    hide Grouped, IsSecretEnvName, Insert;
    byKey, keys := map[], [];
    NoLinesYet();
    for i := 0 to |ls|
      invariant Grouped(ls[..i], byKey, keys)
    {
      var l := ls[i];
      GroupedNext(ls, i, byKey, keys);
      if l.Assignment? && IsSecretEnvName(l.key) {
        var list := if l.key in byKey then byKey[l.key] else [];
        byKey := byKey[l.key := list + [l.value]];
        keys := Insert(keys, l.key);
      }
    }
    assert ls[..|ls|] == ls;
    GroupedMeans(ls, byKey, keys);
  }

  ghost predicate Grouped(ls: seq<Line>, byKey: map<string, seq<string>>, keys: seq<string>) {
    && keys == KeysOf(ls) && (forall k :: k in byKey <==> k in keys)
    && (forall k :: k in byKey ==> byKey[k] == ValuesOf(ls, k))
  }

  lemma GroupedMeans(ls: seq<Line>, byKey: map<string, seq<string>>, keys: seq<string>)
    requires Grouped(ls, byKey, keys)
    ensures keys == KeysOf(ls) && forall k :: k in byKey <==> k in keys
    ensures forall k :: k in byKey ==> byKey[k] == ValuesOf(ls, k)
  {
  }

  lemma GroupedNext(ls: seq<Line>, i: nat, byKey: map<string, seq<string>>, keys: seq<string>)
    requires i < |ls| && Grouped(ls[..i], byKey, keys)
    ensures var l := ls[i];
            if l.Assignment? && IsSecretEnvName(l.key)
            then Grouped(ls[..i + 1], byKey[l.key := (if l.key in byKey then byKey[l.key] else []) + [l.value]], Insert(keys, l.key))
            else Grouped(ls[..i + 1], byKey, keys)
  {
    hide ValuesOf, KeysOf, IsSecretEnvName, Insert;
    var l := ls[i];
    KeysOfAreSorted(ls[..i]);
    OneMoreLine(ls, i);
    if l.Assignment? && IsSecretEnvName(l.key) {
      InsertIsSorted(keys, l.key);
      if l.key !in byKey { NoValuesYet(ls[..i], l.key); }
    } else {
      UnlistedKey(ls[..i], keys, l);
    }
  }

  /** Keys listed are credential names, so a line that is no credential assignment adds no value to them. */
  lemma UnlistedKey(ls: seq<Line>, keys: seq<string>, l: Line)
    requires keys == KeysOf(ls) && !(l.Assignment? && IsSecretEnvName(l.key))
    ensures l.Assignment? ==> l.key !in keys
  {
    KeysOfAreSorted(ls);
  }

  lemma NoLinesYet()
    ensures Grouped([], map[], [])
  {
  }

  lemma OneMoreLine(ls: seq<Line>, i: nat)
    requires i < |ls|
    ensures KeysOf(ls[..i + 1]) ==
              if ls[i].Assignment? && IsSecretEnvName(ls[i].key) then Insert(KeysOf(ls[..i]), ls[i].key) else KeysOf(ls[..i])
    ensures forall k :: ValuesOf(ls[..i + 1], k) ==
              if ls[i].Assignment? && ls[i].key == k then ValuesOf(ls[..i], k) + [ls[i].value] else ValuesOf(ls[..i], k)
  {
    assert ls[..i + 1][..i] == ls[..i];
  }

  lemma NoValuesYet(ls: seq<Line>, key: string)
    requires IsSecretEnvName(key) && key !in KeysOf(ls)
    ensures ValuesOf(ls, key) == []
  {
    KeysOfAreSorted(ls);
    ValuesComeFromAssignments(ls, key);
  }

  /** One key of the decision loop: compare, and commit where a write is needed. */
  method DecideKey(key: string, values: seq<string>, store: SecretStore) returns (d: Decision)
    requires values != []
    modifies store
    ensures Some(d) == Decide(old(store.slots), store.faults, key, values)
    ensures store.slots == if d.Migrated? then old(store.slots)[key := Readable(values[0])] else old(store.slots)
  {
    var cmp := Compare(store.slots, store.faults, key, values[0]);
    if cmp == Threw { return RejectedUnsafe; }
    if |values| == 1 {
      match cmp
      case Missing =>
        var ok := store.Commit(key, values[0]);
        d := if ok then Migrated else RejectedUnsafe;
      case Equal => d := KeptExisting;
      case Different => d := ConflictKeptExisting;
      case CannotVerify => d := RejectedUnsafe;
    } else if cmp == Missing {
      d := RejectedConflict;
    } else if cmp == CannotVerify {
      d := RejectedUnsafe;
    } else {
      d := ConflictKeptExisting;
    }
  }

  /** The keys decided so far say nothing about a key still to come. */
  lemma UndecidedYet(ls: seq<Line>, slots: Slots, faults: Faults, skip: set<string>, keys: seq<string>, key: string)
    requires forall i, j :: 0 <= i < j < |keys| ==> keys[i] != keys[j]
    requires key !in keys
    ensures var now := Committed(ls, slots, DecideAll(ls, slots, faults, skip, keys));
            (key in now <==> key in slots) && (key in slots ==> now[key] == slots[key])
  {
    DecideAllHolds(ls, slots, faults, skip, keys);
    CommittedAt(ls, slots, DecideAll(ls, slots, faults, skip, keys), key);
  }

  /** Commit secrets first; decide every key against the store as it was. */
  method DecideKeys(ghost ls: seq<Line>, keys: seq<string>, byKey: map<string, seq<string>>, store: SecretStore, skip: set<string>)
    returns (decisions: seq<Decided>, envKeysToUnset: seq<string>, committedSecrets: seq<string>)
    requires Sorted(keys) && forall k :: k in keys ==> k in byKey && byKey[k] == ValuesOf(ls, k)
    modifies store
    ensures decisions == DecideAll(ls, old(store.slots), store.faults, skip, keys)
    ensures store.slots == Committed(ls, old(store.slots), decisions)
    ensures forall k :: k in envKeysToUnset <==> RejectedKey(decisions, k)
    ensures forall k :: k in committedSecrets <==> Decided(k, Migrated) in decisions
  {
    decisions, envKeysToUnset, committedSecrets := [], [], [];
    SortedHasNoRepeats(keys);
    ghost var slots := store.slots;
    for i := 0 to |keys|
      invariant decisions == DecideAll(ls, slots, store.faults, skip, keys[..i])
      invariant store.slots == Committed(ls, slots, decisions)
      invariant forall k :: k in envKeysToUnset <==> RejectedKey(decisions, k)
      invariant forall k :: k in committedSecrets <==> Decided(k, Migrated) in decisions
    {
      assert keys[..i + 1][..i] == keys[..i];
      var key := keys[i];
      UndecidedYet(ls, slots, store.faults, skip, keys[..i], key);
      DecidedAgain(slots, store.slots, store.faults, key, Distinct(byKey[key]));
      if key in skip { continue; }
      var values := Distinct(byKey[key]);
      if values == [] { continue; }
      var d := DecideKey(key, values, store);
      ghost var before := decisions;
      decisions := decisions + [Decided(key, d)];
      assert decisions[..|decisions| - 1] == before;
      if Rejected(d) { envKeysToUnset := envKeysToUnset + [key]; }
      if d.Migrated? { committedSecrets := committedSecrets + [key]; }
      OneMoreDecision(before, key, d);
    }
    assert keys[..|keys|] == keys;
  }

  lemma OneMoreDecision(ds: seq<Decided>, key: string, d: Decision)
    ensures forall k :: RejectedKey(ds + [Decided(key, d)], k) <==> RejectedKey(ds, k) || (k == key && Rejected(d))
    ensures forall k, o :: Decided(k, o) in ds + [Decided(key, d)] <==> Decided(k, o) in ds || (k == key && o == d)
  {
    var more := ds + [Decided(key, d)];
    forall k ensures RejectedKey(more, k) <==> RejectedKey(ds, k) || (k == key && Rejected(d)) {
      if k == key && Rejected(d) { assert Decided(k, d) in more; }
      if RejectedKey(ds, k) {
        var o :| Decided(k, o) in ds && Rejected(o);
        assert Decided(k, o) in more;
      }
    }
  }

  /** One file of the rewrite loop. */
  method RewriteFile(content: string, lines: seq<Line>, removed: set<string>)
    returns (touched: bool, text: string, keys: set<string>)
    requires lines == ParseAll(SplitLines(content))
    ensures touched == Touched(content, removed) && text == Rewritten(content, removed)
    ensures keys == RemovedFrom(content, removed)
  {
    touched := exists j :: 0 <= j < |lines| && Removable(lines[j], removed);
    text := if touched then JoinLines(Raws(KeptLines(lines, removed))) else content;
    keys := set l | l in lines && Removable(l, removed) :: l.key;
  }

  /** The rewrite loop: files with a removed line, without those lines. */
  method RewriteFiles(contents: seq<string>, parsed: seq<seq<Line>>, removed: set<string>)
    returns (files: map<nat, string>, removedByFile: map<nat, set<string>>)
    requires |parsed| == |contents| && forall i :: 0 <= i < |contents| ==> parsed[i] == ParseAll(SplitLines(contents[i]))
    ensures files == RewrittenFiles(contents, removed)
    ensures removedByFile.Keys == files.Keys && forall i :: i in files ==> removedByFile[i] == RemovedFrom(contents[i], removed)
  {
    hide Touched, Rewritten, RemovedFrom;
    files, removedByFile := map[], map[];
    for i := 0 to |contents|
      invariant forall j :: j in files <==> 0 <= j < i && Touched(contents[j], removed)
      invariant forall j :: j in files ==> files[j] == Rewritten(contents[j], removed)
      invariant removedByFile.Keys == files.Keys
      invariant forall j :: j in files ==> removedByFile[j] == RemovedFrom(contents[j], removed)
    {
      var touched, text, keys := RewriteFile(contents[i], parsed[i], removed);
      if !touched { continue; }
      files := files[i := text];
      removedByFile := removedByFile[i := keys];
    }
  }

  lemma PlanParts(contents: seq<string>, slots: Slots, faults: Faults, skip: set<string>)
    ensures var ls := AllLines(contents);
            var ds := DecideAll(ls, slots, faults, skip, KeysOf(ls));
            PlanFor(contents, slots, faults, skip) == Plan(ds, Committed(ls, slots, ds), RewrittenFiles(contents, RemovedKeys(ds)))
  {
  }

  /** `runSecretMigration`. */
  method RunSecretMigration(contents: seq<string>, store: SecretStore, skip: set<string>) returns (r: MigrationResult)
    modifies store
    ensures Plan(r.decisions, store.slots, r.files) == PlanFor(contents, old(store.slots), store.faults, skip)
    ensures forall k :: k in r.envKeysToUnset <==> RejectedKey(r.decisions, k)
    ensures forall k :: k in r.committedSecrets <==> Decided(k, Migrated) in r.decisions
    ensures r.removedByFile.Keys == r.files.Keys
    ensures forall i :: i in r.files ==> i < |contents| && r.removedByFile[i] == RemovedFrom(contents[i], RemovedKeys(r.decisions))
    ensures forall k, v :: Decided(k, Migrated) in r.decisions && v != "" && Written(contents, k, v) ==>
              k in store.slots && store.slots[k] == Readable(v)
  {
    hide PlanFor, Written;
    var parsed, ls := CollectLines(contents);
    var byKey, keys := GroupByKey(ls);
    KeysOfAreSorted(ls);
    var decisions, unset, committed := DecideKeys(ls, keys, byKey, store, skip);
    var files, removedByFile := RewriteFiles(contents, parsed, RemovedKeys(decisions));
    r := MigrationResult(decisions, files, removedByFile, unset, committed);
    PlanParts(contents, old(store.slots), store.faults, skip);
    forall k, v | Decided(k, Migrated) in r.decisions && v != "" && Written(contents, k, v)
      ensures k in store.slots && store.slots[k] == Readable(v)
    {
      StoresWritten(contents, old(store.slots), store.faults, skip, k, v);
    }
  }

  // ---------------------------------------------------------------- boot

  /** Nothing that could not be migrated safely is usable. */
  ghost predicate Suppressible(r: MigrationResult, failed: set<nat>, key: string) {
    RejectedKey(r.decisions, key) || key in UncleanedKeys(r.removedByFile, failed)
  }

  /** Keys whose plaintext stays in a file that could not be rewritten. */
  function UncleanedKeys(removedByFile: map<nat, set<string>>, failed: set<nat>): set<string> {
    set i, k | i in failed && i in removedByFile && k in removedByFile[i] :: k
  }

  lemma FilesAfterNone(contents: seq<string>, files: map<nat, string>)
    ensures FilesAfter(contents, files, {}) == contents
  {
  }

  /** One more rewrite reaching the disk. */
  lemma FilesAfterOneMore(contents: seq<string>, files: map<nat, string>, written: set<nat>, i: nat)
    requires i < |contents| && i in files
    ensures FilesAfter(contents, files, written + {i}) == FilesAfter(contents, files, written)[i := files[i]]
  {
  }

  /** The first i files whose rewrite succeeded. */
  function Done(files: map<nat, string>, failing: set<nat>, i: nat): set<nat> {
    set j | j in files && j < i && j !in failing
  }

  function FailedUpTo(failing: set<nat>, i: nat): set<nat> {
    set j | j in failing && j < i
  }

  lemma NothingDone(files: map<nat, string>, removedByFile: map<nat, set<string>>, failing: set<nat>)
    ensures Done(files, failing, 0) == {} && UncleanedKeys(removedByFile, FailedUpTo(failing, 0)) == {}
  {
  }

  lemma OneMoreDone(files: map<nat, string>, removedByFile: map<nat, set<string>>, failing: set<nat>, i: nat)
    requires removedByFile.Keys == files.Keys
    ensures Done(files, failing, i + 1) == Done(files, failing, i) + if i in files && i !in failing then {i} else {}
    ensures UncleanedKeys(removedByFile, FailedUpTo(failing, i + 1)) ==
              UncleanedKeys(removedByFile, FailedUpTo(failing, i)) + if i in files && i in failing then removedByFile[i] else {}
  {
  }

  lemma AllDone(files: map<nat, string>, removedByFile: map<nat, set<string>>, failing: set<nat>, n: nat)
    requires removedByFile.Keys == files.Keys && forall i :: i in files ==> i < n
    ensures Done(files, failing, n) == files.Keys - failing
    ensures UncleanedKeys(removedByFile, FailedUpTo(failing, n)) == UncleanedKeys(removedByFile, failing)
  {
  }

  /** At this moment no credential is lost: a readable secret, or every source line. */
  ghost predicate NothingLost(slots: Slots, before: seq<string>, now: seq<string>) {
    forall k :: HoldsSecret(slots, k) || AllLinesPresent(before, now, k)
  }

  /** The scan for names when planning has failed. */
  method ScanForKeys(contents: seq<string>, skip: set<string>) returns (keys: set<string>)
    ensures forall k :: k in KeysOf(AllLines(contents)) && k !in skip ==> k in keys
    ensures forall k :: k in keys ==> IsSecretEnvName(k) && k !in skip
  {
    hide IsSecretEnvName, ParseLine, SplitLines, ScannedName;
    keys := {};
    for i := 0 to |contents|
      invariant forall j, l :: 0 <= j < i && l in SplitLines(contents[j]) && Suppresses(l, skip) ==> ScannedName(l) in keys
      invariant forall k :: k in keys ==> IsSecretEnvName(k) && k !in skip
    {
      var raws := SplitLines(contents[i]);
      for n := 0 to |raws|
        invariant forall j, l :: 0 <= j < i && l in SplitLines(contents[j]) && Suppresses(l, skip) ==> ScannedName(l) in keys
        invariant forall m :: 0 <= m < n && Suppresses(raws[m], skip) ==> ScannedName(raws[m]) in keys
        invariant forall k :: k in keys ==> IsSecretEnvName(k) && k !in skip
      {
        var key := ScannedName(raws[n]);
        if key != "" && IsSecretEnvName(key) && key !in skip { keys := keys + {key}; }
      }
    }
    forall k | k in KeysOf(AllLines(contents)) && k !in skip ensures k in keys {
      AssignedKeyIsScanned(contents, k, skip);
    }
  }

  predicate Suppresses(line: string, skip: set<string>) {
    ScannedName(line) != "" && IsSecretEnvName(ScannedName(line)) && ScannedName(line) !in skip
  }

  lemma {:induction false} LinesComeFromFiles(contents: seq<string>, l: Line)
    requires l in AllLines(contents)
    ensures exists i :: 0 <= i < |contents| && l.raw in SplitLines(contents[i]) && l == ParseLine(l.raw)
  {
    hide ParseLine, SplitLines;
    var n := |contents| - 1;
    if l in AllLines(contents[..n]) {
      LinesComeFromFiles(contents[..n], l);
    }
  }

  lemma AssignedKeyIsScanned(contents: seq<string>, k: string, skip: set<string>)
    requires k in KeysOf(AllLines(contents)) && k !in skip
    ensures exists i, l :: 0 <= i < |contents| && l in SplitLines(contents[i]) && Suppresses(l, skip) && ScannedName(l) == k
  {
    hide ParseLine, SplitLines, ScannedName, AllLines;
    KeysOfAreSorted(AllLines(contents));
    var i :| 0 <= i < |AllLines(contents)| && Assigns(AllLines(contents)[i], k);
    var l := AllLines(contents)[i];
    LinesComeFromFiles(contents, l);
    ScanFindsAssignments(l.raw);
    SecretNamesAreNotEmpty(k);
  }

  lemma SecretNamesAreNotEmpty(k: string)
    requires IsSecretEnvName(k)
    ensures k != ""
  {
  }

  lemma UntouchedFilesLoseNothing(slots: Slots, contents: seq<string>)
    ensures NothingLost(slots, contents, contents)
  {
  }

  class EnvBoot {
    var disk: seq<string>
    var env: map<string, string>
    const store: SecretStore
    const preEnvKeys: set<string>
    const skip: set<string>

    /** `disk` are the dotenv files that exist and can be read; `env` is the environment after dotenv
        loading, `preEnvKeys` the names that were set before it. */
    constructor (disk: seq<string>, env: map<string, string>, store: SecretStore, preEnvKeys: set<string>, skip: set<string>)
      ensures this.disk == disk && this.env == env && this.store == store
      ensures this.preEnvKeys == preEnvKeys && this.skip == skip
    {
      this.disk, this.env, this.store, this.preEnvKeys, this.skip := disk, env, store, preEnvKeys, skip;
    }

    /** Rewrite the files, all secrets being committed by then. Every point of this loop is a point
        where the process may die without losing a credential. */
    method ApplyRewrites(ghost slots: Slots, r: MigrationResult, failing: set<nat>) returns (suppressed: set<string>)
      requires Plan(r.decisions, store.slots, r.files) == PlanFor(disk, slots, store.faults, skip)
      requires r.removedByFile.Keys == r.files.Keys && forall i :: i in r.files ==> i < |disk|
      modifies `disk
      ensures disk == FilesAfter(old(disk), r.files, r.files.Keys - failing)
      ensures suppressed == UncleanedKeys(r.removedByFile, failing)
      ensures NothingLost(store.slots, old(disk), disk)
    {
      hide PlanFor, NothingLost, FilesAfter, UncleanedKeys, Done;
      suppressed := {};
      ghost var contents := disk;
      ghost var written: set<nat> := {};
      NothingLostWith(contents, slots, store.faults, skip, {});
      FilesAfterNone(contents, r.files);
      NothingDone(r.files, r.removedByFile, failing);
      for i := 0 to |disk|
        invariant |disk| == |contents| && written == Done(r.files, failing, i)
        invariant disk == FilesAfter(contents, r.files, written)
        invariant suppressed == UncleanedKeys(r.removedByFile, FailedUpTo(failing, i))
        invariant NothingLost(store.slots, contents, disk)
      {
        OneMoreDone(r.files, r.removedByFile, failing, i);
        if i in r.files {
          if i in failing {
            suppressed := suppressed + r.removedByFile[i];
          } else {
            FilesAfterOneMore(contents, r.files, written, i);
            disk := disk[i := r.files[i]];
            written := written + {i};
            NothingLostWith(contents, slots, store.faults, skip, written);
          }
        }
      }
      AllDone(r.files, r.removedByFile, failing, |disk|);
    }

    /** Load the store's readable secrets, never over an operator's value. */
    method ReloadSecrets(names: seq<string>)
      modifies `env
      ensures forall k :: k in env <==> k in old(env) || (k in names && Loadable(k))
      ensures forall k :: k in env ==> env[k] == if k in names && Loadable(k) then store.slots[k].value else old(env)[k]
    {
      for i := 0 to |names|
        invariant forall k :: k in env <==> k in old(env) || (k in names[..i] && Loadable(k))
        invariant forall k :: k in env ==> env[k] == if k in names[..i] && Loadable(k) then store.slots[k].value else old(env)[k]
      {
        var name := names[i];
        if '.' in name { continue; }
        if name in store.slots && store.slots[name].Readable? && name !in preEnvKeys {
          env := env[name := store.slots[name].value];
        }
      }
    }

    predicate Loadable(k: string)
      reads this, store
    {
      '.' !in k && HoldsSecret(store.slots, k) && k !in preEnvKeys
    }

    /** Drop what must not be usable this boot, sparing the operator's values. */
    method Unset(suppressed: set<string>)
      modifies `env
      ensures forall k :: k in env <==> k in old(env) && (k in preEnvKeys || k !in suppressed)
      ensures forall k :: k in env ==> env[k] == old(env)[k]
    {
      env := env - (suppressed - preEnvKeys);
    }

    /** The whole bootstrap. `failing` are the files whose rewrite fails, `listed` the names in the
        store's directory, `inputReadFailed` whether some dotenv file could not be read back. */
    method Boot(failing: set<nat>, listed: seq<string>, inputReadFailed: bool) returns (r: MigrationResult)
      modifies this, store
      ensures Plan(r.decisions, store.slots, r.files) == PlanFor(old(disk), old(store.slots), store.faults, skip)
      ensures disk == FilesAfter(old(disk), r.files, r.files.Keys - failing)
      ensures NothingLost(store.slots, old(disk), disk)
      ensures forall k :: k in preEnvKeys ==> (k in env <==> k in old(env)) && (k in env ==> env[k] == old(env)[k])
      ensures forall k :: k !in preEnvKeys && Suppressible(r, failing, k) ==> k !in env
      ensures inputReadFailed ==>
                forall k :: IsSecretEnvName(k) && k !in skip && k !in preEnvKeys && k in old(env) ==> k !in env
      ensures forall k :: k in RemovedKeys(r.decisions) && k in listed && k !in preEnvKeys
                          && !inputReadFailed && !Suppressible(r, failing, k) ==>
                k in env && k in store.slots && store.slots[k] == Readable(env[k])
      ensures forall k :: k in env <==>
                && (k in old(env) || (k in listed && Loadable(k)))
                && (k in preEnvKeys
                    || !(Suppressible(r, failing, k) || (inputReadFailed && IsSecretEnvName(k) && k !in skip && k in old(env))))
      ensures forall k :: k in env ==> env[k] == if k in listed && Loadable(k) then store.slots[k].value else old(env)[k]
    {
      hide PlanFor, NothingLost, RemovedKeys, RejectedKey, UncleanedKeys, IsSecretEnvName;
      ghost var contents, slots := disk, store.slots;
      var unreadable := if inputReadFailed
        then set k | k in env && IsSecretEnvName(k) && k !in skip && k !in preEnvKeys else {};
      r := RunSecretMigration(disk, store, skip);
      RemovedKeysAreLoadable(contents, slots, store.faults, skip);
      var suppressed := ApplyRewrites(slots, r, failing);
      suppressed := suppressed + unreadable + set k | k in r.envKeysToUnset;
      ReloadSecrets(listed);
      Unset(suppressed);
    }

    /** The bootstrap when planning throws after `done` keys: nothing is rewritten, and whatever looks
        like a credential assignment in the files is unusable this boot. */
    method BootAborted(done: nat, listed: seq<string>, inputReadFailed: bool)
      requires done <= |KeysOf(AllLines(disk))|
      modifies `env, store
      ensures var ls := AllLines(disk);
              store.slots == Committed(ls, old(store.slots), DecideAll(ls, old(store.slots), store.faults, skip, KeysOf(ls)[..done]))
      ensures NothingLost(store.slots, old(disk), disk)
      ensures forall k :: k in preEnvKeys ==> (k in env <==> k in old(env)) && (k in env ==> env[k] == old(env)[k])
      ensures forall k :: k in KeysOf(AllLines(disk)) && k !in skip && k !in preEnvKeys ==> k !in env
      ensures inputReadFailed ==>
                forall k :: IsSecretEnvName(k) && k !in skip && k !in preEnvKeys && k in old(env) ==> k !in env
      ensures forall k :: k in env ==> k in old(env) || (k in listed && Loadable(k))
      ensures forall k :: k in env ==> env[k] == if k in listed && Loadable(k) then store.slots[k].value else old(env)[k]
      ensures forall k :: (k in old(env) || (k in listed && Loadable(k))) && !(IsSecretEnvName(k) && k !in skip) ==> k in env
    {
      hide NothingLost, IsSecretEnvName, DecideAll, Committed, RejectedKey;
      var unreadable := if inputReadFailed
        then set k | k in env && IsSecretEnvName(k) && k !in skip && k !in preEnvKeys else {};
      var _, ls := CollectLines(disk);
      var byKey, keys := GroupByKey(ls);
      SortedPrefix(ls, done);
      var _, _, _ := DecideKeys(ls, keys[..done], byKey, store, skip);
      var suppressed := ScanForKeys(disk, skip);
      ReloadSecrets(listed);
      Unset(suppressed + unreadable);
      UntouchedFilesLoseNothing(store.slots, disk);
    }
  }

  lemma SortedPrefix(ls: seq<Line>, n: nat)
    requires n <= |KeysOf(ls)|
    ensures Sorted(KeysOf(ls)[..n])
  {
    KeysOfAreSorted(ls);
  }

  lemma RemovedKeysAreLoadable(contents: seq<string>, slots: Slots, faults: Faults, skip: set<string>)
    ensures var plan := PlanFor(contents, slots, faults, skip);
            forall k :: k in RemovedKeys(plan.decisions) ==> HoldsSecret(plan.slots, k) && '.' !in k
  {
    var plan := PlanFor(contents, slots, faults, skip);
    forall k | k in RemovedKeys(plan.decisions) ensures HoldsSecret(plan.slots, k) && '.' !in k {
      RemovedKeysAreStored(contents, slots, faults, skip, k);
    }
  }

  lemma NothingLostWith(contents: seq<string>, slots: Slots, faults: Faults, skip: set<string>, written: set<nat>)
    ensures var plan := PlanFor(contents, slots, faults, skip);
            NothingLost(plan.slots, contents, FilesAfter(contents, plan.files, written))
  {
    hide AllLinesPresent;
    var plan := PlanFor(contents, slots, faults, skip);
    forall k ensures HoldsSecret(plan.slots, k) || AllLinesPresent(contents, FilesAfter(contents, plan.files, written), k) {
      NeverLosesCredential(contents, slots, faults, skip, |plan.decisions|, written, k);
      assert plan.decisions[..|plan.decisions|] == plan.decisions;
    }
  }
}
