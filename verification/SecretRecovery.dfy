/**
 Recovery of a migration that died half-way: the next one, run on the store and the files as they
 were left, ends with the store of an uninterrupted run, and with its files up to one exact exception.
 */
module SecretRecovery {
  import opened Wrappers
  import opened Text
  import opened Dotenv
  import opened SecretMigration

  ghost predicate SameSlot(a: Slots, b: Slots, key: string) {
    (key in a <==> key in b) && (key in a ==> a[key] == b[key])
  }

  /** A non-empty value of the key is still in the files. */
  predicate Left(files: seq<string>, key: string) {
    Distinct(ValuesOf(AllLines(files), key)) != []
  }

  /** The store when the process died after that many decisions. */
  function StoreAt(contents: seq<string>, slots: Slots, faults: Faults, skip: set<string>, done: nat): Slots
    requires done <= |PlanFor(contents, slots, faults, skip).decisions|
  {
    Committed(AllLines(contents), slots, PlanFor(contents, slots, faults, skip).decisions[..done])
  }

  /** Files are rewritten only after every decision has been carried out. */
  predicate CrashPoint(plan: Plan, done: nat, written: set<nat>) {
    done <= |plan.decisions| && (done < |plan.decisions| ==> written == {})
  }

  // ---------------------------------------------------------------- one file

  lemma RewrittenIsJoin(content: string, removed: set<string>)
    ensures Rewritten(content, removed) == JoinLines(Raws(KeptLines(ParseAll(SplitLines(content)), removed)))
  {
    var ls := ParseAll(SplitLines(content));
    KeptLinesAreKept(ls, removed);
    if !Touched(content, removed) {
      assert KeptLines(ls, removed) == ls;
      assert Raws(ls) == SplitLines(content);
      JoinSplit(content);
    }
  }

  lemma {:induction false} KeptTheSame(ls: seq<Line>, few: set<string>, many: set<string>)
    requires forall i :: 0 <= i < |ls| && Removable(ls[i], many) ==> Removable(ls[i], few)
    requires few <= many
    ensures KeptLines(ls, few) == KeptLines(ls, many)
  {
    if ls != [] {
      KeptTheSame(ls[..|ls| - 1], few, many);
    }
  }

  lemma {:induction false} KeptFewer(ls: seq<Line>, few: set<string>, many: set<string>, i: nat)
    requires few <= many
    ensures |KeptLines(ls, many)| <= |KeptLines(ls, few)|
    ensures i < |ls| && Removable(ls[i], many) && !Removable(ls[i], few) ==> |KeptLines(ls, many)| < |KeptLines(ls, few)|
  {
    if ls != [] {
      KeptFewer(ls[..|ls| - 1], few, many, i);
    }
  }

  /** Different lists of parsed lines, one shorter, are different files. */
  lemma ShorterIsDifferent(content: string, few: set<string>, many: set<string>)
    requires few <= many
    requires var ls := ParseAll(SplitLines(content)); |KeptLines(ls, many)| < |KeptLines(ls, few)|
    ensures Rewritten(content, few) != Rewritten(content, many)
  {
    hide Rewritten, KeptLines, ParseLine, SplitLines, JoinLines;
    var ls := ParseAll(SplitLines(content));
    var a, b := KeptLines(ls, many), KeptLines(ls, few);
    RewrittenIsJoin(content, few);
    RewrittenIsJoin(content, many);
    NoNewlinesInKept(content, few);
    NoNewlinesInKept(content, many);
    SplitJoin(Raws(b));
    if a != [] {
      SplitJoin(Raws(a));
    } else {
      EmptyFile();
      if Raws(b) == [""] {
        EmptyLineIsKept(ls, few, many);
      }
    }
  }

  lemma EmptyFile()
    ensures SplitLines("") == [""] && JoinLines(Raws([])) == "" && ParseLine("") == Other("")
  {
    assert Raws([]) == [];
  }

  lemma EmptyLineIsKept(ls: seq<Line>, few: set<string>, many: set<string>)
    requires forall i :: 0 <= i < |ls| ==> ls[i] == ParseLine(ls[i].raw)
    requires Raws(KeptLines(ls, few)) == [""]
    ensures KeptLines(ls, many) != []
  {
    hide ParseLine, KeptLines;
    var l := KeptLines(ls, few)[0];
    assert l.raw == Raws(KeptLines(ls, few))[0];
    KeptIsMember(ls, few, l);
    EmptyFile();
    KeptIsMember(ls, many, l);
  }

  lemma NoNewlinesInKept(content: string, removed: set<string>)
    ensures var ls := ParseAll(SplitLines(content));
            && (forall i :: 0 <= i < |Raws(KeptLines(ls, removed))| ==> '\n' !in Raws(KeptLines(ls, removed))[i])
            && (forall i :: 0 <= i < |ls| ==> ls[i] == ParseLine(ls[i].raw))
  {
    hide ParseLine, KeptLines, SplitLines;
    var ls := ParseAll(SplitLines(content));
    var kept := KeptLines(ls, removed);
    SplitHasNoNewlines(content);
    forall i | 0 <= i < |kept| ensures '\n' !in kept[i].raw {
      KeptIsMember(ls, removed, kept[i]);
    }
  }

  /** Removing fewer keys gives the same file exactly if none of its lines assigns a key in between. */
  lemma SameFileExactly(content: string, few: set<string>, many: set<string>)
    requires few <= many
    ensures Rewritten(content, few) == Rewritten(content, many) <==>
              forall l :: l in ParseAll(SplitLines(content)) && Removable(l, many) ==> l.key in few
  {
    hide Rewritten, KeptLines, SplitLines, ParseLine;
    var ls := ParseAll(SplitLines(content));
    if l :| l in ls && Removable(l, many) && l.key !in few {
      var i: nat :| i < |ls| && ls[i] == l;
      KeptFewer(ls, few, many, i);
      ShorterIsDifferent(content, few, many);
    } else {
      KeptTheSame(ls, few, many);
      RewrittenIsJoin(content, few);
      RewrittenIsJoin(content, many);
    }
  }

  /** A rewritten file is not touched again by fewer keys. */
  lemma RewrittenStays(content: string, few: set<string>, many: set<string>)
    requires few <= many
    ensures Rewritten(Rewritten(content, many), few) == Rewritten(content, many)
  {
    RewrittenReadsBack(content, many);
    hide Rewritten, KeptLines, SplitLines, ParseLine;
    var ls := ParseAll(SplitLines(Rewritten(content, many)));
    forall l | l in ls ensures !Removable(l, few) {
      KeptIsMember(ParseAll(SplitLines(content)), many, l);
    }
    UntouchedStays(Rewritten(content, many), few);
  }

  lemma UntouchedStays(content: string, removed: set<string>)
    requires forall l :: l in ParseAll(SplitLines(content)) ==> !Removable(l, removed)
    ensures Rewritten(content, removed) == content
  {
  }

  // ---------------------------------------------------------------- one key

  lemma {:induction false} PartlyRewrittenValues(contents: seq<string>, now: seq<string>, removed: set<string>, key: string)
    requires |now| == |contents| && key !in removed
    requires forall i :: 0 <= i < |contents| ==> now[i] == contents[i] || now[i] == Rewritten(contents[i], removed)
    ensures ValuesOf(AllLines(now), key) == ValuesOf(AllLines(contents), key)
  {
    hide Rewritten, ParseLine, SplitLines;
    if contents != [] {
      var n := |contents| - 1;
      PartlyRewrittenValues(contents[..n], now[..n], removed, key);
      ValuesOfRewritten(contents[n], removed, key);
      ValuesOfConcat(AllLines(contents[..n]), ParseAll(SplitLines(contents[n])), key);
      ValuesOfConcat(AllLines(now[..n]), ParseAll(SplitLines(now[n])), key);
    }
  }

  lemma SlotAt(contents: seq<string>, slots: Slots, faults: Faults, skip: set<string>, done: nat, key: string)
    requires done <= |PlanFor(contents, slots, faults, skip).decisions|
    ensures var ds := PlanFor(contents, slots, faults, skip).decisions;
            var values := Distinct(ValuesOf(AllLines(contents), key));
            var now := StoreAt(contents, slots, faults, skip, done);
            if Decided(key, Migrated) in ds[..done] && values != []
            then key in now && now[key] == Readable(values[0]) else SameSlot(now, slots, key)
  {
    PlanFacts(contents, slots, faults, skip);
    hide PlanFor, DecisionFor, Committed;
    CommittedAt(AllLines(contents), slots, PlanFor(contents, slots, faults, skip).decisions[..done], key);
  }

  /** A key that was not rejected and has a readable secret by now is not rejected, and not migrated. */
  lemma NotRejectedAgain(slots: Slots, now: Slots, faults: Faults, key: string, values: seq<string>, left: seq<string>, o: Decision)
    requires Decide(slots, faults, key, values) == Some(o) && !Rejected(o)
    requires HoldsSecret(now, key) && left != []
    ensures var again := Decide(now, faults, key, left); again.Some? && !Rejected(again.value) && !again.value.Migrated?
  {
  }

  /** The decision on one key after a crash. */
  lemma DecisionAfterCrash(contents: seq<string>, slots: Slots, faults: Faults, skip: set<string>, done: nat, written: set<nat>, key: string)
    requires var plan := PlanFor(contents, slots, faults, skip); CrashPoint(plan, done, written)
    requires IsSecretEnvName(key)
    ensures var plan := PlanFor(contents, slots, faults, skip);
            var now := FilesAfter(contents, plan.files, written);
            var before := DecisionFor(AllLines(contents), slots, faults, skip, key);
            var again := DecisionFor(AllLines(now), StoreAt(contents, slots, faults, skip, done), faults, skip, key);
            && (before.None? || Rejected(before.value) ==> again == before)
            && (before.Some? && !Rejected(before.value) ==>
                  && (again.Some? <==> Left(now, key)) && (again.Some? ==> !Rejected(again.value))
                  && (again.Some? && again.value.Migrated? <==> before.value.Migrated? && Decided(key, Migrated) !in plan.decisions[..done]))
            && (key !in RemovedKeys(plan.decisions) || done < |plan.decisions| ==>
                  ValuesOf(AllLines(now), key) == ValuesOf(AllLines(contents), key))
  {
    var plan := PlanFor(contents, slots, faults, skip);
    var now, store := FilesAfter(contents, plan.files, written), StoreAt(contents, slots, faults, skip, done);
    var values, left := Distinct(ValuesOf(AllLines(contents), key)), Distinct(ValuesOf(AllLines(now), key));
    var before := DecisionFor(AllLines(contents), slots, faults, skip, key);
    PlanFacts(contents, slots, faults, skip);
    RemovedMeansDecided(plan.decisions, key);
    SlotAt(contents, slots, faults, skip, done, key);
    WrittenFiles(contents, slots, faults, skip, written);
    if done < |plan.decisions| {
      assert now == contents;
    } else {
      assert plan.decisions[..done] == plan.decisions;
      if key !in RemovedKeys(plan.decisions) {
        PartlyRewrittenValues(contents, now, RemovedKeys(plan.decisions), key);
      }
    }
    hide PlanFor, Decide, Distinct, ValuesOf, Committed, RemovedKeys, StoreAt, FilesAfter, Compare;
    NothingDecidedWithoutValues(store, faults, key);
    if before.Some? {
      assert Decided(key, before.value) in plan.decisions;
      DecisionMeaning(slots, faults, key, values, before.value);
      if Rejected(before.value) || (before.value.Migrated? && Decided(key, Migrated) !in plan.decisions[..done]) {
        OneDecision(plan.decisions, key, before.value);
        DecidedAgain(slots, store, faults, key, values);
      } else if left != [] {
        NotRejectedAgain(slots, store, faults, key, values, left, before.value);
      }
    } else if key !in skip {
      NothingDecided(slots, faults, key, values);
    }
  }

  lemma NothingDecided(slots: Slots, faults: Faults, key: string, values: seq<string>)
    ensures Decide(slots, faults, key, values).None? <==> values == []
  {
  }

  lemma OneDecision(ds: seq<Decided>, key: string, o: Decision)
    requires DistinctKeys(ds) && Decided(key, o) in ds
    ensures forall o' :: Decided(key, o') in ds ==> o' == o
    ensures forall n: nat, o' :: n <= |ds| && Decided(key, o') in ds[..n] ==> o' == o
  {
  }

  lemma WrittenFiles(contents: seq<string>, slots: Slots, faults: Faults, skip: set<string>, written: set<nat>)
    ensures var plan := PlanFor(contents, slots, faults, skip);
            var now := FilesAfter(contents, plan.files, written);
            && |now| == |contents| && (written == {} ==> now == contents)
            && forall i :: 0 <= i < |contents| ==>
                 now[i] == if i in written then Rewritten(contents[i], RemovedKeys(plan.decisions)) else contents[i]
  {
    hide DecideAll, Committed, RemovedKeys, AllLines;
  }

  /** What a plan does about one key. */
  lemma KeyFacts(contents: seq<string>, slots: Slots, faults: Faults, skip: set<string>, key: string)
    ensures var plan := PlanFor(contents, slots, faults, skip);
            var d := DecisionFor(AllLines(contents), slots, faults, skip, key);
            var values := Distinct(ValuesOf(AllLines(contents), key));
            && (Decided(key, Migrated) in plan.decisions <==> IsSecretEnvName(key) && d == Some(Migrated))
            && (key in RemovedKeys(plan.decisions) <==> IsSecretEnvName(key) && d.Some? && !Rejected(d.value))
            && (d.Some? ==> values != [])
            && (if IsSecretEnvName(key) && d == Some(Migrated)
                then key in plan.slots && plan.slots[key] == Readable(values[0]) else SameSlot(plan.slots, slots, key))
  {
    var ds := PlanFor(contents, slots, faults, skip).decisions;
    PlanFacts(contents, slots, faults, skip);
    RemovedMeansDecided(ds, key);
    SlotAt(contents, slots, faults, skip, |ds|, key);
    assert ds[..|ds|] == ds;
    PlanStore(contents, slots, faults, skip);
    NothingDecidedWithoutValues(slots, faults, key);
    var d := DecisionFor(AllLines(contents), slots, faults, skip, key);
    hide PlanFor, DecideAll, Committed, Decide, Distinct, ValuesOf, StoreAt, RemovedKeys, IsSecretEnvName;
    if IsSecretEnvName(key) && d.Some? {
      assert Decided(key, d.value) in ds;
    }
  }

  /** One slot after the second run. */
  lemma SlotRecovers(contents: seq<string>, slots: Slots, faults: Faults, skip: set<string>, done: nat, written: set<nat>, key: string)
    requires var plan := PlanFor(contents, slots, faults, skip); CrashPoint(plan, done, written)
    ensures var plan := PlanFor(contents, slots, faults, skip);
            var now := FilesAfter(contents, plan.files, written);
            var again := PlanFor(now, StoreAt(contents, slots, faults, skip, done), faults, skip);
            && SameSlot(again.slots, plan.slots, key)
            && (key in RemovedKeys(again.decisions) <==> key in RemovedKeys(plan.decisions) && Left(now, key))
  {
    var plan := PlanFor(contents, slots, faults, skip);
    var now, store := FilesAfter(contents, plan.files, written), StoreAt(contents, slots, faults, skip, done);
    KeyFacts(contents, slots, faults, skip, key);
    KeyFacts(now, store, faults, skip, key);
    SlotAt(contents, slots, faults, skip, done, key);
    if IsSecretEnvName(key) { DecisionAfterCrash(contents, slots, faults, skip, done, written, key); }
    MigratedSoFar(plan.decisions, done, key);
    hide PlanFor, DecisionFor, Distinct, ValuesOf, AllLines, FilesAfter, StoreAt, RemovedKeys, IsSecretEnvName;
  }

  lemma MigratedSoFar(ds: seq<Decided>, done: nat, key: string)
    requires done <= |ds|
    ensures Decided(key, Migrated) in ds[..done] ==> Decided(key, Migrated) in ds
    ensures done == |ds| ==> ds[..done] == ds
  {
  }

  lemma PlanStore(contents: seq<string>, slots: Slots, faults: Faults, skip: set<string>)
    ensures var plan := PlanFor(contents, slots, faults, skip);
            plan.slots == StoreAt(contents, slots, faults, skip, |plan.decisions|)
  {
    var plan := PlanFor(contents, slots, faults, skip);
    assert plan.decisions[..|plan.decisions|] == plan.decisions;
  }

  // ---------------------------------------------------------------- recovery

  /** The files once all rewrites of a plan are done. */
  function Finished(contents: seq<string>, plan: Plan): (r: seq<string>)
    ensures |r| == |contents|
  {
    FilesAfter(contents, plan.files, plan.files.Keys)
  }

  lemma FinishedFiles(contents: seq<string>, slots: Slots, faults: Faults, skip: set<string>)
    ensures var plan := PlanFor(contents, slots, faults, skip);
            forall i :: 0 <= i < |contents| ==> Finished(contents, plan)[i] == Rewritten(contents[i], RemovedKeys(plan.decisions))
  {
    hide DecideAll, Committed, RemovedKeys, AllLines;
  }

  /** A file in which no removed key has lost all its values elsewhere. */
  ghost predicate Recoverable(content: string, now: seq<string>, removed: set<string>) {
    forall l :: l in ParseAll(SplitLines(content)) && Removable(l, removed) ==> Left(now, l.key)
  }

  /** Wherever the first run dies, the second one ends with the store of an uninterrupted run; and each
      file ends as it would have, exactly if it was rewritten before or assigns no removed key whose
      values were all in files rewritten before: such an empty assignment stays behind. */
  lemma SecondRunRecovers(contents: seq<string>, slots: Slots, faults: Faults, skip: set<string>, done: nat, written: set<nat>)
    requires CrashPoint(PlanFor(contents, slots, faults, skip), done, written)
    ensures var plan := PlanFor(contents, slots, faults, skip);
            var now := FilesAfter(contents, plan.files, written);
            var again := PlanFor(now, StoreAt(contents, slots, faults, skip, done), faults, skip);
            && again.slots == plan.slots
            && forall i :: 0 <= i < |contents| ==>
                 (Finished(now, again)[i] == Finished(contents, plan)[i] <==>
                   i in written || Recoverable(contents[i], now, RemovedKeys(plan.decisions)))
  {
    hide Rewritten, RemovedKeys, Recoverable, StoreAt, FilesAfter, Left, PlanFor, Finished;
    var plan := PlanFor(contents, slots, faults, skip);
    var now, store := FilesAfter(contents, plan.files, written), StoreAt(contents, slots, faults, skip, done);
    var again := PlanFor(now, store, faults, skip);
    forall key ensures SameSlot(again.slots, plan.slots, key) {
      SlotRecovers(contents, slots, faults, skip, done, written, key);
    }
    SameSlotsSameStore(again.slots, plan.slots);
    WrittenFiles(contents, slots, faults, skip, written);
    FinishedFiles(contents, slots, faults, skip);
    FinishedFiles(now, store, faults, skip);
    var many, few := RemovedKeys(plan.decisions), RemovedKeys(again.decisions);
    forall key ensures key in few <==> key in many && Left(now, key) {
      SlotRecovers(contents, slots, faults, skip, done, written, key);
    }
    forall i | 0 <= i < |contents|
      ensures Finished(now, again)[i] == Finished(contents, plan)[i] <==> i in written || Recoverable(contents[i], now, many)
    {
      if i in written {
        RewrittenStays(contents[i], few, many);
      } else {
        SameFileExactly(contents[i], few, many);
        RecoverableMeans(contents[i], now, few, many);
      }
    }
  }

  lemma RecoverableMeans(content: string, now: seq<string>, few: set<string>, many: set<string>)
    requires forall key :: key in few <==> key in many && Left(now, key)
    ensures Recoverable(content, now, many) <==>
              forall l :: l in ParseAll(SplitLines(content)) && Removable(l, many) ==> l.key in few
  {
    hide Left, ParseLine, SplitLines;
  }

  lemma SameSlotsSameStore(a: Slots, b: Slots)
    requires forall key :: SameSlot(a, b, key)
    ensures a == b
  {
    forall key ensures key in a <==> key in b {
      assert SameSlot(a, b, key);
    }
    assert forall key :: key in a ==> SameSlot(a, b, key);
  }

  lemma OneLineFile(name: string, value: string)
    requires IsSecretEnvName(name) && (value == "" || value == "x")
    ensures var line := name + "=" + value;
            ParseAll(SplitLines(line)) == [Assignment(name, value, line)]
  {
    hide ParseLine, IsEnvName, IsSecretEnvName, SplitLines, Trimmed, Blank;
    var line := name + "=" + value;
    NameHasNoNewline(name);
    LetterIsPlain(value);
    assert '\n' !in line;
    OneLine(line);
    ParsesAssignment("", name, "", value, "");
    assert line == "" + name + "=" + "" + value + "";
  }

  lemma NameHasNoNewline(name: string)
    requires IsSecretEnvName(name)
    ensures IsEnvName(name) && '\n' !in name
  {
  }

  lemma LetterIsPlain(value: string)
    requires value == "" || value == "x"
    ensures Trimmed(value) && Blank("") && !Enclosed(value) && '\n' !in value
  {
  }

  lemma ValuesOfOne(l: Line, key: string)
    ensures ValuesOf([l], key) == if Assigns(l, key) then [l.value] else []
  {
    assert [l][..0] == [];
  }

  lemma ValuesOfTwo(files: seq<string>, key: string)
    requires |files| == 2
    ensures ValuesOf(AllLines(files), key) ==
              ValuesOf(ParseAll(SplitLines(files[0])), key) + ValuesOf(ParseAll(SplitLines(files[1])), key)
  {
    hide ParseLine, SplitLines, ValuesOf;
    var a, b := ParseAll(SplitLines(files[0])), ParseAll(SplitLines(files[1]));
    assert files[..1][..0] == [] && files[..1][0] == files[0];
    assert AllLines(files[..1]) == [] + a;
    assert [] + a == a;
    ValuesOfConcat(a, b, key);
  }

  lemma DistinctOne(v: string)
    requires v != ""
    ensures Distinct([v, ""]) == [v] && Distinct([""]) == []
  {
    assert [v, ""][..1] == [v] && [v][..0] == [] && [""][..0] == [];
    assert Distinct([v]) == [v];
  }

  /** Two files, a value in one and an empty assignment in the other. */
  function TwoFiles(name: string): seq<string> {
    [name + "=" + "x", name + "=" + ""]
  }

  const SOUND := Faults({}, {})

  lemma OneValue(name: string, value: string)
    requires IsSecretEnvName(name) && (value == "" || value == "x")
    ensures ValuesOf(ParseAll(SplitLines(name + "=" + value)), name) == [value]
  {
    OneLineFile(name, value);
    hide ParseLine, SplitLines, ValuesOf, IsSecretEnvName;
    ValuesOfOne(Assignment(name, value, name + "=" + value), name);
  }

  lemma ValueBefore(name: string)
    requires IsSecretEnvName(name)
    ensures Distinct(ValuesOf(AllLines(TwoFiles(name)), name)) == ["x"]
  {
    hide ParseLine, SplitLines, IsSecretEnvName, AllLines, ValuesOf, Distinct;
    ValuesOfTwo(TwoFiles(name), name);
    OneValue(name, "x");
    OneValue(name, "");
    DistinctOne("x");
    assert ["x"] + [""] == ["x", ""];
  }

  lemma NoValueLeft(name: string, now: seq<string>, many: set<string>)
    requires IsSecretEnvName(name) && name in many
    requires |now| == 2 && now[0] == Rewritten(TwoFiles(name)[0], many) && now[1] == name + "=" + ""
    ensures Distinct(ValuesOf(AllLines(now), name)) == []
  {
    hide ParseLine, SplitLines, Rewritten, IsSecretEnvName, AllLines, ValuesOf, Distinct;
    ValuesOfTwo(now, name);
    ValuesOfRewritten(TwoFiles(name)[0], many, name);
    OneValue(name, "");
    DistinctOne("x");
    assert [] + [""] == [""];
  }

  lemma MigratedFirst(name: string)
    requires IsSecretEnvName(name)
    ensures name in RemovedKeys(PlanFor(TwoFiles(name), map[], SOUND, {}).decisions)
  {
    var ds := PlanFor(TwoFiles(name), map[], SOUND, {}).decisions;
    PlanFacts(TwoFiles(name), map[], SOUND, {});
    RemovedMeansDecided(ds, name);
    ValueBefore(name);
    hide PlanFor, ValuesOf, Distinct, AllLines, IsSecretEnvName, RemovedKeys, TwoFiles;
    assert DecisionFor(AllLines(TwoFiles(name)), map[], SOUND, {}, name) == Some(Migrated);
    assert Decided(name, Migrated) in ds;
  }

  lemma OneAssignment(name: string, few: set<string>, many: set<string>)
    requires IsSecretEnvName(name) && name in many && name !in few
    ensures forall value :: value == "" || value == "x" ==>
              Rewritten(name + "=" + value, many) == "" && Rewritten(name + "=" + value, few) == name + "=" + value
  {
    forall value | value == "" || value == "x"
      ensures Rewritten(name + "=" + value, many) == "" && Rewritten(name + "=" + value, few) == name + "=" + value
    {
      OneLineFile(name, value);
      var line := name + "=" + value;
      var l := Assignment(name, value, line);
      UntouchedStays(line, few);
      RewrittenIsJoin(line, many);
      assert [l][..0] == [] && Removable(l, many);
      assert KeptLines([l], many) == [];
      assert Raws([]) == [];
    }
  }

  lemma NotRemovedWithoutValues(files: seq<string>, slots: Slots, faults: Faults, key: string)
    requires Distinct(ValuesOf(AllLines(files), key)) == []
    ensures key !in RemovedKeys(PlanFor(files, slots, faults, {}).decisions)
  {
    var ds := PlanFor(files, slots, faults, {}).decisions;
    PlanFacts(files, slots, faults, {});
    RemovedMeansDecided(ds, key);
  }

  /** A value in one file and an empty assignment in another, and a death between their rewrites: the
      empty assignment, which an uninterrupted run removes, is never removed. */
  lemma EmptyAssignmentStaysBehind(name: string)
    requires IsSecretEnvName(name)
    ensures var plan := PlanFor(TwoFiles(name), map[], SOUND, {});
            var now := FilesAfter(TwoFiles(name), plan.files, {0});
            var again := PlanFor(now, plan.slots, SOUND, {});
            && CrashPoint(plan, |plan.decisions|, {0})
            && Finished(TwoFiles(name), plan)[1] == "" && Finished(now, again)[1] == name + "=" + ""
  {
    var plan := PlanFor(TwoFiles(name), map[], SOUND, {});
    var now := FilesAfter(TwoFiles(name), plan.files, {0});
    var again := PlanFor(now, plan.slots, SOUND, {});
    var many, few := RemovedKeys(plan.decisions), RemovedKeys(again.decisions);
    MigratedFirst(name);
    WrittenFiles(TwoFiles(name), map[], SOUND, {}, {0});
    FinishedFiles(TwoFiles(name), map[], SOUND, {});
    FinishedFiles(now, plan.slots, SOUND, {});
    hide PlanFor, FilesAfter, Finished, RemovedKeys, Rewritten, IsSecretEnvName, Distinct, ValuesOf, AllLines;
    NoValueLeft(name, now, many);
    NotRemovedWithoutValues(now, plan.slots, SOUND, name);
    OneAssignment(name, few, many);
  }
}
