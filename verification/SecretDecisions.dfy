/**
 When each outcome of the migration is reached, in terms of what the files say and the store holds, and
 what the store then has.
 */
module SecretDecisions {
  import opened Wrappers
  import opened Text
  import opened Dotenv
  import opened SecretMigration

  /** The store has nothing usable under that name. */
  predicate Absent(slots: Slots, key: string) {
    key !in slots || slots[key] == EmptyFile
  }

  /** Some line of some file assigns that value to the key. */
  ghost predicate Written(contents: seq<string>, key: string, v: string) {
    exists i :: 0 <= i < |contents| && WrittenIn(contents[i], key, v)
  }

  ghost predicate WrittenIn(content: string, key: string, v: string) {
    exists raw :: raw in SplitLines(content) && ParseLine(raw) == Assignment(key, v, raw)
  }

  /** One non-empty value at least is written for the key, and not two different ones. */
  ghost predicate OneValue(contents: seq<string>, key: string) {
    (exists v :: v != "" && Written(contents, key, v))
    && forall v, w :: v != "" && w != "" && Written(contents, key, v) && Written(contents, key, w) ==> v == w
  }

  ghost predicate NoValue(contents: seq<string>, key: string) {
    forall v :: Written(contents, key, v) ==> v == ""
  }

  lemma {:induction false} ValueMembers(ls: seq<Line>, key: string, v: string)
    ensures v in ValuesOf(ls, key) <==> exists i :: 0 <= i < |ls| && Assigns(ls[i], key) && ls[i].value == v
  {
    if ls != [] {
      var front, last := ls[..|ls| - 1], ls[|ls| - 1];
      ValueMembers(front, key, v);
      if v in ValuesOf(front, key) {
        var i :| 0 <= i < |front| && Assigns(front[i], key) && front[i].value == v;
        assert ls[i] == front[i];
      }
      if i :| 0 <= i < |ls| && Assigns(ls[i], key) && ls[i].value == v {
        if i < |front| { assert front[i] == ls[i]; } else { assert last == ls[i]; }
      }
    }
  }

  lemma {:induction false} LinesInFiles(contents: seq<string>, l: Line)
    ensures l in AllLines(contents) <==> exists i :: 0 <= i < |contents| && l in ParseAll(SplitLines(contents[i]))
  {
    hide ParseLine, SplitLines;
    if contents != [] {
      var front, last := contents[..|contents| - 1], contents[|contents| - 1];
      LinesInFiles(front, l);
      if l in AllLines(front) {
        var i :| 0 <= i < |front| && l in ParseAll(SplitLines(front[i]));
        assert contents[i] == front[i];
      }
      if i :| 0 <= i < |contents| && l in ParseAll(SplitLines(contents[i])) {
        if i < |front| { assert front[i] == contents[i]; } else { assert last == contents[i]; }
      }
    }
  }

  lemma LineOfFile(content: string, l: Line)
    ensures l in ParseAll(SplitLines(content)) <==> l.raw in SplitLines(content) && ParseLine(l.raw) == l
  {
    hide ParseLine, SplitLines;
    var raws, ls := SplitLines(content), ParseAll(SplitLines(content));
    if l in ls {
      var i :| 0 <= i < |ls| && ls[i] == l;
      assert raws[i] == l.raw;
    }
    if l.raw in raws && ParseLine(l.raw) == l {
      var i :| 0 <= i < |raws| && raws[i] == l.raw;
      assert ls[i] == l;
    }
  }

  /** The values collected for a key are those written for it. */
  lemma CollectedIsWritten(contents: seq<string>, key: string, v: string)
    ensures v in ValuesOf(AllLines(contents), key) <==> Written(contents, key, v)
  {
    hide ParseLine, SplitLines, ValuesOf, AllLines;
    var ls := AllLines(contents);
    ValueMembers(ls, key, v);
    if v in ValuesOf(ls, key) {
      var i :| 0 <= i < |ls| && Assigns(ls[i], key) && ls[i].value == v;
      LinesInFiles(contents, ls[i]);
      var f :| 0 <= f < |contents| && ls[i] in ParseAll(SplitLines(contents[f]));
      LineOfFile(contents[f], ls[i]);
      assert WrittenIn(contents[f], key, v);
    }
    if Written(contents, key, v) {
      var f :| 0 <= f < |contents| && WrittenIn(contents[f], key, v);
      var raw :| raw in SplitLines(contents[f]) && ParseLine(raw) == Assignment(key, v, raw);
      var l := Assignment(key, v, raw);
      LineOfFile(contents[f], l);
      LinesInFiles(contents, l);
      var i :| 0 <= i < |ls| && ls[i] == l;
    }
  }

  lemma ValuesAre(contents: seq<string>, key: string)
    ensures var values := Distinct(ValuesOf(AllLines(contents), key));
            && (forall v :: v in values <==> v != "" && Written(contents, key, v))
            && (|values| == 0 <==> NoValue(contents, key))
            && (|values| == 1 <==> OneValue(contents, key))
  {
    hide ParseLine, SplitLines, ValuesOf, AllLines, Written, Distinct;
    var values := Distinct(ValuesOf(AllLines(contents), key));
    forall v ensures v in values <==> v != "" && Written(contents, key, v) {
      CollectedIsWritten(contents, key, v);
    }
    if |values| > 0 { assert values[0] in values; }
    if |values| > 1 { assert values[1] in values && values[0] != values[1]; }
    if |values| == 1 {
      assert forall v :: v in values ==> v == values[0];
    }
  }

  lemma DecideExactly(slots: Slots, faults: Faults, key: string, values: seq<string>)
    ensures var d := Decide(slots, faults, key, values);
            && (d.None? <==> values == [])
            && (values != [] ==>
                  var readable := key in slots && slots[key].Readable?;
                  && (d == Some(RejectedUnsafe) <==>
                        key in faults.compareThrows || (key in slots && slots[key] == Unreadable)
                        || (Absent(slots, key) && |values| == 1 && key in faults.commitThrows))
                  && (key !in faults.compareThrows ==>
                        && (d == Some(Migrated) <==> Absent(slots, key) && |values| == 1 && key !in faults.commitThrows)
                        && (d == Some(RejectedConflict) <==> Absent(slots, key) && |values| > 1)
                        && (d == Some(KeptExisting) <==> readable && |values| == 1 && slots[key].value == values[0])
                        && (d == Some(ConflictKeptExisting) <==> readable && (|values| > 1 || slots[key].value != values[0]))))
  {
  }

  /** Each outcome, for every credential key that is not skipped, exactly when: nothing without a
      non-empty value; unsafe if the store cannot be compared, read or written; migrated if one value
      is written and the store has none, a conflict if more are; kept if the store has the one value
      written, and kept against the files if it has another or more are written. */
  lemma OutcomesExactly(contents: seq<string>, slots: Slots, faults: Faults, skip: set<string>, key: string, o: Decision)
    requires IsSecretEnvName(key) && key !in skip
    ensures var decided := Decided(key, o) in PlanFor(contents, slots, faults, skip).decisions;
            var one := OneValue(contents, key);
            var several := !one && !NoValue(contents, key);
            var readable := key in slots && slots[key].Readable?;
            && (decided ==> !NoValue(contents, key))
            && (o == RejectedUnsafe && !NoValue(contents, key) ==>
                  (decided <==> key in faults.compareThrows || (key in slots && slots[key] == Unreadable)
                                || (Absent(slots, key) && one && key in faults.commitThrows)))
            && (o == Migrated ==>
                  (decided <==> key !in faults.compareThrows && Absent(slots, key) && one && key !in faults.commitThrows))
            && (o == RejectedConflict ==> (decided <==> key !in faults.compareThrows && Absent(slots, key) && several))
            && (o == KeptExisting ==>
                  (decided <==> key !in faults.compareThrows && readable && one && Written(contents, key, slots[key].value)
                                && slots[key].value != ""))
            && (o == ConflictKeptExisting ==>
                  (decided <==> key !in faults.compareThrows && readable
                                && (several || (one && !(Written(contents, key, slots[key].value) && slots[key].value != "")))))
  {
    hide ParseLine, SplitLines, ValuesOf, AllLines, Written, Distinct, Decide, PlanFor, OneValue, NoValue, IsSecretEnvName;
    PlanFacts(contents, slots, faults, skip);
    ValuesAre(contents, key);
    var values := Distinct(ValuesOf(AllLines(contents), key));
    DecideExactly(slots, faults, key, values);
    if |values| == 1 { OnlyValue(values); }
  }

  lemma OnlyValue(values: seq<string>)
    requires |values| == 1
    ensures values[0] in values && forall v :: v in values ==> v == values[0]
  {
  }

  /** A migrated key is stored with whatever non-empty value is written for it. */
  lemma StoresWritten(contents: seq<string>, slots: Slots, faults: Faults, skip: set<string>, key: string, v: string)
    requires v != "" && Written(contents, key, v)
    requires Decided(key, Migrated) in PlanFor(contents, slots, faults, skip).decisions
    ensures var after := PlanFor(contents, slots, faults, skip).slots; key in after && after[key] == Readable(v)
  {
    hide ParseLine, SplitLines, ValuesOf, AllLines, Distinct, Decide, PlanFor, Written;
    ValuesAre(contents, key);
    var values := Distinct(ValuesOf(AllLines(contents), key));
    assert v in values;
    DecisionsMatchTheStore(contents, slots, faults, skip, key, Migrated);
    if |values| == 1 { OnlyValue(values); }
  }

  /** What is written in a file is what the store gets: the value on a line with that name, without white
      space around and without the equal quotes that enclose it, if it has any. */
  lemma StoresWhatIsWritten(contents: seq<string>, slots: Slots, faults: Faults, skip: set<string>, key: string, f: nat,
                            a: string, b: string, text: string, c: string)
    requires f < |contents| && (a + key + "=" + b + text + c) in SplitLines(contents[f])
    requires Blank(a) && Blank(b) && Blank(c) && Trimmed(text) && text != ""
    requires Enclosed(text) ==> |text| > 2
    requires Decided(key, Migrated) in PlanFor(contents, slots, faults, skip).decisions
    ensures var after := PlanFor(contents, slots, faults, skip).slots;
            key in after && after[key] == Readable(if Enclosed(text) then text[1..|text| - 1] else text)
  {
    hide ParseLine, SplitLines, ValuesOf, AllLines, Distinct, Decide, PlanFor, IsSecretEnvName, IsEnvName, Blank, Trimmed, Enclosed;
    PlanFacts(contents, slots, faults, skip);
    SecretIsEnvName(key);
    var v := if Enclosed(text) then text[1..|text| - 1] else text;
    ParsesAssignment(a, key, b, text, c);
    assert WrittenIn(contents[f], key, v);
    assert Written(contents, key, v);
    StoresWritten(contents, slots, faults, skip, key, v);
  }

  lemma SecretIsEnvName(key: string)
    requires IsSecretEnvName(key)
    ensures IsEnvName(key)
  {
  }

  /** The lines that leave the files are those of keys migrated or kept, whatever their value; those of
      rejected keys, of skipped ones and of keys without a value stay. */
  lemma RemovedExactly(contents: seq<string>, slots: Slots, faults: Faults, skip: set<string>, key: string)
    ensures var plan := PlanFor(contents, slots, faults, skip);
            key in RemovedKeys(plan.decisions) <==>
              Decided(key, Migrated) in plan.decisions || Decided(key, KeptExisting) in plan.decisions
              || Decided(key, ConflictKeptExisting) in plan.decisions
  {
    hide PlanFor;
    var ds := PlanFor(contents, slots, faults, skip).decisions;
    RemovedMeansDecided(ds, key);
    assert forall o: Decision :: !Rejected(o) <==> o == Migrated || o == KeptExisting || o == ConflictKeptExisting;
  }
}
