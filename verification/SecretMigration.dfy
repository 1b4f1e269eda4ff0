/**
 Migration of credential-shaped dotenv assignments into the secret store: what is decided for each
 key, what the store and the files become, and what holds at every point where the process may die.
 */
module SecretMigration {
  import opened Wrappers
  import opened Text
  import opened Dotenv

  // ---------------------------------------------------------------- the secret store

  /** A stored secret; an empty file is not a usable one. */
  datatype Slot = Readable(value: string) | Unreadable | EmptyFile

  type Slots = map<string, Slot>

  datatype Comparison = Missing | Equal | Different | CannotVerify | Threw

  /** Keys for which comparing or committing throws. */
  datatype Faults = Faults(compareThrows: set<string>, commitThrows: set<string>)

  function Compare(slots: Slots, faults: Faults, key: string, value: string): Comparison {
    if key in faults.compareThrows then Threw
    else if key !in slots || slots[key].EmptyFile? then Missing
    else if slots[key].Unreadable? then CannotVerify
    else if slots[key].value == value then Equal
    else Different
  }

  /** The store has something under that key that the migration will not overwrite. */
  predicate HoldsSecret(slots: Slots, key: string) {
    key in slots && slots[key].Readable?
  }

  class SecretStore {
    var slots: Slots
    const faults: Faults

    constructor (slots: Slots, faults: Faults)
      ensures this.slots == slots && this.faults == faults
    {
      this.slots, this.faults := slots, faults;
    }

    /** Durable once it returns true; a throw leaves the store as it was. */
    method Commit(key: string, value: string) returns (ok: bool)
      modifies this
      ensures ok <==> key !in faults.commitThrows
      ensures slots == if ok then old(slots)[key := Readable(value)] else old(slots)
    {
      ok := key !in faults.commitThrows;
      if ok { slots := slots[key := Readable(value)]; }
    }
  }

  // ---------------------------------------------------------------- one key

  datatype Decision = Migrated | KeptExisting | ConflictKeptExisting | RejectedConflict | RejectedUnsafe

  predicate Rejected(d: Decision) {
    d.RejectedConflict? || d.RejectedUnsafe?
  }

  /** Values assigned to a key, in order. */
  function ValuesOf(ls: seq<Line>, key: string): seq<string> {
    if ls == [] then []
    else
      var front, last := ValuesOf(ls[..|ls| - 1], key), ls[|ls| - 1];
      if last.Assignment? && last.key == key then front + [last.value] else front
  }

  /** Non-empty values without repetition, by first occurrence. */
  function Distinct(vs: seq<string>): (d: seq<string>)
    ensures forall v :: v in d <==> v in vs && v != ""
    ensures forall i, j :: 0 <= i < j < |d| ==> d[i] != d[j]
  {
    if vs == [] then []
    else
      var front, last := Distinct(vs[..|vs| - 1]), vs[|vs| - 1];
      assert vs == vs[..|vs| - 1] + [last];
      if last == "" || last in front then front else front + [last]
  }

  /** The decision matrix; None when there is no non-empty value and so nothing to migrate. */
  function Decide(slots: Slots, faults: Faults, key: string, values: seq<string>): Option<Decision> {
    if values == [] then None
    else
      match Compare(slots, faults, key, values[0])
      case Threw => Some(RejectedUnsafe)
      case CannotVerify => Some(RejectedUnsafe)
      case Missing =>
        if |values| > 1 then Some(RejectedConflict)
        else if key in faults.commitThrows then Some(RejectedUnsafe)
        else Some(Migrated)
      case Equal => Some(if |values| > 1 then ConflictKeptExisting else KeptExisting)
      case Different => Some(ConflictKeptExisting)
  }

  function DecisionFor(ls: seq<Line>, slots: Slots, faults: Faults, skip: set<string>, key: string): Option<Decision> {
    if key in skip then None else Decide(slots, faults, key, Distinct(ValuesOf(ls, key)))
  }

  // ---------------------------------------------------------------- the keys, sorted

  predicate Less(a: string, b: string) {
    if b == "" then false
    else if a == "" then true
    else a[0] < b[0] || (a[0] == b[0] && Less(a[1..], b[1..]))
  }

  lemma {:induction false} LessIsStrictOrder(a: string, b: string, c: string)
    ensures !Less(a, a)
    ensures Less(a, b) && Less(b, c) ==> Less(a, c)
    ensures a != b ==> Less(a, b) || Less(b, a)
    decreases |a|
  {
    if a != "" {
      LessIsStrictOrder(a[1..], if b == "" then "" else b[1..], if c == "" then "" else c[1..]);
      if b != "" && a[0] == b[0] && a[1..] == b[1..] {
        assert a == [a[0]] + a[1..] && b == [b[0]] + b[1..];
      }
    }
  }

  ghost predicate Sorted(ks: seq<string>) {
    forall i, j :: 0 <= i < j < |ks| ==> Less(ks[i], ks[j])
  }

  function Insert(ks: seq<string>, k: string): seq<string> {
    if ks == [] then [k]
    else if ks[0] == k then ks
    else if Less(k, ks[0]) then [k] + ks
    else [ks[0]] + Insert(ks[1..], k)
  }

  lemma {:induction false} InsertIsSorted(ks: seq<string>, k: string)
    requires Sorted(ks)
    ensures Sorted(Insert(ks, k)) && forall x :: x in Insert(ks, k) <==> x in ks || x == k
  {
    if ks == [] || ks[0] == k {
    } else if Less(k, ks[0]) {
      forall j | 0 <= j < |ks| ensures Less(k, ks[j]) { LessIsStrictOrder(k, ks[0], ks[j]); }
    } else {
      InsertIsSorted(ks[1..], k);
      var rest := Insert(ks[1..], k);
      forall j | 0 <= j < |rest| ensures Less(ks[0], rest[j]) {
        assert rest[j] in ks[1..] || rest[j] == k;
        if rest[j] == k { LessIsStrictOrder(ks[0], k, k); }
      }
      assert forall x :: x in ks <==> x == ks[0] || x in ks[1..];
    }
  }

  /** Credential names assigned in these lines, in sorted order. */
  function KeysOf(ls: seq<Line>): seq<string> {
    if ls == [] then []
    else
      var front, last := KeysOf(ls[..|ls| - 1]), ls[|ls| - 1];
      if last.Assignment? && IsSecretEnvName(last.key) then Insert(front, last.key) else front
  }

  predicate Assigns(l: Line, key: string) {
    l.Assignment? && l.key == key
  }

  lemma {:induction false} KeysOfAreSorted(ls: seq<Line>)
    ensures Sorted(KeysOf(ls))
    ensures forall k :: k in KeysOf(ls) <==> IsSecretEnvName(k) && exists i :: 0 <= i < |ls| && Assigns(ls[i], k)
  {
    if ls != [] {
      var prior, last := ls[..|ls| - 1], ls[|ls| - 1];
      KeysOfAreSorted(prior);
      if last.Assignment? { InsertIsSorted(KeysOf(prior), last.key); }
      forall k ensures k in KeysOf(ls) <==> IsSecretEnvName(k) && exists i :: 0 <= i < |ls| && Assigns(ls[i], k) {
        if exists i :: 0 <= i < |ls| && Assigns(ls[i], k) {
          var i :| 0 <= i < |ls| && Assigns(ls[i], k);
          if i < |prior| { assert Assigns(prior[i], k); }
        }
        if exists i :: 0 <= i < |prior| && Assigns(prior[i], k) {
          var i :| 0 <= i < |prior| && Assigns(prior[i], k);
          assert Assigns(ls[i], k);
        }
        if Assigns(last, k) { assert Assigns(ls[|ls| - 1], k); }
      }
    }
  }

  lemma HasAMember(ks: seq<string>)
    requires ks != []
    ensures exists k :: k in ks
  {
    assert ks[0] in ks;
  }

  /** A set of names has only one sorted listing. */
  lemma {:induction false} SortedIsUnique(a: seq<string>, b: seq<string>)
    requires Sorted(a) && Sorted(b) && forall k :: k in a <==> k in b
    ensures a == b
  {
    if a == [] {
      if b != [] {
        HasAMember(b);
        assert false;
      }
    } else {
      assert a[0] in b;
      assert b[0] in a;
      var i :| 0 <= i < |b| && b[i] == a[0];
      var j :| 0 <= j < |a| && a[j] == b[0];
      LessIsStrictOrder(a[0], b[0], a[0]);
      assert a[0] == b[0];
      forall k ensures k in a[1..] <==> k in b[1..] {
        LessIsStrictOrder(a[0], k, k);
        assert k in a <==> k == a[0] || k in a[1..];
        assert k in b <==> k == b[0] || k in b[1..];
      }
      SortedIsUnique(a[1..], b[1..]);
      assert a == [a[0]] + a[1..] && b == [b[0]] + b[1..];
    }
  }

  // ---------------------------------------------------------------- the whole plan

  datatype Decided = Decided(key: string, outcome: Decision)

  /** Decisions for a list of keys, each taken against the store as it was at the start. */
  function DecideAll(ls: seq<Line>, slots: Slots, faults: Faults, skip: set<string>, keys: seq<string>): seq<Decided> {
    if keys == [] then []
    else
      var front, k := DecideAll(ls, slots, faults, skip, keys[..|keys| - 1]), keys[|keys| - 1];
      var d := DecisionFor(ls, slots, faults, skip, k);
      if d.Some? then front + [Decided(k, d.value)] else front
  }

  /** The store after committing what was decided. */
  function Committed(ls: seq<Line>, slots: Slots, ds: seq<Decided>): Slots {
    if ds == [] then slots
    else
      var prior, d := Committed(ls, slots, ds[..|ds| - 1]), ds[|ds| - 1];
      if d.outcome.Migrated? && Distinct(ValuesOf(ls, d.key)) != []
      then prior[d.key := Readable(Distinct(ValuesOf(ls, d.key))[0])] else prior
  }

  /** Keys whose assignments leave the files. */
  function RemovedKeys(ds: seq<Decided>): set<string> {
    set d | d in ds && !Rejected(d.outcome) :: d.key
  }

  predicate Removable(l: Line, removed: set<string>) {
    l.Assignment? && l.key in removed
  }

  /** The lines that stay, in order. */
  function KeptLines(ls: seq<Line>, removed: set<string>): seq<Line> {
    if ls == [] then []
    else
      var front, last := KeptLines(ls[..|ls| - 1], removed), ls[|ls| - 1];
      if Removable(last, removed) then front else front + [last]
  }

  predicate Touched(content: string, removed: set<string>) {
    var ls := ParseAll(SplitLines(content));
    exists i :: 0 <= i < |ls| && Removable(ls[i], removed)
  }

  /** A file after the migration: untouched unless one of its lines is removed. */
  function Rewritten(content: string, removed: set<string>): string {
    if Touched(content, removed) then JoinLines(Raws(KeptLines(ParseAll(SplitLines(content)), removed))) else content
  }

  /** All lines of all files, in order. */
  function AllLines(contents: seq<string>): seq<Line> {
    if contents == [] then []
    else AllLines(contents[..|contents| - 1]) + ParseAll(SplitLines(contents[|contents| - 1]))
  }

  /** `files` are the rewritten ones only, by index. */
  datatype Plan = Plan(decisions: seq<Decided>, slots: Slots, files: map<nat, string>)

  function RewrittenFiles(contents: seq<string>, removed: set<string>): map<nat, string> {
    map i: nat | i < |contents| && Touched(contents[i], removed) :: Rewritten(contents[i], removed)
  }

  function PlanFor(contents: seq<string>, slots: Slots, faults: Faults, skip: set<string>): Plan {
    var ls := AllLines(contents);
    var ds := DecideAll(ls, slots, faults, skip, KeysOf(ls));
    Plan(ds, Committed(ls, slots, ds), RewrittenFiles(contents, RemovedKeys(ds)))
  }

  /** The files once the rewrites of `written` have reached the disk. */
  function FilesAfter(contents: seq<string>, files: map<nat, string>, written: set<nat>): (r: seq<string>)
    ensures |r| == |contents|
    ensures forall i :: 0 <= i < |r| ==> r[i] == if i in written && i in files then files[i] else contents[i]
  {
    seq(|contents|, i requires 0 <= i < |contents| => if i in written && i in files then files[i] else contents[i])
  }

  // ---------------------------------------------------------------- facts about decisions

  ghost predicate DistinctKeys(ds: seq<Decided>) {
    forall i, j :: 0 <= i < j < |ds| ==> ds[i].key != ds[j].key
  }

  lemma SortedHasNoRepeats(ks: seq<string>)
    requires Sorted(ks)
    ensures forall i, j :: 0 <= i < j < |ks| ==> ks[i] != ks[j]
  {
    forall i, j | 0 <= i < j < |ks| ensures ks[i] != ks[j] {
      LessIsStrictOrder(ks[i], ks[i], ks[i]);
    }
  }

  lemma {:induction false} DecideAllHolds(ls: seq<Line>, slots: Slots, faults: Faults, skip: set<string>, keys: seq<string>)
    requires forall i, j :: 0 <= i < j < |keys| ==> keys[i] != keys[j]
    ensures var ds := DecideAll(ls, slots, faults, skip, keys);
            && DistinctKeys(ds)
            && (forall k, o :: Decided(k, o) in ds <==> k in keys && DecisionFor(ls, slots, faults, skip, k) == Some(o))
  {
    if keys != [] {
      var prior, k := keys[..|keys| - 1], keys[|keys| - 1];
      DecideAllHolds(ls, slots, faults, skip, prior);
      assert keys == prior + [k];
      var front := DecideAll(ls, slots, faults, skip, prior);
      forall i | 0 <= i < |front| ensures front[i].key in prior {
        assert Decided(front[i].key, front[i].outcome) in front;
      }
    }
  }

  /** Committing changes the slots of migrated keys only, to the first value. */
  lemma {:induction false} CommittedAt(ls: seq<Line>, slots: Slots, ds: seq<Decided>, key: string)
    requires DistinctKeys(ds)
    ensures var after := Committed(ls, slots, ds);
            if Decided(key, Migrated) in ds && Distinct(ValuesOf(ls, key)) != []
            then key in after && after[key] == Readable(Distinct(ValuesOf(ls, key))[0])
            else (key in after <==> key in slots) && (key in slots ==> after[key] == slots[key])
  {
    if ds != [] {
      var prior, d := ds[..|ds| - 1], ds[|ds| - 1];
      CommittedAt(ls, slots, prior, key);
      assert ds == prior + [d];
      if d.key == key {
        assert forall o :: Decided(key, o) !in prior;
      }
    }
  }

  lemma PlanFacts(contents: seq<string>, slots: Slots, faults: Faults, skip: set<string>)
    ensures var ls := AllLines(contents);
            var ds := PlanFor(contents, slots, faults, skip).decisions;
            && DistinctKeys(ds)
            && (forall k, o :: Decided(k, o) in ds <==>
                  IsSecretEnvName(k) && DecisionFor(ls, slots, faults, skip, k) == Some(o))
  {
    var ls := AllLines(contents);
    KeysOfAreSorted(ls);
    SortedHasNoRepeats(KeysOf(ls));
    DecideAllHolds(ls, slots, faults, skip, KeysOf(ls));
    forall k, o | IsSecretEnvName(k) && DecisionFor(ls, slots, faults, skip, k) == Some(o) ensures k in KeysOf(ls) {
      ValuesComeFromAssignments(ls, k);
    }
  }

  lemma {:induction false} ValuesComeFromAssignments(ls: seq<Line>, key: string)
    ensures ValuesOf(ls, key) != [] <==> exists i :: 0 <= i < |ls| && Assigns(ls[i], key)
  {
    if ls != [] {
      var prior, last := ls[..|ls| - 1], ls[|ls| - 1];
      ValuesComeFromAssignments(prior, key);
      if Assigns(last, key) { assert Assigns(ls[|ls| - 1], key); }
      if exists i :: 0 <= i < |prior| && Assigns(prior[i], key) {
        var i :| 0 <= i < |prior| && Assigns(prior[i], key);
        assert Assigns(ls[i], key);
      }
      if exists i :: 0 <= i < |ls| && Assigns(ls[i], key) {
        var i :| 0 <= i < |ls| && Assigns(ls[i], key);
        if i < |prior| { assert Assigns(prior[i], key); }
      }
    }
  }

  lemma DecisionMeaning(slots: Slots, faults: Faults, key: string, values: seq<string>, o: Decision)
    requires Decide(slots, faults, key, values) == Some(o)
    requires forall i, j :: 0 <= i < j < |values| ==> values[i] != values[j]
    ensures values != []
    ensures o.Migrated? ==> |values| == 1 && !HoldsSecret(slots, key)
    ensures o.KeptExisting? ==> |values| == 1 && key in slots && slots[key] == Readable(values[0])
    ensures o.ConflictKeptExisting? ==> HoldsSecret(slots, key) && exists v :: v in values && slots[key] != Readable(v)
    ensures o.RejectedConflict? ==> |values| > 1 && !HoldsSecret(slots, key)
  {
    if o.ConflictKeptExisting? && slots[key] == Readable(values[0]) {
      assert values[1] in values && values[1] != values[0];
    }
  }

  /** What each decision means for the store, before and after. */
  lemma DecisionsMatchTheStore(contents: seq<string>, slots: Slots, faults: Faults, skip: set<string>, key: string, o: Decision)
    requires Decided(key, o) in PlanFor(contents, slots, faults, skip).decisions
    ensures var values := Distinct(ValuesOf(AllLines(contents), key));
            var after := PlanFor(contents, slots, faults, skip).slots;
            && key !in skip && values != []
            && (o.Migrated? ==> |values| == 1 && !HoldsSecret(slots, key) && key in after && after[key] == Readable(values[0]))
            && (o.KeptExisting? ==> |values| == 1 && key in slots && slots[key] == Readable(values[0]))
            && (o.ConflictKeptExisting? ==> HoldsSecret(slots, key) && exists v :: v in values && slots[key] != Readable(v))
            && (o.RejectedConflict? ==> |values| > 1 && !HoldsSecret(slots, key))
            && (!o.Migrated? ==> (key in after <==> key in slots) && (key in slots ==> after[key] == slots[key]))
  {
    hide Decide, Distinct, ValuesOf;
    PlanFacts(contents, slots, faults, skip);
    CommittedAt(AllLines(contents), slots, PlanFor(contents, slots, faults, skip).decisions, key);
    var values := Distinct(ValuesOf(AllLines(contents), key));
    assert DecisionFor(AllLines(contents), slots, faults, skip, key) == Some(o);
    DecisionMeaning(slots, faults, key, values, o);
  }

  /** The migration touches no slot of a key it did not decide to migrate. */
  lemma OtherSlotsUntouched(contents: seq<string>, slots: Slots, faults: Faults, skip: set<string>, key: string)
    requires Decided(key, Migrated) !in PlanFor(contents, slots, faults, skip).decisions
    ensures var after := PlanFor(contents, slots, faults, skip).slots;
            (key in after <==> key in slots) && (key in slots ==> after[key] == slots[key])
  {
    PlanFacts(contents, slots, faults, skip);
    CommittedAt(AllLines(contents), slots, PlanFor(contents, slots, faults, skip).decisions, key);
  }

  // ---------------------------------------------------------------- lossless rewriting

  lemma {:induction false} KeptIsMember(ls: seq<Line>, removed: set<string>, l: Line)
    ensures l in KeptLines(ls, removed) <==> l in ls && !Removable(l, removed)
  {
    if ls != [] {
      var front, last := ls[..|ls| - 1], ls[|ls| - 1];
      KeptIsMember(front, removed, l);
      assert l in ls <==> l in front || l == last by {
        assert ls == front + [last];
      }
    }
  }

  lemma {:induction false} KeptLength(ls: seq<Line>, removed: set<string>)
    ensures |KeptLines(ls, removed)| <= |ls|
    ensures |KeptLines(ls, removed)| == |ls| <==> forall i :: 0 <= i < |ls| ==> !Removable(ls[i], removed)
    ensures |KeptLines(ls, removed)| == |ls| ==> KeptLines(ls, removed) == ls
  {
    if ls != [] {
      var front, last := ls[..|ls| - 1], ls[|ls| - 1];
      KeptLength(front, removed);
      assert ls == front + [last];
      assert forall i :: 0 <= i < |front| ==> ls[i] == front[i];
    }
  }

  lemma KeptLinesAreKept(ls: seq<Line>, removed: set<string>)
    ensures var kept := KeptLines(ls, removed);
            && |kept| <= |ls|
            && (forall l :: l in kept <==> l in ls && !Removable(l, removed))
            && (kept == ls <==> forall i :: 0 <= i < |ls| ==> !Removable(ls[i], removed))
  {
    hide KeptLines, Removable;
    KeptLength(ls, removed);
    forall l ensures l in KeptLines(ls, removed) <==> l in ls && !Removable(l, removed) {
      KeptIsMember(ls, removed, l);
    }
  }

  /** Read back, a rewritten file is the original minus exactly the removed lines, in order; if no
      line is left, one empty line. */
  lemma RewrittenReadsBack(content: string, removed: set<string>)
    ensures var ls := ParseAll(SplitLines(content));
            ParseAll(SplitLines(Rewritten(content, removed))) ==
              if KeptLines(ls, removed) == [] then [Other("")] else KeptLines(ls, removed)
  {
    var raws := SplitLines(content);
    var ls := ParseAll(raws);
    var kept := KeptLines(ls, removed);
    KeptLinesAreKept(ls, removed);
    if !Touched(content, removed) {
      assert kept == ls;
    } else {
      SplitHasNoNewlines(content);
      forall i | 0 <= i < |kept| ensures '\n' !in kept[i].raw && ParseLine(kept[i].raw) == kept[i] {
        assert kept[i] in ls;
      }
      if kept == [] {
        assert SplitLines("") == [""];
        assert Raws(kept) == [];
        assert Trim("") == "";
        assert ParseAll([""])[0] == Other("");
      } else {
        SplitJoin(Raws(kept));
        assert ParseAll(Raws(kept)) == kept;
      }
    }
  }

  lemma {:induction false} ValuesOfConcat(a: seq<Line>, b: seq<Line>, key: string)
    ensures ValuesOf(a + b, key) == ValuesOf(a, key) + ValuesOf(b, key)
  {
    if b == [] {
      assert a + b == a;
    } else {
      assert (a + b)[..|a + b| - 1] == a + b[..|b| - 1];
      ValuesOfConcat(a, b[..|b| - 1], key);
    }
  }

  lemma {:induction false} ValuesOfKept(ls: seq<Line>, removed: set<string>, key: string)
    ensures ValuesOf(KeptLines(ls, removed), key) == if key in removed then [] else ValuesOf(ls, key)
  {
    if ls != [] {
      var front, last := ls[..|ls| - 1], ls[|ls| - 1];
      ValuesOfKept(front, removed, key);
      if !Removable(last, removed) {
        var kept := KeptLines(front, removed);
        assert (kept + [last])[..|kept|] == kept;
      }
    }
  }

  lemma ValuesOfRewritten(content: string, removed: set<string>, key: string)
    ensures ValuesOf(ParseAll(SplitLines(Rewritten(content, removed))), key)
            == if key in removed then [] else ValuesOf(ParseAll(SplitLines(content)), key)
  {
    var ls := ParseAll(SplitLines(content));
    RewrittenReadsBack(content, removed);
    ValuesOfKept(ls, removed, key);
    assert [Other("")][..0] == [];
    assert ValuesOf([Other("")], key) == [];
  }

  /** All files after all rewrites: the removed keys are gone, every other key keeps its values. */
  lemma {:induction false} ValuesAfterRewrites(contents: seq<string>, after: seq<string>, removed: set<string>, key: string)
    requires |after| == |contents| && forall i :: 0 <= i < |contents| ==> after[i] == Rewritten(contents[i], removed)
    ensures ValuesOf(AllLines(after), key) == if key in removed then [] else ValuesOf(AllLines(contents), key)
  {
    if contents != [] {
      var n := |contents| - 1;
      ValuesAfterRewrites(contents[..n], after[..n], removed, key);
      ValuesOfRewritten(contents[n], removed, key);
      ValuesOfConcat(AllLines(contents[..n]), ParseAll(SplitLines(contents[n])), key);
      ValuesOfConcat(AllLines(after[..n]), ParseAll(SplitLines(after[n])), key);
    }
  }

  // ---------------------------------------------------------------- crash safety

  /** Lines that assign a key. */
  function LinesOf(ls: seq<Line>, key: string): seq<Line> {
    if ls == [] then []
    else
      var front, last := LinesOf(ls[..|ls| - 1], key), ls[|ls| - 1];
      if Assigns(last, key) then front + [last] else front
  }

  lemma {:induction false} LinesOfKept(ls: seq<Line>, removed: set<string>, key: string)
    requires key !in removed
    ensures LinesOf(KeptLines(ls, removed), key) == LinesOf(ls, key)
  {
    if ls != [] {
      var front, last := ls[..|ls| - 1], ls[|ls| - 1];
      LinesOfKept(front, removed, key);
      if !Removable(last, removed) {
        var kept := KeptLines(front, removed);
        assert (kept + [last])[..|kept|] == kept;
      }
    }
  }

  lemma LinesOfRewritten(content: string, removed: set<string>, key: string)
    requires key !in removed
    ensures LinesOf(ParseAll(SplitLines(Rewritten(content, removed))), key) == LinesOf(ParseAll(SplitLines(content)), key)
  {
    RewrittenReadsBack(content, removed);
    LinesOfKept(ParseAll(SplitLines(content)), removed, key);
    assert [Other("")][..0] == [];
    assert LinesOf([Other("")], key) == [];
  }

  /** Every source line of the key is where it was. */
  ghost predicate AllLinesPresent(before: seq<string>, now: seq<string>, key: string) {
    |now| == |before| && forall i :: 0 <= i < |before| ==>
      LinesOf(ParseAll(SplitLines(now[i])), key) == LinesOf(ParseAll(SplitLines(before[i])), key)
  }

  /** Keys whose lines leave the files have a readable secret in the store by then. */
  lemma RemovedKeysAreStored(contents: seq<string>, slots: Slots, faults: Faults, skip: set<string>, key: string)
    requires key in RemovedKeys(PlanFor(contents, slots, faults, skip).decisions)
    ensures HoldsSecret(PlanFor(contents, slots, faults, skip).slots, key)
    ensures key !in skip && IsSecretEnvName(key)
  {
    var ds := PlanFor(contents, slots, faults, skip).decisions;
    var d :| d in ds && !Rejected(d.outcome) && d.key == key;
    assert Decided(key, d.outcome) in ds;
    DecisionsMatchTheStore(contents, slots, faults, skip, key, d.outcome);
    PlanFacts(contents, slots, faults, skip);
  }

  /** No credential is ever lost. The process may die after any number of decisions have been
      carried out and, once all have, after any of the rewrites: for every key, the store holds a
      secret or all its lines are still in the files. */
  lemma NeverLosesCredential(contents: seq<string>, slots: Slots, faults: Faults, skip: set<string>,
                             done: nat, written: set<nat>, key: string)
    requires var plan := PlanFor(contents, slots, faults, skip);
             done <= |plan.decisions| && (done < |plan.decisions| ==> written == {})
    ensures var plan := PlanFor(contents, slots, faults, skip);
            HoldsSecret(Committed(AllLines(contents), slots, plan.decisions[..done]), key)
            || AllLinesPresent(contents, FilesAfter(contents, plan.files, written), key)
  {
    var plan := PlanFor(contents, slots, faults, skip);
    var ds := plan.decisions;
    var now := FilesAfter(contents, plan.files, written);
    if done == |ds| {
      assert ds[..done] == ds;
      if key in RemovedKeys(ds) {
        RemovedKeysAreStored(contents, slots, faults, skip, key);
      } else {
        forall i | 0 <= i < |contents|
          ensures LinesOf(ParseAll(SplitLines(now[i])), key) == LinesOf(ParseAll(SplitLines(contents[i])), key)
        {
          LinesOfRewritten(contents[i], RemovedKeys(ds), key);
        }
      }
    }
  }

  // ---------------------------------------------------------------- running it again

  /** After a complete migration a second one commits nothing, rewrites nothing, and only repeats the
      rejections. */
  lemma SecondRunOnlyRepeatsRejections(contents: seq<string>, slots: Slots, faults: Faults, skip: set<string>, after: seq<string>)
    requires var plan := PlanFor(contents, slots, faults, skip);
             |after| == |contents| && forall i :: 0 <= i < |contents| ==> after[i] == Rewritten(contents[i], RemovedKeys(plan.decisions))
    ensures var plan := PlanFor(contents, slots, faults, skip);
            var again := PlanFor(after, plan.slots, faults, skip);
            && (forall d :: d in again.decisions <==> d in plan.decisions && Rejected(d.outcome))
            && again.slots == plan.slots && again.files == map[]
  {
    hide DecisionFor, Committed;
    var plan := PlanFor(contents, slots, faults, skip);
    var again := PlanFor(after, plan.slots, faults, skip);
    PlanFacts(contents, slots, faults, skip);
    PlanFacts(after, plan.slots, faults, skip);
    forall k, o ensures Decided(k, o) in again.decisions <==> Decided(k, o) in plan.decisions && Rejected(o) {
      if IsSecretEnvName(k) { KeyDecidedAgain(contents, slots, faults, skip, after, k, o); }
    }
    forall d ensures d in again.decisions <==> d in plan.decisions && Rejected(d.outcome) {
      assert d == Decided(d.key, d.outcome);
    }
    NothingMigratedNothingCommitted(AllLines(after), plan.slots, again.decisions);
    assert RemovedKeys(again.decisions) == {};
  }

  lemma RemovedMeansDecided(ds: seq<Decided>, key: string)
    ensures key in RemovedKeys(ds) <==> exists o :: Decided(key, o) in ds && !Rejected(o)
  {
    if key in RemovedKeys(ds) {
      var d :| d in ds && !Rejected(d.outcome) && d.key == key;
      assert Decided(key, d.outcome) in ds;
    }
  }

  /** A rejected key meets the same store and the same faults again. */
  lemma DecidedAgain(slots: Slots, slots': Slots, faults: Faults, key: string, values: seq<string>)
    requires (key in slots' <==> key in slots) && (key in slots ==> slots'[key] == slots[key])
    ensures Decide(slots', faults, key, values) == Decide(slots, faults, key, values)
  {
  }

  lemma KeyDecidedAgain(contents: seq<string>, slots: Slots, faults: Faults, skip: set<string>, after: seq<string>, key: string, o: Decision)
    requires var plan := PlanFor(contents, slots, faults, skip);
             |after| == |contents| && forall i :: 0 <= i < |contents| ==> after[i] == Rewritten(contents[i], RemovedKeys(plan.decisions))
    requires IsSecretEnvName(key)
    ensures var plan := PlanFor(contents, slots, faults, skip);
            DecisionFor(AllLines(after), plan.slots, faults, skip, key) == Some(o) <==>
              DecisionFor(AllLines(contents), slots, faults, skip, key) == Some(o) && Rejected(o)
  {
    hide PlanFor, Decide, RemovedKeys, Compare, Rewritten;
    var plan := PlanFor(contents, slots, faults, skip);
    var ds := plan.decisions;
    PlanFacts(contents, slots, faults, skip);
    RemovedMeansDecided(ds, key);
    ValuesAfterRewrites(contents, after, RemovedKeys(ds), key);
    NothingDecidedWithoutValues(plan.slots, faults, key);
    if Decided(key, Migrated) !in ds {
      OtherSlotsUntouched(contents, slots, faults, skip, key);
      DecidedAgain(slots, plan.slots, faults, key, Distinct(ValuesOf(AllLines(contents), key)));
    }
    var d := DecisionFor(AllLines(contents), slots, faults, skip, key);
    if d.Some? {
      assert Decided(key, d.value) in ds;
    }
  }

  lemma NothingDecidedWithoutValues(slots: Slots, faults: Faults, key: string)
    ensures Decide(slots, faults, key, []) == None && Distinct([]) == []
  {
  }

  lemma {:induction false} NothingMigratedNothingCommitted(ls: seq<Line>, slots: Slots, ds: seq<Decided>)
    requires forall d :: d in ds ==> !d.outcome.Migrated?
    ensures Committed(ls, slots, ds) == slots
  {
    if ds != [] {
      NothingMigratedNothingCommitted(ls, slots, ds[..|ds| - 1]);
    }
  }
}
