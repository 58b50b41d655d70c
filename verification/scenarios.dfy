/** The expected outputs of the gem's own examples, replayed through the
    hooks. Values are `Option<string>`, `None` standing for nil. A record is
    created with name "foo" and value "bar"; the create runs in its own
    transaction, so the included version's log still holds the create's
    change-set when the next transaction starts. The attributes remembered
    at the start of a transaction already carry the assignments of that
    transaction's first save. */
module Scenarios {
  import opened Attributes
  import opened ChangeLog
  import AfterCommitChanges
  import Dirty

  type Value = Option<string>

  function S(s: string): Value { Some(s) }

  function Ch(name: string, before: string, after: string): Change<Value>
  {
    Change(name, S(before), S(after))
  }

  /** The change-set of `create!(name: "foo", value: "bar")`. */
  function CreateChanges(): ChangeSet<Value>
  {
    [Change("id", None, S("1")), Change("name", None, S("foo")), Change("value", None, S("bar"))]
  }

  /** The attribute set a create leaves behind just before its changes are
      applied: the assigned name and value and the id the insert wrote
      into it. A baseline captured by reference on that save holds this. */
  function NewAttrs(): AttributeSet<Value>
  {
    map["id" := Attr(None, S("1")), "name" := Attr(None, S("foo")), "value" := Attr(None, S("bar"))]
  }

  /** Attributes with a saved id, `name` and `value` as given by their
      original and current values. */
  function Attrs(nameOrig: string, name: string, valueOrig: string, value: string): AttributeSet<Value>
  {
    map["id" := Attr(S("1"), S("1")), "name" := Attr(S(nameOrig), S(name)), "value" := Attr(S(valueOrig), S(value))]
  }

  lemma LastAfterOfOne(a: Change<Value>, name: string)
    ensures LastAfter([a], name) == if a.name == name then Some(a.after) else None
  {
    assert [a][1..] == [];
  }

  lemma LastAfterOfTwo(a: Change<Value>, b: Change<Value>, name: string)
    ensures LastAfter([a, b], name) ==
      if b.name == name then Some(b.after) else if a.name == name then Some(a.after) else None
  {
    assert [a, b][1..] == [b];
    LastAfterOfOne(b, name);
  }

  lemma LastAfterOfThree(a: Change<Value>, b: Change<Value>, c: Change<Value>, name: string)
    ensures LastAfter([a, b, c], name) ==
      if c.name == name then Some(c.after) else if b.name == name then Some(b.after)
      else if a.name == name then Some(a.after) else None
  {
    assert [a, b, c][1..] == [b, c];
    LastAfterOfTwo(b, c, name);
  }

  /** Two maps that agree on every key are equal. */
  lemma MapsAgree(a: map<string, (Value, Value)>, b: map<string, (Value, Value)>)
    requires forall n :: (n in a <==> n in b) && (n in a ==> a[n] == b[n])
    ensures a == b
  {
  }

  /** The included-version record right after the create committed: the
      create's change-set is still logged. */
  function Created(host: Tracker<Value>): AfterCommitChanges.Record<Value>
  {
    AfterCommitChanges.Record(Attrs("foo", "foo", "bar", "bar"), Some([CreateChanges()]), host)
  }

  /** The changes the included version reports after the create and the
      saves `later` of one more transaction that started from `start`. */
  function IncludedReport(host: Tracker<Value>, later: seq<ChangeSet<Value>>, start: AttributeSet<Value>): map<string, (Value, Value)>
    requires ReadableLog(start, later)
  {
    var saved := AfterCommitChanges.AfterSaves(Created(host), later);
    assert Later(AfterCommitChanges.Entries(saved.savedLog)) == later by {
      assert AfterCommitChanges.Entries(saved.savedLog) == [CreateChanges()] + later;
    }
    SavedChanges(AfterCommitChanges.BeforeCommit(saved, start).mutationsBeforeLastSave)
  }

  /** With at least one save after the create, the report is the net
      change-set of those saves. */
  lemma IncludedReportIsNet(host: Tracker<Value>, later: seq<ChangeSet<Value>>, start: AttributeSet<Value>)
    requires ReadableLog(start, later)
    requires |later| > 0
    ensures IncludedReport(host, later, start) == AfterCommitChanges.NetChanges(start, later)
  {
    var saved := AfterCommitChanges.AfterSaves(Created(host), later);
    assert AfterCommitChanges.Entries(saved.savedLog) == [CreateChanges()] + later;
  }

  // spec/after_commit_changes_spec.rb, "aggregates all changes in a transaction"

  function Aggregating(): seq<ChangeSet<Value>>
  {
    [[Ch("name", "foo", "baz")], [Ch("value", "bar", "biz")], [Ch("name", "baz", "fub")]]
  }

  lemma AggregatingAt(n: string)
    ensures var net := AfterCommitChanges.NetChanges(Attrs("foo", "baz", "bar", "bar"), Aggregating());
      && (n in net <==> n == "name" || n == "value")
      && (n == "name" ==> net[n] == (S("foo"), S("fub")))
      && (n == "value" ==> net[n] == (S("bar"), S("biz")))
  {
    assert Flatten(Aggregating()) == [Ch("name", "foo", "baz"), Ch("value", "bar", "biz"), Ch("name", "baz", "fub")];
    LastAfterOfThree(Ch("name", "foo", "baz"), Ch("value", "bar", "biz"), Ch("name", "baz", "fub"), n);
  }

  /** Updates name to "baz", value to "biz" and name to "fub" in one
      transaction: name went from "foo" to "fub", value from "bar" to "biz". */
  lemma AggregatingNet()
    ensures AfterCommitChanges.NetChanges(Attrs("foo", "baz", "bar", "bar"), Aggregating()) == map["name" := (S("foo"), S("fub")), "value" := (S("bar"), S("biz"))]
  {
    forall n { AggregatingAt(n); }
    MapsAgree(AfterCommitChanges.NetChanges(Attrs("foo", "baz", "bar", "bar"), Aggregating()), map["name" := (S("foo"), S("fub")), "value" := (S("bar"), S("biz"))]);
  }

  lemma AggregatesAllChanges(host: Tracker<Value>)
    ensures IncludedReport(host, Aggregating(), Attrs("foo", "baz", "bar", "bar")) == map["name" := (S("foo"), S("fub")), "value" := (S("bar"), S("biz"))]
  {
    IncludedReportIsNet(host, Aggregating(), Attrs("foo", "baz", "bar", "bar"));
    AggregatingNet();
  }

  // "aggregates all changes in a transaction even if the last one is a no op"

  function EndsWithNoOp(): seq<ChangeSet<Value>>
  {
    [[Ch("name", "foo", "baz")], []]
  }

  lemma EndsWithNoOpAt(n: string)
    ensures var net := AfterCommitChanges.NetChanges(Attrs("foo", "baz", "bar", "bar"), EndsWithNoOp());
      && (n in net <==> n == "name")
      && (n == "name" ==> net[n] == (S("foo"), S("baz")))
  {
    assert Flatten(EndsWithNoOp()) == [Ch("name", "foo", "baz")];
    LastAfterOfOne(Ch("name", "foo", "baz"), n);
  }

  /** Updates name to "baz", then saves with nothing changed: name is still
      reported from "foo" to "baz". */
  lemma EndsWithNoOpNet()
    ensures AfterCommitChanges.NetChanges(Attrs("foo", "baz", "bar", "bar"), EndsWithNoOp()) == map["name" := (S("foo"), S("baz"))]
  {
    forall n { EndsWithNoOpAt(n); }
    MapsAgree(AfterCommitChanges.NetChanges(Attrs("foo", "baz", "bar", "bar"), EndsWithNoOp()), map["name" := (S("foo"), S("baz"))]);
  }

  lemma NoOpLastSave(host: Tracker<Value>)
    ensures IncludedReport(host, EndsWithNoOp(), Attrs("foo", "baz", "bar", "bar")) == map["name" := (S("foo"), S("baz"))]
  {
    IncludedReportIsNet(host, EndsWithNoOp(), Attrs("foo", "baz", "bar", "bar"));
    EndsWithNoOpNet();
  }

  // "handles an attribute being set back to the original value as a change"

  function Reverting(): seq<ChangeSet<Value>>
  {
    [[Ch("name", "foo", "baz")], [Ch("value", "bar", "biz")], [Ch("name", "baz", "foo")]]
  }

  lemma RevertingAt(n: string)
    ensures var net := AfterCommitChanges.NetChanges(Attrs("foo", "baz", "bar", "bar"), Reverting());
      && (n in net <==> n == "name" || n == "value")
      && (n == "name" ==> net[n] == (S("foo"), S("foo")))
      && (n == "value" ==> net[n] == (S("bar"), S("biz")))
  {
    assert Flatten(Reverting()) == [Ch("name", "foo", "baz"), Ch("value", "bar", "biz"), Ch("name", "baz", "foo")];
    LastAfterOfThree(Ch("name", "foo", "baz"), Ch("value", "bar", "biz"), Ch("name", "baz", "foo"), n);
  }

  /** Updates name to "baz", value to "biz", then name back to "foo": name
      is still reported, from "foo" to "foo". */
  lemma RevertingNet()
    ensures AfterCommitChanges.NetChanges(Attrs("foo", "baz", "bar", "bar"), Reverting()) == map["name" := (S("foo"), S("foo")), "value" := (S("bar"), S("biz"))]
  {
    forall n { RevertingAt(n); }
    MapsAgree(AfterCommitChanges.NetChanges(Attrs("foo", "baz", "bar", "bar"), Reverting()), map["name" := (S("foo"), S("foo")), "value" := (S("bar"), S("biz"))]);
  }

  lemma RevertedValueStillChanged(host: Tracker<Value>)
    ensures IncludedReport(host, Reverting(), Attrs("foo", "baz", "bar", "bar")) == map["name" := (S("foo"), S("foo")), "value" := (S("bar"), S("biz"))]
  {
    IncludedReportIsNet(host, Reverting(), Attrs("foo", "baz", "bar", "bar"));
    RevertingNet();
  }

  // "handles calling will_change to force an attribute to be marked as changed"

  function ForcingName(): seq<ChangeSet<Value>>
  {
    [[Ch("value", "bar", "biz")], [Ch("name", "foo", "foo")]]
  }

  lemma ForcingNameAt(n: string)
    ensures var net := AfterCommitChanges.NetChanges(Attrs("foo", "foo", "bar", "biz"), ForcingName());
      && (n in net <==> n == "name" || n == "value")
      && (n == "name" ==> net[n] == (S("foo"), S("foo")))
      && (n == "value" ==> net[n] == (S("bar"), S("biz")))
  {
    assert Flatten(ForcingName()) == [Ch("value", "bar", "biz"), Ch("name", "foo", "foo")];
    LastAfterOfTwo(Ch("value", "bar", "biz"), Ch("name", "foo", "foo"), n);
  }

  /** Updates value to "biz", then `name_will_change!` and a save whose
      change-set names `name` with its value unchanged: name is reported
      from "foo" to "foo". */
  lemma ForcingNameNet()
    ensures AfterCommitChanges.NetChanges(Attrs("foo", "foo", "bar", "biz"), ForcingName()) == map["name" := (S("foo"), S("foo")), "value" := (S("bar"), S("biz"))]
  {
    forall n { ForcingNameAt(n); }
    MapsAgree(AfterCommitChanges.NetChanges(Attrs("foo", "foo", "bar", "biz"), ForcingName()), map["name" := (S("foo"), S("foo")), "value" := (S("bar"), S("biz"))]);
  }

  lemma WillChangeIsReported(host: Tracker<Value>)
    ensures IncludedReport(host, ForcingName(), Attrs("foo", "foo", "bar", "biz")) == map["name" := (S("foo"), S("foo")), "value" := (S("bar"), S("biz"))]
  {
    IncludedReportIsNet(host, ForcingName(), Attrs("foo", "foo", "bar", "biz"));
    ForcingNameNet();
  }

  // "clears changes between transactions"

  /** After the aggregating transaction, a transaction whose single save
      sets name from "fub" to "foo" logs that change-set alone and leaves
      that save's own tracker in place. */
  lemma SingleSaveAfterRollup(host: Tracker<Value>, next: Tracker<Value>)
    ensures
      var saved := AfterCommitChanges.AfterSaves(Created(host), Aggregating());
      var done := AfterCommitChanges.BeforeCommit(saved, Attrs("foo", "baz", "bar", "bar"));
      var again := AfterCommitChanges.AfterSave(done.(mutationsBeforeLastSave := next), [Ch("name", "fub", "foo")]);
      && AfterCommitChanges.Entries(again.savedLog) == [[Ch("name", "fub", "foo")]]
      && AfterCommitChanges.BeforeCommit(again, Attrs("fub", "foo", "biz", "biz")) == again
  {
    var saved := AfterCommitChanges.AfterSaves(Created(host), Aggregating());
    assert AfterCommitChanges.Entries(saved.savedLog) == [CreateChanges()] + Aggregating();
  }

  // A transaction whose first save only forces name (`name_will_change!`),
  // followed by a save of value. The remembered attributes show name as
  // unchanged, because forcing is recorded in the tracker, not in them.

  function ForcedFirst(): seq<ChangeSet<Value>>
  {
    [[Ch("name", "foo", "foo")], [Ch("value", "bar", "biz")]]
  }

  /** The changes the included version reports for a record whose log is
      absent when the transaction starts (no earlier transaction left an
      entry behind), after the saves `log` of one transaction from `start`. */
  function FreshReport(host: Tracker<Value>, log: seq<ChangeSet<Value>>, start: AttributeSet<Value>): map<string, (Value, Value)>
    requires ReadableLog(start, Later(log))
  {
    var saved := AfterCommitChanges.AfterSaves(AfterCommitChanges.Record(start, None, host), log);
    assert AfterCommitChanges.Entries(saved.savedLog) == log;
    SavedChanges(AfterCommitChanges.BeforeCommit(saved, start).mutationsBeforeLastSave)
  }

  lemma ForcedFirstFreshAt(n: string)
    ensures var net := AfterCommitChanges.NetChanges(Attrs("foo", "foo", "bar", "bar"), Later(ForcedFirst()));
      && (n in net <==> n == "value")
      && (n == "value" ==> net[n] == (S("bar"), S("biz")))
  {
    assert Later(ForcedFirst()) == [[Ch("value", "bar", "biz")]];
    assert Flatten(Later(ForcedFirst())) == [Ch("value", "bar", "biz")];
    LastAfterOfOne(Ch("value", "bar", "biz"), n);
  }

  /** With no entry left over from an earlier transaction, the forced first
      save is entry 0, which the rollup skips: name is not reported. */
  lemma ForcedFirstSaveLostOnFreshLog(host: Tracker<Value>)
    ensures "name" !in FreshReport(host, ForcedFirst(), Attrs("foo", "foo", "bar", "bar"))
    ensures FreshReport(host, ForcedFirst(), Attrs("foo", "foo", "bar", "bar")) == map["value" := (S("bar"), S("biz"))]
  {
    var saved := AfterCommitChanges.AfterSaves(AfterCommitChanges.Record(Attrs("foo", "foo", "bar", "bar"), None, host), ForcedFirst());
    assert AfterCommitChanges.Entries(saved.savedLog) == ForcedFirst();
    forall n { ForcedFirstFreshAt(n); }
    MapsAgree(AfterCommitChanges.NetChanges(Attrs("foo", "foo", "bar", "bar"), Later(ForcedFirst())), map["value" := (S("bar"), S("biz"))]);
  }

  lemma ForcedFirstStaleAt(n: string)
    ensures var net := AfterCommitChanges.NetChanges(Attrs("foo", "foo", "bar", "bar"), ForcedFirst());
      && (n in net <==> n == "name" || n == "value")
      && (n == "name" ==> net[n] == (S("foo"), S("foo")))
      && (n == "value" ==> net[n] == (S("bar"), S("biz")))
  {
    assert Flatten(ForcedFirst()) == [Ch("name", "foo", "foo"), Ch("value", "bar", "biz")];
    LastAfterOfTwo(Ch("name", "foo", "foo"), Ch("value", "bar", "biz"), n);
  }

  /** The same transaction after the create committed alone: the create's
      entry is still logged and takes the place of entry 0, so the forced
      save is folded and name is reported from "foo" to "foo". */
  lemma ForcedFirstStaleNet()
    ensures AfterCommitChanges.NetChanges(Attrs("foo", "foo", "bar", "bar"), ForcedFirst())
      == map["name" := (S("foo"), S("foo")), "value" := (S("bar"), S("biz"))]
  {
    forall n { ForcedFirstStaleAt(n); }
    MapsAgree(AfterCommitChanges.NetChanges(Attrs("foo", "foo", "bar", "bar"), ForcedFirst()),
      map["name" := (S("foo"), S("foo")), "value" := (S("bar"), S("biz"))]);
  }

  lemma ForcedFirstSaveKeptBehindStaleEntry(host: Tracker<Value>)
    ensures IncludedReport(host, ForcedFirst(), Attrs("foo", "foo", "bar", "bar"))
      == map["name" := (S("foo"), S("foo")), "value" := (S("bar"), S("biz"))]
  {
    IncludedReportIsNet(host, ForcedFirst(), Attrs("foo", "foo", "bar", "bar"));
    ForcedFirstStaleNet();
  }

  // The prepended version on "aggregates all changes in a transaction".

  /** The saves of the aggregating transaction, each with the live
      attributes its `before_save` sees. */
  function DirtyUpdates(): seq<Dirty.Save<Value>>
  {
    [ Dirty.Save(Attrs("foo", "baz", "bar", "bar"), [Ch("name", "foo", "baz")]),
      Dirty.Save(Attrs("baz", "baz", "bar", "biz"), [Ch("value", "bar", "biz")]),
      Dirty.Save(Attrs("baz", "fub", "biz", "biz"), [Ch("name", "baz", "fub")]) ]
  }

  /** A new record whose create committed on its own. */
  function DirtyCreated(host: Tracker<Value>): Dirty.Record<Value>
  {
    Dirty.BeforeCommit(Dirty.RunSaves(Dirty.Initialize(map[], host), [Dirty.Save(NewAttrs(), CreateChanges())]))
  }

  lemma DirtyAggregatingAt(n: string)
    ensures var net := Dirty.NetChanges(Attrs("foo", "baz", "bar", "bar"), Dirty.ChangeSetsOf(DirtyUpdates()[1..]));
      && (n in net <==> n == "name" || n == "value")
      && (n == "name" ==> net[n] == (S("foo"), S("fub")))
      && (n == "value" ==> net[n] == (S("bar"), S("biz")))
  {
    assert Dirty.ChangeSetsOf(DirtyUpdates()[1..]) == [[Ch("value", "bar", "biz")], [Ch("name", "baz", "fub")]];
    assert Flatten(Dirty.ChangeSetsOf(DirtyUpdates()[1..])) == [Ch("value", "bar", "biz"), Ch("name", "baz", "fub")];
    LastAfterOfTwo(Ch("value", "bar", "biz"), Ch("name", "baz", "fub"), n);
  }

  lemma DirtyAggregatingNet()
    ensures Dirty.NetChanges(Attrs("foo", "baz", "bar", "bar"), Dirty.ChangeSetsOf(DirtyUpdates()[1..]))
      == map["name" := (S("foo"), S("fub")), "value" := (S("bar"), S("biz"))]
  {
    forall n { DirtyAggregatingAt(n); }
    MapsAgree(Dirty.NetChanges(Attrs("foo", "baz", "bar", "bar"), Dirty.ChangeSetsOf(DirtyUpdates()[1..])),
      map["name" := (S("foo"), S("fub")), "value" := (S("bar"), S("biz"))]);
  }

  /** From a new record whose create committed alone, one transaction
      updates name to "baz", value to "biz" and name to "fub": the record
      ends idle, reporting name from "foo" to "fub" and value from "bar" to
      "biz". */
  lemma DirtyAggregatesAllChanges(host: Tracker<Value>)
    ensures
      var r := Dirty.BeforeCommit(Dirty.RunSaves(DirtyCreated(host), DirtyUpdates()));
      && Dirty.Idle(r)
      && SavedChanges(r.mutationsBeforeLastSave) == map["name" := (S("foo"), S("fub")), "value" := (S("bar"), S("biz"))]
  {
    assert Dirty.Idle(DirtyCreated(host));
    Dirty.TransactionUsesFirstBaseline(DirtyCreated(host), DirtyUpdates());
    DirtyAggregatingNet();
  }

  // The prepended version on "handles an attribute being set back to the
  // original value as a change".

  /** Under the `original != value` reading of "changed", the prepended
      version does not report an attribute whose later save restored its
      baseline original: name went "foo" to "baz" in the first save and back
      to "foo" in the second, and only the baseline and the second save are
      read. */
  lemma DirtyRestoredNotReported()
    ensures "name" !in Dirty.NetChanges(Attrs("foo", "baz", "bar", "bar"), [[Ch("name", "baz", "foo")]])
  {
    assert Flatten([[Ch("name", "baz", "foo")]]) == [Ch("name", "baz", "foo")];
    LastAfterOfOne(Ch("name", "baz", "foo"), "name");
  }

  // "tracks all changes on a new record": create! then update!(name: "baz")
  // in one transaction.

  /** What both versions report for that transaction: every attribute from
      nil to its final value, the id included. */
  function NewRecordReport(): map<string, (Value, Value)>
  {
    map["id" := (None, S("1")), "name" := (None, S("baz")), "value" := (None, S("bar"))]
  }

  lemma NewRecordAt(n: string)
    ensures var net := AfterCommitChanges.NetChanges(NewAttrs(), [[Ch("name", "foo", "baz")]]);
      && (n in net <==> n == "id" || n == "name" || n == "value")
      && (n in net ==> net[n] == NewRecordReport()[n])
    ensures var net := Dirty.NetChanges(NewAttrs(), [[Ch("name", "foo", "baz")]]);
      && (n in net <==> n == "id" || n == "name" || n == "value")
      && (n in net ==> net[n] == NewRecordReport()[n])
  {
    assert Flatten([[Ch("name", "foo", "baz")]]) == [Ch("name", "foo", "baz")];
    LastAfterOfOne(Ch("name", "foo", "baz"), n);
  }

  lemma NewRecordNet()
    ensures AfterCommitChanges.NetChanges(NewAttrs(), [[Ch("name", "foo", "baz")]]) == NewRecordReport()
    ensures Dirty.NetChanges(NewAttrs(), [[Ch("name", "foo", "baz")]]) == NewRecordReport()
  {
    forall n { NewRecordAt(n); }
    MapsAgree(AfterCommitChanges.NetChanges(NewAttrs(), [[Ch("name", "foo", "baz")]]), NewRecordReport());
    MapsAgree(Dirty.NetChanges(NewAttrs(), [[Ch("name", "foo", "baz")]]), NewRecordReport());
  }

  /** The included version, from a record with no log: the baseline is the
      set the create left behind, so the id is reported. */
  lemma NewRecordTracked(host: Tracker<Value>)
    ensures FreshReport(host, [CreateChanges(), [Ch("name", "foo", "baz")]], NewAttrs()) == NewRecordReport()
  {
    var log := [CreateChanges(), [Ch("name", "foo", "baz")]];
    var saved := AfterCommitChanges.AfterSaves(AfterCommitChanges.Record(NewAttrs(), None, host), log);
    assert AfterCommitChanges.Entries(saved.savedLog) == log;
    assert Later(log) == [[Ch("name", "foo", "baz")]];
    NewRecordNet();
  }

  /** The saves of that transaction in the prepended version. The create's
      attributes are those its baseline reference holds at commit time. */
  function NewThenUpdate(): seq<Dirty.Save<Value>>
  {
    [ Dirty.Save(NewAttrs(), CreateChanges()),
      Dirty.Save(Attrs("foo", "baz", "bar", "bar"), [Ch("name", "foo", "baz")]) ]
  }

  /** The prepended version, from a new record: the record ends idle and
      the id is reported from nil, with name and value. */
  lemma DirtyNewRecordTracked(host: Tracker<Value>)
    ensures
      var r := Dirty.BeforeCommit(Dirty.RunSaves(Dirty.Initialize(map[], host), NewThenUpdate()));
      && Dirty.Idle(r)
      && SavedChanges(r.mutationsBeforeLastSave) == NewRecordReport()
  {
    assert Dirty.ChangeSetsOf(NewThenUpdate()[1..]) == [[Ch("name", "foo", "baz")]];
    Dirty.TransactionUsesFirstBaseline(Dirty.Initialize(map[], host), NewThenUpdate());
    NewRecordNet();
  }
}
