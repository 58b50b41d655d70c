/** The prepended version of the gem (lib/after_commit_changes/dirty.rb).
    `initialize` starts a record with an empty log and no baseline;
    `before_save` captures the live attributes once per transaction;
    `after_save` appends the save's change-set; `before_commit` installs a
    rolled-up tracker when more than one save was logged and then always
    clears the log and the baseline. Its rollup has no force-change step:
    the tracker it builds reports an attribute as changed only when the
    attribute's value differs from its original. */
module Dirty {
  import opened Attributes
  import opened ChangeLog
  import opened Fold

  /** The part of a record the hooks read and write: its live attributes,
      the transaction's change-sets, the attributes captured at the first
      `before_save`, and the tracker that `saved_changes` reads. */
  datatype Record<V> = Record(
    attributes: AttributeSet<V>,
    savedLog: seq<ChangeSet<V>>,
    originalAttributes: Option<AttributeSet<V>>,
    mutationsBeforeLastSave: Tracker<V>)

  /** No transaction in progress: nothing logged and no baseline held. */
  predicate Idle<V>(r: Record<V>)
  {
    r.savedLog == [] && r.originalAttributes.None?
  }

  /** `initialize`: a new record with the given attributes and tracker,
      an empty log and no baseline. */
  function Initialize<V>(attributes: AttributeSet<V>, mutations: Tracker<V>): (r: Record<V>)
    ensures Idle(r)
    ensures r.attributes == attributes && r.mutationsBeforeLastSave == mutations
  {
    Record(attributes, [], None, mutations)
  }

  /** The `before_save` hook (`||=`): the first save of a transaction
      captures the live attribute set; later saves keep what was captured.
      The capture is a reference, so `r.attributes` here stands for that set
      as the save leaves it (see `Save`). */
  function BeforeSave<V>(r: Record<V>): (r': Record<V>)
    ensures r.originalAttributes.Some? ==> r' == r
    ensures r.originalAttributes.None? ==> r'.originalAttributes == Some(r.attributes)
    ensures r'.savedLog == r.savedLog && r'.attributes == r.attributes
    ensures r'.mutationsBeforeLastSave == r.mutationsBeforeLastSave
  {
    if r.originalAttributes.Some? then r else r.(originalAttributes := Some(r.attributes))
  }

  /** The `after_save` hook: appends this save's `saved_changes`. */
  function AfterSave<V>(r: Record<V>, saved: ChangeSet<V>): (r': Record<V>)
    ensures |r'.savedLog| == |r.savedLog| + 1
    ensures r'.savedLog[..|r.savedLog|] == r.savedLog
    ensures r'.savedLog[|r.savedLog|] == saved
    ensures r'.originalAttributes == r.originalAttributes && r'.attributes == r.attributes
    ensures r'.mutationsBeforeLastSave == r.mutationsBeforeLastSave
  {
    r.(savedLog := r.savedLog + [saved])
  }

  /** One save as the hooks observe it. `before_save` keeps a reference to
      the live attribute set, not a copy, so what a baseline taken on this
      save holds is that set as it stands when the save finishes, before
      its changes are applied: the save's assignments and anything the save
      itself writes, such as a new id. `attributes` is that set;
      `changes` is the change-set `after_save` then reads. */
  datatype Save<V> = Save(attributes: AttributeSet<V>, changes: ChangeSet<V>)

  /** The change-sets of a run of saves, in save order. */
  function ChangeSetsOf<V>(saves: seq<Save<V>>): (log: seq<ChangeSet<V>>)
    ensures |log| == |saves|
    ensures forall k :: 0 <= k < |saves| ==> log[k] == saves[k].changes
  {
    seq(|saves|, k requires 0 <= k < |saves| => saves[k].changes)
  }

  /** A run of saves, each one bracketed by its `before_save` and
      `after_save` hooks: the log grows by the saves' change-sets in save
      order, and only the first save of a transaction sets the baseline. */
  function RunSaves<V>(r: Record<V>, saves: seq<Save<V>>): (r': Record<V>)
    ensures r'.savedLog == r.savedLog + ChangeSetsOf(saves)
    ensures r.originalAttributes.Some? ==> r'.originalAttributes == r.originalAttributes
    ensures r.originalAttributes.None? && |saves| > 0 ==> r'.originalAttributes == Some(saves[0].attributes)
    ensures r'.mutationsBeforeLastSave == r.mutationsBeforeLastSave
    decreases |saves|
  {
    if |saves| == 0 then r
    else
      var next := AfterSave(BeforeSave(r.(attributes := saves[0].attributes)), saves[0].changes);
      var r' := RunSaves(next, saves[1..]);
      assert ChangeSetsOf(saves) == [saves[0].changes] + ChangeSetsOf(saves[1..]);
      assert next.savedLog == r.savedLog + [saves[0].changes];
      r'
  }

  /** The net change-set this version reports: every attribute whose value
      after the last assignment differs from its baseline original, from
      that original to that value. */
  function NetChanges<V(==)>(base: AttributeSet<V>, later: seq<ChangeSet<V>>): map<string, (V, V)>
  {
    var cs := Flatten(later);
    map n | n in base && base[n].original != NetValue(base, cs, n) :: (base[n].original, NetValue(base, cs, n))
  }

  /** `rollup_mutations_for_transaction`: a fresh tracker over a copy of the
      baseline with every entry after the first folded in. Nothing is
      forced; an attribute the fold leaves alone keeps its baseline state. */
  function Rollup<V(==)>(base: AttributeSet<V>, log: seq<ChangeSet<V>>): (t: Tracker<V>)
    requires ReadableLog(base, Later(log))
    ensures t.forced == {}
    ensures t.attributes.Keys == base.Keys
    ensures forall n :: n in base && !Touches(Flatten(Later(log)), n) ==> t.attributes[n] == base[n]
    ensures SavedChanges(t) == NetChanges(base, Later(log))
  {
    var t := Tracker(FoldValues(base, Later(log)), {});
    var net := NetChanges(base, Later(log));
    assert forall n :: n in SavedChanges(t) <==> n in net;
    assert forall n :: n in base && !Touches(Flatten(Later(log)), n) ==> t.attributes[n] == base[n];
    t
  }

  /** The `before_commit` hook: with more than one logged save the rolled-up
      tracker replaces the last save's; in every case the log and the
      baseline are cleared, and the live attributes are left alone. */
  function BeforeCommit<V(==)>(r: Record<V>): (r': Record<V>)
    requires |r.savedLog| > 1 ==> r.originalAttributes.Some? && ReadableLog(r.originalAttributes.value, Later(r.savedLog))
    ensures Idle(r')
    ensures r'.attributes == r.attributes
    ensures |r.savedLog| <= 1 ==> r'.mutationsBeforeLastSave == r.mutationsBeforeLastSave
    ensures |r.savedLog| > 1 ==>
      SavedChanges(r'.mutationsBeforeLastSave) == NetChanges(r.originalAttributes.value, Later(r.savedLog))
  {
    var mutations :=
      if |r.savedLog| > 1 then Rollup(r.originalAttributes.value, r.savedLog)
      else r.mutationsBeforeLastSave;
    r.(savedLog := [], originalAttributes := None, mutationsBeforeLastSave := mutations)
  }

  /** A whole transaction from an idle record: the baseline the rollup folds
      onto is the live attributes at the first save, never those of a later
      save; with more than one save the reported changes are the net changes
      of the later saves over that baseline, and the record is idle again. */
  lemma TransactionUsesFirstBaseline<V>(r: Record<V>, saves: seq<Save<V>>)
    requires Idle(r)
    requires |saves| > 1
    requires forall k, i :: 1 <= k < |saves| && 0 <= i < |saves[k].changes| ==>
      saves[k].changes[i].name in saves[0].attributes
    ensures
      var done := RunSaves(r, saves);
      && done.originalAttributes == Some(saves[0].attributes)
      && done.savedLog == ChangeSetsOf(saves)
      && ReadableLog(saves[0].attributes, Later(done.savedLog))
      && var after := BeforeCommit(done);
      && Idle(after)
      && SavedChanges(after.mutationsBeforeLastSave) == NetChanges(saves[0].attributes, ChangeSetsOf(saves[1..]))
  {
    var done := RunSaves(r, saves);
    assert done.savedLog == ChangeSetsOf(saves);
    assert Later(done.savedLog) == ChangeSetsOf(saves[1..]);
  }

  /** Along the hook order a record never holds logged saves without a
      baseline, so `before_commit` can always read one when it rolls up. */
  lemma SavesKeepBaseline<V>(r: Record<V>, saves: seq<Save<V>>)
    requires |r.savedLog| > 0 ==> r.originalAttributes.Some?
    ensures var r' := RunSaves(r, saves); |r'.savedLog| > 0 ==> r'.originalAttributes.Some?
  {
  }

  /** The net change-set over a given baseline: an attribute is present
      exactly when its final value differs from its baseline original; its
      `before` is that original; its `after` is the value of the last change
      to assign it, in log order, or the baseline value when none did. */
  lemma {:induction false} NetChangesMeaning<V>(base: AttributeSet<V>, later: seq<ChangeSet<V>>, name: string)
    ensures name in NetChanges(base, later) <==> name in base && base[name].original != NetValue(base, Flatten(later), name)
    ensures name in NetChanges(base, later) ==> NetChanges(base, later)[name].0 == base[name].original
    ensures name in NetChanges(base, later) && !(exists k :: 0 <= k < |later| && Touches(later[k], name)) ==>
      NetChanges(base, later)[name].1 == base[name].value
    ensures name in NetChanges(base, later) && Touches(Flatten(later), name) ==>
      var cs := Flatten(later);
      exists i :: 0 <= i < |cs| && cs[i].name == name && cs[i].after == NetChanges(base, later)[name].1 &&
        forall j :: i < j < |cs| ==> cs[j].name != name
  {
    FlattenTouches(later, name);
  }
}
