/** The included-module version of the gem (lib/after_commit_changes.rb).
    `after_save` appends the save's change-set to the record's log;
    `before_commit` rolls a log of more than one change-set up into a single
    mutation tracker, folding every entry after the first onto a copy of the
    attributes captured when the transaction started, and force-marks every
    folded attribute as changed. */
module AfterCommitChanges {
  import opened Attributes
  import opened ChangeLog
  import opened Fold

  /** The part of a record the hooks read and write: its live attributes,
      the log of the transaction's change-sets (nil until the first save),
      and the tracker that `saved_changes` reads. */
  datatype Record<V> = Record(
    attributes: AttributeSet<V>,
    savedLog: Option<seq<ChangeSet<V>>>,
    mutationsBeforeLastSave: Tracker<V>)

  /** The logged change-sets, an absent log read as an empty one. */
  function Entries<V>(log: Option<seq<ChangeSet<V>>>): seq<ChangeSet<V>>
  {
    log.GetOr([])
  }

  /** The `after_save` hook: creates the log if absent and appends this
      save's `saved_changes` to it. */
  function AfterSave<V>(r: Record<V>, saved: ChangeSet<V>): (r': Record<V>)
    ensures r'.savedLog.Some?
    ensures |Entries(r'.savedLog)| == |Entries(r.savedLog)| + 1
    ensures Entries(r'.savedLog)[..|Entries(r.savedLog)|] == Entries(r.savedLog)
    ensures Entries(r'.savedLog)[|Entries(r.savedLog)|] == saved
    ensures r'.attributes == r.attributes && r'.mutationsBeforeLastSave == r.mutationsBeforeLastSave
  {
    r.(savedLog := Some(Entries(r.savedLog) + [saved]))
  }

  /** A run of saves, each followed by its `after_save` hook. */
  function AfterSaves<V>(r: Record<V>, saves: seq<ChangeSet<V>>): (r': Record<V>)
    ensures |saves| > 0 ==> r'.savedLog.Some?
    ensures Entries(r'.savedLog) == Entries(r.savedLog) + saves
    ensures r'.attributes == r.attributes && r'.mutationsBeforeLastSave == r.mutationsBeforeLastSave
    decreases |saves|
  {
    if |saves| == 0 then r
    else
      var next := AfterSave(r, saves[0]);
      assert Entries(next.savedLog) == Entries(r.savedLog) + [saves[0]];
      var r' := AfterSaves(next, saves[1..]);
      assert Entries(r.savedLog) + [saves[0]] + saves[1..] == Entries(r.savedLog) + saves;
      r'
  }

  /** One iteration of the inner loop: assign the change's `after` value, then
      `force_change` the attribute unless the tracker already reports it
      changed. */
  function FoldChange<V(==)>(t: Tracker<V>, c: Change<V>): (r: Tracker<V>)
    requires c.name in t.attributes
    ensures r.attributes == t.attributes[c.name := FromUser(t.attributes[c.name], c.after)]
    ensures Changed(r, c.name)
    ensures forall n :: n != c.name ==> (n in r.forced <==> n in t.forced)
  {
    var written := t.(attributes := t.attributes[c.name := FromUser(t.attributes[c.name], c.after)]);
    if Changed(written, c.name) then written else ForceChange(written, c.name)
  }

  /** Folding one change leaves the changed status of every other attribute
      as it was. */
  lemma FoldChangeOthers<V>(t: Tracker<V>, c: Change<V>, name: string)
    requires c.name in t.attributes
    ensures Changed(FoldChange(t, c), name) <==> Changed(t, name) || name == c.name
  {
  }

  /** The inner loop over one change-set: values as in the plain fold, and
      every attribute the change-set names ends up reported as changed. */
  function ApplyTracked<V(==)>(t: Tracker<V>, cs: ChangeSet<V>): (r: Tracker<V>)
    requires Readable(t.attributes, cs)
    ensures r.attributes == ApplyValues(t.attributes, cs)
    ensures forall n :: Changed(r, n) <==> Changed(t, n) || Touches(cs, n)
    decreases |cs|
  {
    if |cs| == 0 then t
    else
      var next := FoldChange(t, cs[0]);
      assert Readable(next.attributes, cs[1..]) by {
        forall i | 0 <= i < |cs[1..]| ensures cs[1..][i].name in next.attributes {
          assert cs[1..][i] == cs[i + 1];
        }
      }
      var r := ApplyTracked(next, cs[1..]);
      assert forall n :: Changed(r, n) <==> Changed(t, n) || Touches(cs, n) by {
        forall n ensures Changed(r, n) <==> Changed(t, n) || Touches(cs, n) {
          TouchesCons(cs, n);
          FoldChangeOthers(t, cs[0], n);
        }
      }
      r
  }

  /** The outer loop over the log entries. */
  function FoldTracked<V(==)>(t: Tracker<V>, entries: seq<ChangeSet<V>>): (r: Tracker<V>)
    requires ReadableLog(t.attributes, entries)
    ensures r.attributes == FoldValues(t.attributes, entries)
    ensures forall n :: Changed(r, n) <==> Changed(t, n) || Touches(Flatten(entries), n)
    decreases |entries|
  {
    if |entries| == 0 then t
    else
      assert Readable(t.attributes, entries[0]);
      var next := ApplyTracked(t, entries[0]);
      assert ReadableLog(next.attributes, entries[1..]) by {
        forall k, i | 0 <= k < |entries[1..]| && 0 <= i < |entries[1..][k]|
          ensures entries[1..][k][i].name in next.attributes
        {
          assert entries[1..][k] == entries[k + 1];
        }
      }
      var r := FoldTracked(next, entries[1..]);
      assert forall n :: Touches(Flatten(entries), n) <==> Touches(entries[0], n) || Touches(Flatten(entries[1..]), n) by {
        forall n ensures Touches(Flatten(entries), n) <==> Touches(entries[0], n) || Touches(Flatten(entries[1..]), n) {
          TouchesConcat(entries[0], Flatten(entries[1..]), n);
        }
      }
      r
  }

  /** The net change-set a transaction should report: every attribute that
      was already changed in the baseline or that a later save assigned,
      from its baseline original value to the value the last assignment left. */
  function NetChanges<V(==)>(start: AttributeSet<V>, later: seq<ChangeSet<V>>): map<string, (V, V)>
  {
    var cs := Flatten(later);
    map n | n in start && (start[n].original != start[n].value || Touches(cs, n)) :: (start[n].original, NetValue(start, cs, n))
  }

  /** The fold of `rollup_mutations_for_transaction!`: a tracker over a copy
      of the transaction-start attributes, with every entry after the first
      folded in. Its `changes` are exactly the net change-set. */
  function Rollup<V(==)>(start: AttributeSet<V>, log: seq<ChangeSet<V>>): (t: Tracker<V>)
    requires ReadableLog(start, Later(log))
    ensures t.attributes.Keys == start.Keys
    ensures SavedChanges(t) == NetChanges(start, Later(log))
  {
    var later := Later(log);
    var t := FoldTracked(Tracker(start, {}), later);
    FlattenReadable(start, later);
    var net := NetChanges(start, later);
    assert forall n :: n in SavedChanges(t) <==> n in net by {
      forall n ensures n in SavedChanges(t) <==> n in net {
        assert Touches(Flatten(later), n) ==> n in start;
      }
    }
    t
  }

  /** `rollup_mutations_for_transaction!`, run by `before_commit`, with
      `start` the attributes remembered when the transaction started. With
      at most one logged save nothing happens, not even a reset of the log;
      otherwise the net tracker replaces the last save's and the log is
      dropped. The live attributes are never touched. */
  function BeforeCommit<V(==)>(r: Record<V>, start: AttributeSet<V>): (r': Record<V>)
    requires |Entries(r.savedLog)| > 1 ==> ReadableLog(start, Later(Entries(r.savedLog)))
    ensures |Entries(r.savedLog)| <= 1 ==> r' == r
    ensures |Entries(r.savedLog)| > 1 ==>
      && r'.savedLog.None?
      && r'.attributes == r.attributes
      && SavedChanges(r'.mutationsBeforeLastSave) == NetChanges(start, Later(Entries(r.savedLog)))
  {
    if r.savedLog.None? || |r.savedLog.value| <= 1 then r
    else
      r.(savedLog := None, mutationsBeforeLastSave := Rollup(start, r.savedLog.value))
  }

  /** The first entry of the log is never read: any two logs that differ
      only there roll up to the same tracker. */
  lemma RollupIgnoresFirstEntry<V>(start: AttributeSet<V>, a: ChangeSet<V>, b: ChangeSet<V>, rest: seq<ChangeSet<V>>)
    requires ReadableLog(start, rest)
    ensures Later([a] + rest) == Later([b] + rest) == rest
    ensures Rollup(start, [a] + rest) == Rollup(start, [b] + rest)
  {
  }

  /** What the net change-set says about one attribute: it is present exactly
      when the baseline already had it changed or some later save assigned
      it, even if that assignment restored the original value; its `before`
      is the baseline original; its `after` is the value of the last change
      to assign it, in log order, or the baseline value if none did. */
  lemma {:induction false} NetChangesMeaning<V>(start: AttributeSet<V>, later: seq<ChangeSet<V>>, name: string)
    ensures name in NetChanges(start, later) <==>
      name in start && (start[name].original != start[name].value || exists k :: 0 <= k < |later| && Touches(later[k], name))
    ensures name in NetChanges(start, later) ==> NetChanges(start, later)[name].0 == start[name].original
    ensures name in NetChanges(start, later) && !Touches(Flatten(later), name) ==>
      NetChanges(start, later)[name].1 == start[name].value
    ensures name in NetChanges(start, later) && Touches(Flatten(later), name) ==>
      var cs := Flatten(later);
      exists i :: 0 <= i < |cs| && cs[i].name == name && cs[i].after == NetChanges(start, later)[name].1 &&
        forall j :: i < j < |cs| ==> cs[j].name != name
  {
    FlattenTouches(later, name);
  }

  /** A save that changed nothing at the end of the transaction does not hide
      the changes of the saves before it. */
  lemma {:induction false} TrailingNoOpSave<V>(start: AttributeSet<V>, log: seq<ChangeSet<V>>)
    ensures NetChanges(start, Later(log + [[]])) == NetChanges(start, Later(log))
  {
    if |log| == 0 {
      assert Later(log + [[]]) == [] == Later(log);
    } else {
      assert Later(log + [[]]) == Later(log) + [[]];
      FlattenEmptyTail(Later(log));
    }
  }

  /** A change-set whose effect the baseline already shows (each change's
      `after` is the baseline value, and the attribute is changed there)
      can be folded or skipped with the same net result. A first save that
      only assigns values meets this condition, and so skipping it loses
      nothing. A save that only forces an attribute (`name_will_change!`
      with the value kept) does not: the baseline shows that attribute
      unchanged, so whether it is reported depends on whether the save is
      entry 0 or sits behind an entry left over from an earlier transaction
      (see `Scenarios.ForcedFirstSaveLostOnFreshLog`). */
  lemma ReflectedEntryIsRedundant<V>(start: AttributeSet<V>, first: ChangeSet<V>, rest: seq<ChangeSet<V>>)
    requires forall i :: 0 <= i < |first| ==>
      && first[i].name in start
      && start[first[i].name].value == first[i].after
      && start[first[i].name].original != start[first[i].name].value
    ensures NetChanges(start, [first] + rest) == NetChanges(start, rest)
  {
    assert ([first] + rest)[1..] == rest;
    assert Flatten([first] + rest) == first + Flatten(rest);
    forall n | n in start
      ensures NetValue(start, first + Flatten(rest), n) == NetValue(start, Flatten(rest), n)
      ensures Touches(first + Flatten(rest), n) <==> Touches(first, n) || Touches(Flatten(rest), n)
    {
      LastAfterConcat(first, Flatten(rest), n);
      TouchesConcat(first, Flatten(rest), n);
    }
  }

  /** After a rollup the log is gone, so the next transaction's log holds
      its own saves and nothing else. */
  lemma NextTransactionStartsClean<V>(r: Record<V>, start: AttributeSet<V>, saves: seq<ChangeSet<V>>)
    requires |Entries(r.savedLog)| > 1
    requires ReadableLog(start, Later(Entries(r.savedLog)))
    ensures Entries(AfterSaves(BeforeCommit(r, start), saves).savedLog) == saves
  {
  }
}
