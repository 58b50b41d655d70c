/** Reference definitions over a transaction's change log: which attributes a
    sequence of changes touches, and which value the last of them assigns.
    These say what the rollups compute without saying how they compute it. */
module ChangeLog {
  import opened Attributes

  /** Some change in `cs` assigns attribute `name`. */
  predicate Touches<V>(cs: ChangeSet<V>, name: string)
  {
    exists i :: 0 <= i < |cs| && cs[i].name == name
  }

  /** Every change in `cs` names an attribute of `attrs`, so that looking the
      attribute up (and reading its type) succeeds. */
  predicate Readable<V>(attrs: AttributeSet<V>, cs: ChangeSet<V>)
  {
    forall i :: 0 <= i < |cs| ==> cs[i].name in attrs
  }

  /** Every change of every entry of `entries` names an attribute of `attrs`. */
  predicate ReadableLog<V>(attrs: AttributeSet<V>, entries: seq<ChangeSet<V>>)
  {
    forall k, i :: 0 <= k < |entries| && 0 <= i < |entries[k]| ==> entries[k][i].name in attrs
  }

  /** All changes of a log, entry after entry, each entry in its own order:
      the order in which the nested loops of a rollup visit them. */
  function Flatten<V>(entries: seq<ChangeSet<V>>): ChangeSet<V>
  {
    if |entries| == 0 then [] else entries[0] + Flatten(entries[1..])
  }

  /** Ruby's `log[1, log.length]`: every entry but the first. Ruby gives
      nil for an empty log; this model returns [] there, a case no rollup
      reaches. */
  function Later<V>(log: seq<ChangeSet<V>>): (later: seq<ChangeSet<V>>)
    ensures |log| > 0 ==> |later| == |log| - 1 && forall k :: 0 <= k < |later| ==> later[k] == log[k + 1]
    ensures |log| == 0 ==> later == []
  {
    if |log| == 0 then [] else log[1..]
  }

  /** The value that the last change of `cs` to touch `name` assigns, or
      None when no change touches it. */
  function LastAfter<V>(cs: ChangeSet<V>, name: string): (r: Option<V>)
    ensures r.None? <==> !Touches(cs, name)
    ensures r.Some? ==>
      exists i :: 0 <= i < |cs| && cs[i].name == name && cs[i].after == r.value &&
        forall j :: i < j < |cs| ==> cs[j].name != name
  {
    if |cs| == 0 then None
    else
      match LastAfter(cs[1..], name)
      case Some(v) =>
        assert forall j :: 0 <= j < |cs[1..]| ==> cs[1..][j] == cs[j + 1];
        Some(v)
      case None =>
        assert forall j :: 1 <= j < |cs| ==> cs[j] == cs[1..][j - 1];
        if cs[0].name == name then Some(cs[0].after) else None
  }

  /** The value attribute `name` of `base` holds once every change of `cs`
      has been applied: the last assignment wins, an untouched attribute
      keeps its value. */
  function NetValue<V>(base: AttributeSet<V>, cs: ChangeSet<V>, name: string): V
    requires name in base
  {
    LastAfter(cs, name).GetOr(base[name].value)
  }

  lemma TouchesConcat<V>(a: ChangeSet<V>, b: ChangeSet<V>, name: string)
    ensures Touches(a + b, name) <==> Touches(a, name) || Touches(b, name)
  {
    if Touches(a + b, name) {
      var i :| 0 <= i < |a + b| && (a + b)[i].name == name;
      if i >= |a| {
        assert b[i - |a|].name == name;
      }
    }
    if Touches(a, name) {
      var i :| 0 <= i < |a| && a[i].name == name;
      assert (a + b)[i].name == name;
    }
    if Touches(b, name) {
      var i :| 0 <= i < |b| && b[i].name == name;
      assert (a + b)[|a| + i].name == name;
    }
  }

  /** A non-empty change-set touches a name through its first change or
      through the rest. */
  lemma TouchesCons<V>(cs: ChangeSet<V>, name: string)
    requires |cs| > 0
    ensures Touches(cs, name) <==> cs[0].name == name || Touches(cs[1..], name)
  {
    if Touches(cs[1..], name) {
      var i :| 0 <= i < |cs[1..]| && cs[1..][i].name == name;
      assert cs[i + 1].name == name;
    }
    if Touches(cs, name) && cs[0].name != name {
      var i :| 0 <= i < |cs| && cs[i].name == name;
      assert cs[1..][i - 1].name == name;
    }
  }

  /** In a concatenation the later part's last assignment wins; the earlier
      part only matters for names the later part leaves alone. */
  lemma {:induction false} LastAfterConcat<V>(a: ChangeSet<V>, b: ChangeSet<V>, name: string)
    ensures LastAfter(a + b, name) == if LastAfter(b, name).Some? then LastAfter(b, name) else LastAfter(a, name)
  {
    if |a| == 0 {
      assert a + b == b;
    } else {
      assert (a + b)[1..] == a[1..] + b;
      LastAfterConcat(a[1..], b, name);
    }
  }

  /** A name is touched by a flattened log exactly when some entry touches it. */
  lemma {:induction false} FlattenTouches<V>(entries: seq<ChangeSet<V>>, name: string)
    ensures Touches(Flatten(entries), name) <==> exists k :: 0 <= k < |entries| && Touches(entries[k], name)
  {
    if |entries| > 0 {
      TouchesConcat(entries[0], Flatten(entries[1..]), name);
      FlattenTouches(entries[1..], name);
      if Touches(Flatten(entries[1..]), name) {
        var k :| 0 <= k < |entries[1..]| && Touches(entries[1..][k], name);
        assert Touches(entries[k + 1], name);
      }
      if exists k :: 0 <= k < |entries| && Touches(entries[k], name) {
        var k :| 0 <= k < |entries| && Touches(entries[k], name);
        if k > 0 {
          assert Touches(entries[1..][k - 1], name);
        }
      }
    }
  }

  /** A log whose entries are all readable flattens to readable changes. */
  lemma {:induction false} FlattenReadable<V>(attrs: AttributeSet<V>, entries: seq<ChangeSet<V>>)
    requires ReadableLog(attrs, entries)
    ensures Readable(attrs, Flatten(entries))
  {
    if |entries| > 0 {
      assert ReadableLog(attrs, entries[1..]) by {
        forall k, i | 0 <= k < |entries[1..]| && 0 <= i < |entries[1..][k]|
          ensures entries[1..][k][i].name in attrs
        {
          assert entries[1..][k] == entries[k + 1];
        }
      }
      FlattenReadable(attrs, entries[1..]);
      var rest := Flatten(entries[1..]);
      forall i | 0 <= i < |entries[0] + rest|
        ensures (entries[0] + rest)[i].name in attrs
      {
        if i >= |entries[0]| {
          assert (entries[0] + rest)[i] == rest[i - |entries[0]|];
        }
      }
    }
  }

  /** Appending a save that changed nothing leaves the flattened log as it was. */
  lemma {:induction false} FlattenEmptyTail<V>(entries: seq<ChangeSet<V>>)
    ensures Flatten(entries + [[]]) == Flatten(entries)
  {
    if |entries| == 0 {
      assert Flatten(entries + [[]]) == [] + Flatten([]);
    } else {
      assert (entries + [[]])[1..] == entries[1..] + [[]];
      FlattenEmptyTail(entries[1..]);
    }
  }
}
