/** The value part of a rollup, shared by both versions: every change of
    every log entry after the first re-assigns its attribute, in log order,
    on a copy of the baseline attributes. */
module Fold {
  import opened Attributes
  import opened ChangeLog

  /** One pass of the inner loop over a change-set: each change sets its
      attribute's current value to the change's `after`, keeping the
      attribute's original value. */
  function ApplyValues<V>(attrs: AttributeSet<V>, cs: ChangeSet<V>): (r: AttributeSet<V>)
    requires Readable(attrs, cs)
    ensures r.Keys == attrs.Keys
    ensures forall n :: n in r ==> r[n].original == attrs[n].original
    ensures forall n :: n in r ==> r[n].value == NetValue(attrs, cs, n)
  {
    if |cs| == 0 then attrs
    else
      var c := cs[0];
      var next := attrs[c.name := FromUser(attrs[c.name], c.after)];
      assert Readable(next, cs[1..]) by {
        forall i | 0 <= i < |cs[1..]| ensures cs[1..][i].name in next {
          assert cs[1..][i] == cs[i + 1];
        }
      }
      ApplyValues(next, cs[1..])
  }

  /** The outer loop: the change-sets of `entries`, one after another. */
  function FoldValues<V>(attrs: AttributeSet<V>, entries: seq<ChangeSet<V>>): (r: AttributeSet<V>)
    requires ReadableLog(attrs, entries)
    ensures r.Keys == attrs.Keys
    ensures forall n :: n in r ==> r[n].original == attrs[n].original
    ensures forall n :: n in r ==> r[n].value == NetValue(attrs, Flatten(entries), n)
  {
    if |entries| == 0 then attrs
    else
      assert Readable(attrs, entries[0]);
      var next := ApplyValues(attrs, entries[0]);
      assert ReadableLog(next, entries[1..]) by {
        forall k, i | 0 <= k < |entries[1..]| && 0 <= i < |entries[1..][k]|
          ensures entries[1..][k][i].name in next
        {
          assert entries[1..][k] == entries[k + 1];
        }
      }
      var r := FoldValues(next, entries[1..]);
      assert forall n :: n in r ==> r[n].value == NetValue(attrs, Flatten(entries), n) by {
        forall n | n in r ensures r[n].value == NetValue(attrs, Flatten(entries), n) {
          LastAfterConcat(entries[0], Flatten(entries[1..]), n);
        }
      }
      r
  }
}
