/** The slice of ActiveModel's dirty tracking that the change rollup relies on:
    attributes with an original and a current value, per-save change-sets,
    and the mutation tracker whose `changes` are what `saved_changes` reports.
    Type casting is the identity here: a value assigned "from user" is stored
    as given. */
module Attributes {

  datatype Option<+T> = None | Some(value: T) {
    function GetOr(default: T): T {
      match this
      case Some(v) => v
      case None => default
    }
  }

  /** One attribute of a record: the value it had when last loaded or saved,
      and its current value. */
  datatype Attr<V> = Attr(original: V, value: V)

  /** A record's attributes by name. */
  type AttributeSet<V> = map<string, Attr<V>>

  /** `Attribute.from_user(name, v, type, a)`: a new current value, the
      original value carried over from `a`. */
  function FromUser<V>(a: Attr<V>, v: V): Attr<V>
  {
    Attr(a.original, v)
  }

  /** One entry of a save's change-set: attribute `name` went from `before`
      to `after`. */
  datatype Change<V> = Change(name: string, before: V, after: V)

  /** The changes of one save, in the order the change-set enumerates them. */
  type ChangeSet<V> = seq<Change<V>>

  /** `AttributeMutationTracker`: the attributes it watches and the names
      that `force_change` has marked as changed. */
  datatype Tracker<V> = Tracker(attributes: AttributeSet<V>, forced: set<string>)

  /** `changed?(name)`: a watched attribute is changed when it was forced or
      its current value differs from its original one. */
  predicate Changed<V(==)>(t: Tracker<V>, name: string)
  {
    name in t.attributes && (name in t.forced || t.attributes[name].original != t.attributes[name].value)
  }

  /** `force_change(name)`. */
  function ForceChange<V>(t: Tracker<V>, name: string): (r: Tracker<V>)
    ensures r.attributes == t.attributes
    ensures r.forced == t.forced + {name}
  {
    t.(forced := t.forced + {name})
  }

  /** `changes`: for every changed attribute, its original and current value.
      This is what `saved_changes`, `saved_change_to_x?` and
      `x_previous_change` read from the tracker of the last save. */
  function SavedChanges<V(==)>(t: Tracker<V>): (m: map<string, (V, V)>)
    ensures forall n :: n in m <==> Changed(t, n)
    ensures forall n :: n in m ==> n in t.attributes && m[n] == (t.attributes[n].original, t.attributes[n].value)
  {
    map n | n in t.attributes && Changed(t, n) :: (t.attributes[n].original, t.attributes[n].value)
  }
}
