/** Keys of the rows of a table with an INTEGER PRIMARY KEY, as SQLite hands them out and lists them. */
module RowKeys {

  ghost function MaxOf(s: set<nat>): (m: nat)
    requires s != {}
    ensures m in s && forall k :: k in s ==> k <= m
  {
    var x :| x in s;
    if s == {x} then x
    else
      assert s == s - {x} + {x};
      var y := MaxOf(s - {x});
      if x < y then y else x
  }

  /** The key of a row inserted without one: the greatest key plus one. */
  ghost function FreshId(keys: set<nat>): (id: nat)
    ensures id > 0 && id !in keys && forall k :: k in keys ==> k < id
    ensures if keys == {} then id == 1 else id - 1 in keys
  {
    if keys == {} then 1 else MaxOf(keys) + 1
  }

  // A scan returns rows in the order of their keys
  ghost predicate Lists(ids: seq<nat>, keys: set<nat>) {
    && (forall i, j :: 0 <= i < j < |ids| ==> ids[i] < ids[j])
    && (forall k :: k in ids <==> k in keys)
  }

  method Greatest(keys: set<nat>) returns (m: nat)
    requires keys != {}
    ensures m == MaxOf(keys)
  {
    m :| m in keys;
    var rest := keys - {m};
    while rest != {}
      invariant rest <= keys && m in keys && forall k :: k in keys - rest ==> k <= m
      decreases rest
    {
      var k :| k in rest;
      ghost var seen := keys - rest;
      rest := rest - {k};
      assert keys - rest == seen + {k};
      if m < k {
        m := k;
      }
    }
    assert keys - rest == keys;
  }

  method FreshKey(keys: set<nat>) returns (id: nat)
    ensures id == FreshId(keys)
  {
    if keys == {} {
      return 1;
    }
    id := Greatest(keys);
    id := id + 1;
  }

  method Listed(keys: set<nat>) returns (ids: seq<nat>)
    ensures Lists(ids, keys)
  {
    ids := [];
    var rest := keys;
    while rest != {}
      invariant rest <= keys && Lists(ids, keys - rest)
      invariant forall k, i :: k in rest && 0 <= i < |ids| ==> k < ids[i]
      decreases rest
    {
      var m := Greatest(rest);
      ghost var seen := keys - rest;
      rest := rest - {m};
      assert keys - rest == seen + {m};
      ids := [m] + ids;
    }
    assert keys - rest == keys;
  }
}
