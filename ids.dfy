/**
 Integer primary keys. The tables declare `id` as an INTEGER PRIMARY KEY
 without AUTOINCREMENT, so SQLite gives a new row the largest id in the
 table plus one, and 1 in an empty table.
 */
module Ids {

  lemma {:induction false} LargestOf(s: set<nat>) returns (m: nat)
    requires s != {}
    ensures m in s && forall k :: k in s ==> k <= m
  {
    var x :| x in s;
    var rest := s - {x};
    if rest == {} {
      assert s == {x};
      m := x;
    } else {
      var r := LargestOf(rest);
      m := if x <= r then r else x;
      forall k | k in s
        ensures k <= m
      {
        if k != x {
          assert k in rest;
        }
      }
    }
  }

  lemma {:induction false} SmallestOf(s: set<nat>) returns (m: nat)
    requires s != {}
    ensures m in s && forall k :: k in s ==> m <= k
  {
    var x :| x in s;
    var rest := s - {x};
    if rest == {} {
      assert s == {x};
      m := x;
    } else {
      var r := SmallestOf(rest);
      m := if r <= x then r else x;
      forall k | k in s
        ensures m <= k
      {
        if k != x {
          assert k in rest;
        }
      }
    }
  }

  lemma MaxExists(s: set<nat>)
    requires s != {}
    ensures exists m :: m in s && forall k :: k in s ==> k <= m
  {
    var m := LargestOf(s);
  }

  lemma MinExists(s: set<nat>)
    requires s != {}
    ensures exists m :: m in s && forall k :: k in s ==> m <= k
  {
    var m := SmallestOf(s);
  }

  /** The largest id of a non-empty table. */
  function MaxKey(s: set<nat>): (m: nat)
    requires s != {}
    ensures m in s && forall k :: k in s ==> k <= m
  {
    MaxExists(s);
    var m :| m in s && forall k :: k in s ==> k <= m; m
  }

  /** The smallest id of a non-empty table. */
  function MinKey(s: set<nat>): (m: nat)
    requires s != {}
    ensures m in s && forall k :: k in s ==> m <= k
  {
    MinExists(s);
    var m :| m in s && forall k :: k in s ==> m <= k; m
  }

  /** The id SQLite assigns to the next inserted row. */
  function NextId(s: set<nat>): (r: nat)
    ensures r !in s && 1 <= r
    ensures forall k :: k in s ==> k < r
    ensures s != {} ==> r - 1 in s
  {
    if s == {} then 1 else MaxKey(s) + 1
  }
}
