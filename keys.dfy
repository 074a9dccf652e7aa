/** Primary keys of the `employee` table: the largest key, the keys in ascending
    order (the order a full scan of an SQLite rowid table yields) and the key the
    store gives the next inserted row. */
module Keys {

  /** Strictly ascending, hence without repetitions. */
  predicate Ascending(s: seq<int>) {
    forall i, j :: 0 <= i < j < |s| ==> s[i] < s[j]
  }

  /** Helper for MaxExists, not a property of the store: a set that is not empty has
      an element. */
  lemma HasElement(s: set<int>)
    requires s != {}
    ensures exists x :: x in s
  {
    if forall x :: x !in s {
      assert false;
    }
  }

  lemma {:induction false} MaxExists(s: set<int>)
    requires s != {}
    ensures exists m :: m in s && forall x :: x in s ==> x <= m
    decreases |s|
  {
    HasElement(s);
    var y :| y in s;
    var rest := s - {y};
    if s == {y} {
      assert forall x :: x in s ==> x <= y;
    } else {
      assert rest != {};
      MaxExists(rest);
      var m :| m in rest && forall x :: x in rest ==> x <= m;
      var big := if y <= m then m else y;
      forall x | x in s ensures x <= big {
        if x != y { assert x in rest; }
      }
      assert big in s;
    }
  }

  /** The largest element of a non-empty set of keys. */
  ghost function MaxOf(s: set<int>): (m: int)
    requires s != {}
    ensures m in s
    ensures forall x :: x in s ==> x <= m
  {
    MaxExists(s);
    var m :| m in s && forall x :: x in s ==> x <= m;
    m
  }

  /** The elements of `s`, each once, in ascending order. */
  ghost function SortedKeys(s: set<int>): (r: seq<int>)
    ensures |r| == |s|
    ensures forall k :: k in r <==> k in s
    ensures Ascending(r)
    decreases |s|
  {
    if s == {} then []
    else
      var m := MaxOf(s);
      SortedKeys(s - {m}) + [m]
  }

  /** The id SQLite gives a row inserted into a table whose INTEGER PRIMARY KEY has
      no AUTOINCREMENT: one more than the largest id in use, or 1 for an empty table. */
  ghost function NextId(keys: set<int>): (id: int)
    ensures id !in keys
    ensures forall k :: k in keys ==> k < id
    ensures keys == {} ==> id == 1
    ensures keys != {} ==> id - 1 in keys
  {
    if keys == {} then 1 else MaxOf(keys) + 1
  }
}
