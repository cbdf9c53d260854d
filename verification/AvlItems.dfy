/**
 What a search tree stores: its items in order, what a search finds, and when the tree is a
 finite map.
 */
module AvlItems {
  import opened AvlShape

  /** What a search returns when there is nothing to return. */
  const NOTFOUND: int := 0xFFFF_FFFF

  ghost predicate Sorted(items: seq<Item>)
  {
    forall i, j :: 0 <= i < j < |items| ==> items[i].key <= items[j].key
  }

  /** No key occurs twice. */
  ghost predicate Strict(items: seq<Item>)
  {
    forall i, j :: 0 <= i < j < |items| ==> items[i].key < items[j].key
  }

  /** The value that a search down the tree comes to. */
  function Lookup(t: Tree, key: int): int
  {
    if t.Leaf? then NOTFOUND
    else if key == t.key then t.val
    else if key < t.key then Lookup(t.left, key)
    else Lookup(t.right, key)
  }

  ghost predicate HasKey(items: seq<Item>, key: int)
  {
    exists i :: 0 <= i < |items| && items[i].key == key
  }

  lemma SortedParts(t: Tree)
    requires t.Fork? && Sorted(InOrder(t))
    ensures Sorted(InOrder(t.left)) && Sorted(InOrder(t.right))
    ensures forall i :: 0 <= i < |InOrder(t.left)| ==> InOrder(t.left)[i].key <= t.key
    ensures forall i :: 0 <= i < |InOrder(t.right)| ==> t.key <= InOrder(t.right)[i].key
  {
    var l, x, r := InOrder(t.left), Item(t.key, t.val), InOrder(t.right);
    var s := l + [x] + r;
    assert s == InOrder(t);
    assert s[|l|] == x;
    forall i | 0 <= i < |l| ensures s[i] == l[i] {
    }
    forall i | 0 <= i < |r| ensures s[|l| + 1 + i] == r[i] {
    }
  }

  /** A search finds an item with the key if there is one, and only then. */
  lemma {:induction false} LookupFinds(t: Tree, key: int)
    requires Sorted(InOrder(t))
    ensures if HasKey(InOrder(t), key) then Item(key, Lookup(t, key)) in InOrder(t) else Lookup(t, key) == NOTFOUND
  {
    if t.Fork? {
      SortedParts(t);
      LookupFinds(t.left, key);
      LookupFinds(t.right, key);
      var l, x, r := InOrder(t.left), Item(t.key, t.val), InOrder(t.right);
      var s := InOrder(t);
      assert s[|l|] == x;
      if HasKey(s, key) && key != t.key {
        var i :| 0 <= i < |s| && s[i].key == key;
        assert i < |l| ==> l[i].key == key;
        assert i > |l| ==> r[i - |l| - 1].key == key;
      }
      if HasKey(l, key) {
        var i :| 0 <= i < |l| && l[i].key == key;
        assert s[i].key == key;
      }
      if HasKey(r, key) {
        var i :| 0 <= i < |r| && r[i].key == key;
        assert s[|l| + 1 + i].key == key;
      }
    }
  }

  // ---------------------------------------------------------------- as a finite map

  /** The items are the graph of `m`. */
  ghost predicate IsMap(items: seq<Item>, m: map<int, int>)
  {
    forall k, v :: Item(k, v) in items <==> k in m && m[k] == v
  }

  lemma KeyInMap(items: seq<Item>, m: map<int, int>, k: int)
    requires IsMap(items, m)
    ensures k in m <==> HasKey(items, k)
  {
    if HasKey(items, k) {
      var i :| 0 <= i < |items| && items[i].key == k;
      assert Item(k, items[i].val) in items;
    }
    if k in m {
      assert Item(k, m[k]) in items;
    }
  }

  /** When the tree is a map, a search is a lookup in it. */
  lemma LookupIsMap(t: Tree, key: int, m: map<int, int>)
    requires Sorted(InOrder(t)) && IsMap(InOrder(t), m)
    ensures Lookup(t, key) == if key in m then m[key] else NOTFOUND
  {
    LookupFinds(t, key);
    KeyInMap(InOrder(t), m, key);
  }

  function Inserted(items: seq<Item>, i: nat, x: Item): seq<Item>
    requires i <= |items|
  {
    items[..i] + [x] + items[i..]
  }

  function Removed(items: seq<Item>, i: nat): seq<Item>
    requires i < |items|
  {
    items[..i] + items[i + 1..]
  }

  lemma InsertedAt(items: seq<Item>, i: nat, x: Item)
    requires i <= |items|
    ensures var s := Inserted(items, i, x);
            |s| == |items| + 1 && s[i] == x && forall j :: 0 <= j < |s| && j != i ==> s[j] == items[if j < i then j else j - 1]
  {
  }

  lemma InsertedHas(items: seq<Item>, i: nat, x: Item, y: Item)
    requires i <= |items|
    ensures y in Inserted(items, i, x) <==> y in items || y == x
  {
    var s := Inserted(items, i, x);
    assert s[i] == x;
    if y in items {
      var j :| 0 <= j < |items| && items[j] == y;
      assert s[if j < i then j else j + 1] == y;
    }
  }

  /** Inserting an item in order keeps the tree a map exactly when the key was not there, and then
      the map is updated at the key. */
  lemma InsertedMap(items: seq<Item>, i: nat, x: Item, m: map<int, int>)
    requires Strict(items) && IsMap(items, m) && i <= |items| && Sorted(Inserted(items, i, x))
    ensures Strict(Inserted(items, i, x)) <==> x.key !in m
    ensures x.key !in m ==> IsMap(Inserted(items, i, x), m[x.key := x.val])
  {
    var s := Inserted(items, i, x);
    KeyInMap(items, m, x.key);
    InsertedStrict(items, i, x);
    if x.key !in m {
      forall k, v ensures Item(k, v) in s <==> k in m[x.key := x.val] && m[x.key := x.val][k] == v {
        InsertedHas(items, i, x, Item(k, v));
      }
    }
  }

  lemma InsertedStrict(items: seq<Item>, i: nat, x: Item)
    requires Strict(items) && i <= |items| && Sorted(Inserted(items, i, x))
    ensures Strict(Inserted(items, i, x)) <==> !HasKey(items, x.key)
  {
    var s := Inserted(items, i, x);
    InsertedAt(items, i, x);
    if HasKey(items, x.key) {
      var j :| 0 <= j < |items| && items[j].key == x.key;
      assert s[if j < i then j else j + 1].key == s[i].key;
    } else {
      forall j, k | 0 <= j < k < |s| ensures s[j].key < s[k].key {
        assert j != i ==> s[j] == items[if j < i then j else j - 1];
        assert k != i ==> s[k] == items[if k < i then k else k - 1];
      }
    }
  }

  lemma RemovedHas(items: seq<Item>, i: nat, y: Item)
    requires Strict(items) && i < |items|
    ensures y in Removed(items, i) <==> y in items && y.key != items[i].key
  {
    var s := Removed(items, i);
    if y in items && y.key != items[i].key {
      var j :| 0 <= j < |items| && items[j] == y;
      assert s[if j < i then j else j - 1] == y;
    }
    if y in s {
      var j :| 0 <= j < |s| && s[j] == y;
      assert items[if j < i then j else j + 1] == y;
    }
  }

  /** Removing an item removes its key from the map. */
  lemma RemovedMap(items: seq<Item>, i: nat, m: map<int, int>)
    requires Strict(items) && IsMap(items, m) && i < |items|
    ensures Strict(Removed(items, i)) && IsMap(Removed(items, i), m - {items[i].key})
  {
    var s := Removed(items, i);
    forall j, k | 0 <= j < k < |s| ensures s[j].key < s[k].key {
      assert s[j] == items[if j < i then j else j + 1] && s[k] == items[if k < i then k else k + 1];
    }
    forall k, v ensures Item(k, v) in s <==> k in m && k != items[i].key && m[k] == v {
      RemovedHas(items, i, Item(k, v));
    }
  }

  lemma RemovedSorted(items: seq<Item>, i: nat)
    requires Sorted(items) && i < |items|
    ensures Sorted(Removed(items, i))
  {
    var s := Removed(items, i);
    forall j, k | 0 <= j < k < |s| ensures s[j].key <= s[k].key {
      assert s[j] == items[if j < i then j else j + 1] && s[k] == items[if k < i then k else k + 1];
    }
  }

  lemma InsertedSorted(items: seq<Item>, i: nat, x: Item)
    requires Sorted(items) && i <= |items|
    requires forall j :: 0 <= j < i ==> items[j].key <= x.key
    requires forall j :: i <= j < |items| ==> x.key <= items[j].key
    ensures Sorted(Inserted(items, i, x))
  {
    var s := Inserted(items, i, x);
    InsertedAt(items, i, x);
    forall j, k | 0 <= j < k < |s| ensures s[j].key <= s[k].key {
      var j0, k0 := if j < i then j else j - 1, if k < i then k else k - 1;
      assert j != i ==> s[j] == items[j0];
      assert k != i ==> s[k] == items[k0];
    }
  }

  // ---------------------------------------------------------------- the tree as a dictionary

  /** `tree_insert` updates the map, or leaves it alone if the key has a value; the one exception
      is a key whose stored value is the sentinel, which is stored a second time. */
  lemma InsertIsUpdate(t: Tree, t': Tree, key: int, val: int, i: nat, m: map<int, int>)
    requires Strict(InOrder(t)) && Sorted(InOrder(t)) && IsMap(InOrder(t), m) && Sorted(InOrder(t'))
    requires Lookup(t, key) != NOTFOUND ==> t' == t
    requires Lookup(t, key) == NOTFOUND ==> i <= |InOrder(t)| && InOrder(t') == Inserted(InOrder(t), i, Item(key, val))
    ensures Strict(InOrder(t')) <==> !(key in m && m[key] == NOTFOUND)
    ensures Strict(InOrder(t')) ==> IsMap(InOrder(t'), if key in m then m else m[key := val])
  {
    LookupIsMap(t, key, m);
    if Lookup(t, key) == NOTFOUND {
      InsertedMap(InOrder(t), i, Item(key, val), m);
    }
  }

  /** `tree_delete` removes the key, unless its stored value is the sentinel. */
  lemma DeleteIsRemoval(t: Tree, t': Tree, key: int, i: nat, m: map<int, int>)
    requires Strict(InOrder(t)) && Sorted(InOrder(t)) && IsMap(InOrder(t), m)
    requires Lookup(t, key) == NOTFOUND ==> t' == t
    requires Lookup(t, key) != NOTFOUND ==>
               i < |InOrder(t)| && InOrder(t)[i].key == key && InOrder(t') == Removed(InOrder(t), i)
    ensures Strict(InOrder(t'))
    ensures IsMap(InOrder(t'), if key in m && m[key] != NOTFOUND then m - {key} else m)
  {
    LookupIsMap(t, key, m);
    if Lookup(t, key) != NOTFOUND {
      RemovedMap(InOrder(t), i, m);
    }
  }
}
