/**
 * The trie of trie.hpp as a value: a node holds a value (the sentinel `empty`,
 * standing for `Value()`, when no key ends there) and a map from the next
 * symbol to the child node.  A tree pointer that may be null is an
 * `Option<Node>`.  `insert` and `lookup` are stated here as recursive
 * functions over the key; the in-place loops of the source are refined
 * against them in TrieArena.
 */
module TrieModel {
  import opened Wrappers

  datatype Node<C, V> = Node(value: V, children: map<C, Node<C, V>>)

  /** A node as the default constructor `Trie()` builds it. */
  function Leaf<C, V>(empty: V): Node<C, V> {
    Node(empty, map[])
  }

  /** The child under symbol `c`, or None: `children.find(c) == children.end()`. */
  function Child<C, V>(n: Node<C, V>, c: C): Option<Node<C, V>> {
    if c in n.children then Some(n.children[c]) else None
  }

  /** The node reached from `t` by following `path`, if every symbol has a child. */
  function Subtree<C, V>(t: Option<Node<C, V>>, path: seq<C>): Option<Node<C, V>>
    decreases |path|
  {
    match t
    case None => None
    case Some(n) => if path == [] then t else Subtree(Child(n, path[0]), path[1..])
  }

  /**
   * `insert(t, key, value)`: a null tree gets a fresh root, every missing node
   * on the key's path is created with the sentinel, and the node at the end of
   * the path receives `v`.  The result is the (never null) root.
   */
  function Insert<C, V>(t: Option<Node<C, V>>, key: seq<C>, v: V, empty: V): (r: Node<C, V>)
    ensures t.Some? ==> t.value.children.Keys <= r.children.Keys
    ensures r.value == if key == [] then v else if t.Some? then t.value.value else empty
    ensures key != [] ==> key[0] in r.children
    decreases |key|
  {
    var n := if t.Some? then t.value else Leaf(empty);
    if key == [] then Node(v, n.children)
    else Node(n.value, n.children[key[0] := Insert(Child(n, key[0]), key[1..], v, empty)])
  }

  /**
   * `lookup(t, key)`: the sentinel for a null tree or a symbol without a
   * child, otherwise the value of the node at the end of the path.
   */
  function Lookup<C, V>(t: Option<Node<C, V>>, key: seq<C>, empty: V): (r: V)
    ensures Subtree(t, key).None? ==> r == empty
    ensures Subtree(t, key).Some? ==> r == Subtree(t, key).value.value
    decreases |key|
  {
    match t
    case None => empty
    case Some(n) => if key == [] then n.value else Lookup(Child(n, key[0]), key[1..], empty)
  }

  /** `insert_key(t, key)`: the fold step, which stores the sentinel, not the key. */
  function InsertKey<C, V>(t: Option<Node<C, V>>, key: seq<C>, empty: V): (r: Node<C, V>)
    ensures Subtree(Some(r), key).Some? && Lookup(Some(r), key, empty) == empty
  {
    InsertPaths(t, key, empty, key, empty);
    InsertLookupSame(t, key, empty, empty);
    Insert(t, key, empty, empty)
  }

  /** The left fold of `insert_key` over `keys`, as `std::accumulate` performs it. */
  function InsertKeys<C, V>(t: Option<Node<C, V>>, keys: seq<seq<C>>, empty: V): (r: Option<Node<C, V>>)
    ensures r.None? <==> t.None? && keys == []
    decreases |keys|
  {
    if keys == [] then t
    else Some(InsertKey(InsertKeys(t, keys[..|keys| - 1], empty), keys[|keys| - 1], empty))
  }

  /** The loop `t = insert(t, keys[i], vals[i])` over paired keys and values. */
  function InsertPairs<C, V>(t: Option<Node<C, V>>, keys: seq<seq<C>>, vals: seq<V>, empty: V): (r: Option<Node<C, V>>)
    requires |keys| == |vals|
    ensures r.None? <==> t.None? && keys == []
    decreases |keys|
  {
    if keys == [] then t
    else
      var k := |keys| - 1;
      Some(Insert(InsertPairs(t, keys[..k], vals[..k], empty), keys[k], vals[k], empty))
  }

  /** Inserting the first i + 1 pairs is inserting the first i and then pair i. */
  lemma InsertPairsPrefix<C, V>(t: Option<Node<C, V>>, keys: seq<seq<C>>, vals: seq<V>, i: nat, empty: V)
    requires |keys| == |vals| && i < |keys|
    ensures InsertPairs(t, keys[..i + 1], vals[..i + 1], empty) ==
            Some(Insert(InsertPairs(t, keys[..i], vals[..i], empty), keys[i], vals[i], empty))
  {
    assert keys[..i + 1][..i] == keys[..i] && vals[..i + 1][..i] == vals[..i];
  }

  // ---------------------------------------------------------------------------
  // Paths and lookups

  /** Following `s` and then `r` is following `s + r`. */
  lemma {:induction false} SubtreeAppend<C, V>(t: Option<Node<C, V>>, s: seq<C>, r: seq<C>)
    ensures Subtree(t, s + r) == Subtree(Subtree(t, s), r)
    decreases |s|
  {
    if s == [] {
      assert s + r == r;
    } else if t.Some? {
      assert (s + r)[0] == s[0] && (s + r)[1..] == s[1..] + r;
      SubtreeAppend(Child(t.value, s[0]), s[1..], r);
    }
  }

  /**
   * A key that leaves the stored paths is a miss: once the path of `key`
   * reaches a node without a child for the next symbol, every extension of
   * `key` through that symbol looks up the sentinel (a strict extension of a
   * stored path included).
   */
  lemma LookupMissBelow<C, V>(t: Option<Node<C, V>>, key: seq<C>, ext: seq<C>, empty: V)
    requires Subtree(t, key).Some?
    requires ext != [] && ext[0] !in Subtree(t, key).value.children
    ensures Subtree(t, key + ext) == None
    ensures Lookup(t, key + ext, empty) == empty
  {
    SubtreeAppend(t, key, ext);
  }

  // ---------------------------------------------------------------------------
  // What insert does

  /** Round trip: the inserted key looks up the inserted value, whatever the tree. */
  lemma {:induction false} InsertLookupSame<C, V>(t: Option<Node<C, V>>, key: seq<C>, v: V, empty: V)
    ensures Lookup(Some(Insert(t, key, v, empty)), key, empty) == v
    decreases |key|
  {
    if key != [] {
      var n := if t.Some? then t.value else Leaf(empty);
      InsertLookupSame(Child(n, key[0]), key[1..], v, empty);
    }
  }

  /** Non-interference: every other key looks up what it did before the insert. */
  lemma {:induction false} InsertLookupOther<C, V>(t: Option<Node<C, V>>, key: seq<C>, v: V, other: seq<C>, empty: V)
    requires other != key
    ensures Lookup(Some(Insert(t, key, v, empty)), other, empty) == Lookup(t, other, empty)
    decreases |key|
  {
    var n := if t.Some? then t.value else Leaf(empty);
    if key != [] && other != [] && other[0] == key[0] {
      assert other[1..] != key[1..] by {
        assert other == [other[0]] + other[1..] && key == [key[0]] + key[1..];
      }
      InsertLookupOther(Child(n, key[0]), key[1..], v, other[1..], empty);
    }
  }

  /** Last write wins: a second insert of the same key leaves exactly the tree one insert of it would. */
  lemma {:induction false} InsertInsertSame<C, V>(t: Option<Node<C, V>>, key: seq<C>, v1: V, v2: V, empty: V)
    ensures Insert(Some(Insert(t, key, v1, empty)), key, v2, empty) == Insert(t, key, v2, empty)
    ensures Lookup(Some(Insert(Some(Insert(t, key, v1, empty)), key, v2, empty)), key, empty) == v2
    decreases |key|
  {
    if key != [] {
      var n := if t.Some? then t.value else Leaf(empty);
      InsertInsertSame(Child(n, key[0]), key[1..], v1, v2, empty);
    }
    InsertLookupSame(t, key, v2, empty);
  }

  /**
   * Insert creates exactly the nodes on the key's path: a path exists
   * afterwards if and only if it existed before or is a prefix of the key.
   */
  lemma {:induction false} InsertPaths<C, V>(t: Option<Node<C, V>>, key: seq<C>, v: V, p: seq<C>, empty: V)
    ensures Subtree(Some(Insert(t, key, v, empty)), p).Some? <==> Subtree(t, p).Some? || p <= key
    decreases |key|
  {
    var n := if t.Some? then t.value else Leaf(empty);
    if p != [] {
      if key != [] && p[0] == key[0] {
        InsertPaths(Child(n, key[0]), key[1..], v, p[1..], empty);
        assert p <= key <==> p[1..] <= key[1..] by {
          assert p == [p[0]] + p[1..] && key == [key[0]] + key[1..];
        }
      } else {
        assert !(p <= key);
        if t.None? {
          assert Subtree(Child(n, p[0]), p[1..]) == None;
        }
      }
    }
  }

  /**
   * A tree is determined by its paths and the values its keys look up; so
   * the three lemmas above pin `Insert` down completely.
   */
  lemma {:induction false} NodeExtensionality<C, V>(a: Node<C, V>, b: Node<C, V>, empty: V)
    requires forall p :: Subtree(Some(a), p).Some? <==> Subtree(Some(b), p).Some?
    requires forall p :: Lookup(Some(a), p, empty) == Lookup(Some(b), p, empty)
    ensures a == b
    decreases a
  {
    assert a.value == Lookup(Some(a), [], empty) && b.value == Lookup(Some(b), [], empty);
    forall c | c in a.children
      ensures c in b.children && a.children[c] == b.children[c]
    {
      assert [c][1..] == [];
      assert Subtree(Some(a), [c]).Some?;
      assert Subtree(Some(b), [c]) == Subtree(Child(b, c), []);
      var ca, cb := a.children[c], b.children[c];
      forall p
        ensures Subtree(Some(ca), p).Some? <==> Subtree(Some(cb), p).Some?
        ensures Lookup(Some(ca), p, empty) == Lookup(Some(cb), p, empty)
      {
        assert ([c] + p)[0] == c && ([c] + p)[1..] == p;
        assert Subtree(Some(a), [c] + p) == Subtree(Some(ca), p);
        assert Subtree(Some(b), [c] + p) == Subtree(Some(cb), p);
        assert Lookup(Some(a), [c] + p, empty) == Lookup(Some(ca), p, empty);
        assert Lookup(Some(b), [c] + p, empty) == Lookup(Some(cb), p, empty);
      }
      NodeExtensionality(ca, cb, empty);
    }
    forall c | c in b.children ensures c in a.children {
      assert [c][1..] == [];
      assert Subtree(Some(b), [c]).Some?;
      assert Subtree(Some(a), [c]) == Subtree(Child(a, c), []);
    }
  }

  /**
   * The declarative meaning of `insert`: any tree whose paths are the old
   * paths plus the key's prefixes, in which the key looks up `v` and every
   * other key its old value, is the tree `Insert` returns.
   */
  lemma InsertCharacterized<C, V>(t: Option<Node<C, V>>, key: seq<C>, v: V, r: Node<C, V>, empty: V)
    requires forall p :: Subtree(Some(r), p).Some? <==> Subtree(t, p).Some? || p <= key
    requires Lookup(Some(r), key, empty) == v
    requires forall p :: p != key ==> Lookup(Some(r), p, empty) == Lookup(t, p, empty)
    ensures r == Insert(t, key, v, empty)
  {
    var s := Insert(t, key, v, empty);
    forall p
      ensures Subtree(Some(r), p).Some? <==> Subtree(Some(s), p).Some?
      ensures Lookup(Some(r), p, empty) == Lookup(Some(s), p, empty)
    {
      InsertPaths(t, key, v, p, empty);
      if p == key {
        InsertLookupSame(t, key, v, empty);
      } else {
        InsertLookupOther(t, key, v, p, empty);
      }
    }
    NodeExtensionality(r, s, empty);
  }

  // ---------------------------------------------------------------------------
  // Folds

  /**
   * Folding `insert_key` overwrites each listed key with the sentinel and
   * leaves every other key alone; from a null tree every key looks up the
   * sentinel.
   */
  lemma {:induction false} InsertKeysLookup<C, V>(t: Option<Node<C, V>>, keys: seq<seq<C>>, k: seq<C>, empty: V)
    ensures Lookup(InsertKeys(t, keys, empty), k, empty) == if k in keys then empty else Lookup(t, k, empty)
    ensures t == None ==> Lookup(InsertKeys(t, keys, empty), k, empty) == empty
    decreases |keys|
  {
    if keys != [] {
      var last := |keys| - 1;
      var before := InsertKeys(t, keys[..last], empty);
      InsertKeysLookup(t, keys[..last], k, empty);
      assert keys == keys[..last] + [keys[last]];
      if k == keys[last] {
        InsertLookupSame(before, k, empty, empty);
      } else {
        InsertLookupOther(before, keys[last], empty, k, empty);
      }
    }
  }

  /** After the fold, the paths are the old ones plus every prefix of a listed key. */
  lemma {:induction false} InsertKeysPaths<C, V>(t: Option<Node<C, V>>, keys: seq<seq<C>>, p: seq<C>, empty: V)
    ensures Subtree(InsertKeys(t, keys, empty), p).Some? <==>
            Subtree(t, p).Some? || exists i :: 0 <= i < |keys| && p <= keys[i]
    decreases |keys|
  {
    if keys != [] {
      var last := |keys| - 1;
      var before := InsertKeys(t, keys[..last], empty);
      InsertKeysPaths(t, keys[..last], p, empty);
      InsertPaths(before, keys[last], empty, p, empty);
      if exists i :: 0 <= i < |keys| && p <= keys[i] {
        var i :| 0 <= i < |keys| && p <= keys[i];
        if i < last {
          assert keys[..last][i] == keys[i];
        }
      }
      if exists i :: 0 <= i < last && p <= keys[..last][i] {
        var i :| 0 <= i < last && p <= keys[..last][i];
        assert keys[i] == keys[..last][i];
      }
    }
  }

  /** Over a run of inserts, a key that does not occur looks up what it did before. */
  lemma {:induction false} InsertPairsLookupAbsent<C, V>(t: Option<Node<C, V>>, keys: seq<seq<C>>, vals: seq<V>, k: seq<C>, empty: V)
    requires |keys| == |vals| && k !in keys
    ensures Lookup(InsertPairs(t, keys, vals, empty), k, empty) == Lookup(t, k, empty)
    decreases |keys|
  {
    if keys != [] {
      var last := |keys| - 1;
      assert keys[last] in keys;
      assert forall x :: x in keys[..last] ==> x in keys;
      InsertPairsLookupAbsent(t, keys[..last], vals[..last], k, empty);
      InsertLookupOther(InsertPairs(t, keys[..last], vals[..last], empty), keys[last], vals[last], k, empty);
    }
  }

  /** Over a run of inserts, a key looks up the value paired with its last occurrence `i`. */
  lemma {:induction false} InsertPairsLookupLast<C, V>(t: Option<Node<C, V>>, keys: seq<seq<C>>, vals: seq<V>, k: seq<C>, i: nat, empty: V)
    requires |keys| == |vals| && i < |keys| && keys[i] == k && k !in keys[i + 1..]
    ensures Lookup(InsertPairs(t, keys, vals, empty), k, empty) == vals[i]
    decreases |keys|
  {
    var last := |keys| - 1;
    var before := InsertPairs(t, keys[..last], vals[..last], empty);
    if i == last {
      InsertLookupSame(before, k, vals[last], empty);
    } else {
      assert keys[last] == keys[i + 1..][last - i - 1];
      assert keys[..last][i + 1..] == keys[i + 1..last];
      InsertPairsLookupLast(t, keys[..last], vals[..last], k, i, empty);
      InsertLookupOther(before, keys[last], vals[last], k, empty);
    }
  }
}
