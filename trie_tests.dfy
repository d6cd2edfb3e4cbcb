/**
 * The scenarios of `TrieTest` in trie.hpp, with the values its output would
 * show stated as postconditions.
 */
module TrieTests {
  import opened Wrappers
  import opened TrieModel
  import opened TrieRender
  import TrieArena

  /** The tree built by inserting "001"->y, "100"->x, "101"->z into a null tree. */
  lemma SecondInsertTree<V>(y: V, x: V, z: V, empty: V)
    ensures InsertPairs(None, ["001", "100", "101"], [y, x, z], empty) ==
            Some(Node(empty, map['0' := Node(empty, map['0' := Node(empty, map['1' := Node(y, map[])])]),
                                 '1' := Node(empty, map['0' := Node(empty, map['0' := Node(x, map[]), '1' := Node(z, map[])])])]))
  {
    var keys, vals := ["001", "100", "101"], [y, x, z];
    var n0 := Node(empty, map['0' := Node(empty, map['1' := Node(y, map[])])]);
    var t1 := Node(empty, map['0' := n0]);
    assert Insert(None, "001", y, empty) == t1;
    var n100 := Node(x, map[]);
    var n1 := Node(empty, map['0' := Node(empty, map['0' := n100])]);
    var t2 := Node(empty, map['0' := n0, '1' := n1]);
    assert Insert(Some(t1), "100", x, empty) == t2;
    var n10 := Node(empty, map['0' := n100, '1' := Node(z, map[])]);
    assert Insert(Some(Node(empty, map['0' := n100])), "1", z, empty) == n10;
    assert Insert(Some(n1), "01", z, empty) == Node(empty, map['0' := n10]);
    assert "101"[0] == '1' && "101"[1..] == "01" && Child(t2, '1') == Some(n1);
    assert t2.children['1' := Node(empty, map['0' := n10])] == map['0' := n0, '1' := Node(empty, map['0' := n10])];
    assert Insert(Some(t2), "101", z, empty) == Node(empty, map['0' := n0, '1' := Node(empty, map['0' := n10])]);
    assert keys[..2] == ["001", "100"] && vals[..2] == [y, x];
    assert keys[..2][..1] == ["001"] && vals[..2][..1] == [y];
    assert keys[..2][..1][..0] == [] && vals[..2][..1][..0] == [];
    assert InsertPairs(None, keys[..2][..1], vals[..2][..1], empty) == Some(t1);
    assert InsertPairs(None, keys[..2], vals[..2], empty) == Some(t2);
  }

  /**
   * A trie holding one key "a" renders as "(, (a:v))": the root has an empty
   * prefix and no value, and its one child is bracketed after ", ".
   */
  lemma RenderSingleKey<V>(v: V, empty: V, show: V -> string)
    requires v != empty
    ensures Render(Insert(None, "a", v, empty), "", empty, show) == "(, (a:" + show(v) + "))"
  {
    var leaf := Node(v, map[]);
    assert Insert(None, "a", v, empty) == Node(empty, map['a' := leaf]);
    RenderNoChildren(leaf, "a", empty, show);
    assert "" + ['a'] == "a";
    RenderOneChild(Node(empty, map['a' := leaf]), "", 'a', empty, show);
    assert "(" + "" + "" + ", " + ("(" + "a" + (":" + show(v)) + ")") + ")" == "(, (a:" + show(v) + "))";
  }

  /** The keys and values `test_lookup` inserts, in order. */
  const LookupKeys: seq<string> := ["a", "an", "another", "b", "bool", "bob", "home"]
  const LookupVals: seq<int> := [1, 2, 7, 1, 4, 3, 4]

  lemma LookupKeysFacts()
    ensures LookupKeys[2] == "another" && "another" !in LookupKeys[3..]
    ensures LookupKeys[6] == "home" && LookupKeys[7..] == []
    ensures "the" !in LookupKeys
  {
  }

  /** `test_lookup` on the pure model: "another" finds 7, "home" 4, and "the" misses with 0. */
  lemma TestLookupValues()
    ensures Lookup(InsertPairs(None, LookupKeys, LookupVals, 0), "another", 0) == 7
    ensures Lookup(InsertPairs(None, LookupKeys, LookupVals, 0), "home", 0) == 4
    ensures Lookup(InsertPairs(None, LookupKeys, LookupVals, 0), "the", 0) == 0
  {
    LookupKeysFacts();
    InsertPairsLookupLast(None, LookupKeys, LookupVals, "another", 2, 0);
    InsertPairsLookupLast(None, LookupKeys, LookupVals, "home", 6, 0);
    InsertPairsLookupAbsent(None, LookupKeys, LookupVals, "the", 0);
  }

  /**
   * `test_lookup` as the source runs it: insert the pairs one by one into a
   * null tree, then look up three keys.
   */
  method TestLookup() returns (another: int, home: int, the: int)
    ensures another == 7 && home == 4 && the == 0
  {
    var keys, vals := LookupKeys, LookupVals;
    var t := new TrieArena.Trie<char, int>();
    var i := 0;
    while i < |keys|
      invariant 0 <= i <= |keys|
      invariant t.Valid() && t.Model() == InsertPairs(None, keys[..i], vals[..i], 0)
    {
      InsertPairsPrefix(None, keys, vals, i, 0);
      t.Insert(keys[i], vals[i], 0);
      i := i + 1;
    }
    assert keys[..i] == keys && vals[..i] == vals;
    TestLookupValues();
    another := t.Lookup("another", 0);
    home := t.Lookup("home", 0);
    the := t.Lookup("the", 0);
  }
}
