/**
 * `trie_to_str` for tries over `char`: a node is written
 * "(" + prefix [+ ":" + value] + (", " + child)* + ")", the children in
 * ascending symbol order (the order of `std::map`), each child with the
 * prefix extended by its symbol.  `operator<<` on values is the parameter
 * `show`.
 */
module TrieRender {
  import opened TrieModel

  /** Every non-empty finite set of symbols has a least element. */
  lemma {:induction false} HasLeast(s: set<char>)
    requires s != {}
    ensures exists m :: m in s && forall x :: x in s ==> m <= x
    decreases s
  {
    var y :| y in s;
    if s != {y} {
      HasLeast(s - {y});
      var m :| m in s - {y} && forall x :: x in s - {y} ==> m <= x;
      var least := if y < m then y else m;
      forall x | x in s ensures least <= x {
        if x != y {
          assert x in s - {y};
        }
      }
      assert least in s;
    } else {
      assert forall x :: x in s ==> y <= x;
    }
  }

  /** The least symbol of a non-empty set. */
  function Least(s: set<char>): (m: char)
    requires s != {}
    ensures m in s && forall x :: x in s ==> m <= x
  {
    HasLeast(s);
    var m :| m in s && forall x :: x in s ==> m <= x; m
  }

  /** The symbols of `s` in ascending order, as iterating a `std::map` visits its keys. */
  function Ascending(s: set<char>): (r: seq<char>)
    ensures forall c :: c in r ==> c in s
    decreases s
  {
    if s == {} then []
    else
      var m := Least(s);
      [m] + Ascending(s - {m})
  }

  /** Ascending lists every symbol of `s` exactly once, in strictly increasing order. */
  lemma {:induction false} AscendingSorted(s: set<char>)
    ensures var r := Ascending(s);
            |r| == |s| && (forall c :: c in r <==> c in s) && forall i, j :: 0 <= i < j < |r| ==> r[i] < r[j]
    decreases s
  {
    if s != {} {
      var m := Least(s);
      AscendingSorted(s - {m});
      var rest := Ascending(s - {m});
      assert Ascending(s) == [m] + rest;
      forall i, j | 0 <= i < j < |[m] + rest| ensures ([m] + rest)[i] < ([m] + rest)[j] {
        if i == 0 {
          assert rest[j - 1] in s - {m};
        }
      }
    }
  }

  /** The part of a node's rendering that shows its value. */
  function ValueText<V(==)>(n: Node<char, V>, empty: V, show: V -> string): (r: string)
    ensures r != [] <==> n.value != empty
    ensures r == [] || r[0] == ':'
  {
    if n.value != empty then ":" + show(n.value) else ""
  }

  /** `trie_to_str(t, prefix)`: bracketed, the rest of its shape is stated by RenderShape. */
  function Render<V(==)>(n: Node<char, V>, prefix: string, empty: V, show: V -> string): (r: string)
    ensures |r| >= 2 + |prefix| && r[0] == '(' && r[|r| - 1] == ')'
    decreases n, 1
  {
    "(" + prefix + ValueText(n, empty, show) + RenderChildren(n, Ascending(n.children.Keys), prefix, empty, show) + ")"
  }

  /** The loop that appends ", " and each listed child's rendering. */
  function RenderChildren<V(==)>(n: Node<char, V>, symbols: seq<char>, prefix: string, empty: V, show: V -> string): (r: string)
    requires forall c :: c in symbols ==> c in n.children
    ensures r == [] || r[0] == ','
    decreases n, 0, |symbols|
  {
    if symbols == [] then ""
    else
      var c := symbols[0];
      ", " + Render(n.children[c], prefix + [c], empty, show) + RenderChildren(n, symbols[1..], prefix, empty, show)
  }

  /** The first symbol of a strictly increasing listing of `s` is its least. */
  lemma FirstIsLeast(s: set<char>, r: seq<char>)
    requires forall c :: c in r <==> c in s
    requires forall i, j :: 0 <= i < j < |r| ==> r[i] < r[j]
    requires r != []
    ensures s != {} && r[0] == Least(s)
  {
    assert r[0] in s;
    assert Least(s) in r;
  }

  /** The rest of such a listing lists the rest of `s`. */
  lemma RestListsRest(s: set<char>, r: seq<char>)
    requires forall c :: c in r <==> c in s
    requires forall i, j :: 0 <= i < j < |r| ==> r[i] < r[j]
    requires r != []
    ensures forall c :: c in r[1..] <==> c in s - {r[0]}
  {
    forall c ensures c in r[1..] <==> c in s - {r[0]} {
      if c in r[1..] {
        var k :| 1 <= k < |r| && r[k] == c;
        assert r[0] < r[k];
      }
      if c in s - {r[0]} {
        assert c in r;
        var k :| 0 <= k < |r| && r[k] == c;
        assert k != 0;
        assert r[1..][k - 1] == c;
      }
    }
  }

  /** `Ascending(s)` is the only strictly increasing listing of `s`. */
  lemma {:induction false} AscendingUnique(s: set<char>, r: seq<char>)
    requires forall c :: c in r <==> c in s
    requires forall i, j :: 0 <= i < j < |r| ==> r[i] < r[j]
    ensures Ascending(s) == r
    decreases |r|, 1
  {
    if r != [] {
      AscendingUniqueStep(s, r);
    } else {
      assert s == {};
    }
  }

  /** The inductive step of AscendingUnique: peel off the least symbol. */
  lemma {:induction false} AscendingUniqueStep(s: set<char>, r: seq<char>)
    requires forall c :: c in r <==> c in s
    requires forall i, j :: 0 <= i < j < |r| ==> r[i] < r[j]
    requires r != []
    ensures Ascending(s) == r
    decreases |r|, 0
  {
    FirstIsLeast(s, r);
    RestListsRest(s, r);
    AscendingUnique(s - {r[0]}, r[1..]);
    assert r == [r[0]] + r[1..];
  }

  /** A node without children is rendered "(prefix[:value])". */
  lemma RenderNoChildren<V>(n: Node<char, V>, prefix: string, empty: V, show: V -> string)
    requires n.children == map[]
    ensures Render(n, prefix, empty, show) == "(" + prefix + ValueText(n, empty, show) + ")"
  {
    AscendingUnique({}, []);
  }

  /** Unfolding RenderChildren once on a non-empty listing. */
  lemma RenderChildrenCons<V>(n: Node<char, V>, symbols: seq<char>, prefix: string, empty: V, show: V -> string)
    requires forall c :: c in symbols ==> c in n.children
    requires symbols != []
    ensures RenderChildren(n, symbols, prefix, empty, show) ==
            ", " + Render(n.children[symbols[0]], prefix + [symbols[0]], empty, show) + RenderChildren(n, symbols[1..], prefix, empty, show)
  {
  }

  /** The listing of one symbol. */
  lemma AscendingSingleton(c: char)
    ensures Ascending({c}) == [c]
  {
    AscendingUnique({c}, [c]);
  }

  /** The listing of two symbols `a < b`. */
  lemma AscendingPair(a: char, b: char)
    requires a < b
    ensures Ascending({a, b}) == [a, b]
  {
    AscendingUnique({a, b}, [a, b]);
  }

  /** The children part for the listing [c]. */
  lemma RenderChildrenOne<V>(n: Node<char, V>, prefix: string, c: char, empty: V, show: V -> string)
    requires c in n.children
    ensures RenderChildren(n, [c], prefix, empty, show) == ", " + Render(n.children[c], prefix + [c], empty, show)
  {
    RenderChildrenCons(n, [c], prefix, empty, show);
    assert [c][1..] == [];
  }

  /** The children part for the listing [a, b]. */
  lemma RenderChildrenTwo<V>(n: Node<char, V>, prefix: string, a: char, b: char, empty: V, show: V -> string)
    requires a in n.children && b in n.children
    ensures RenderChildren(n, [a, b], prefix, empty, show) ==
            ", " + Render(n.children[a], prefix + [a], empty, show) + ", " + Render(n.children[b], prefix + [b], empty, show)
  {
    RenderChildrenOne(n, prefix, b, empty, show);
    RenderChildrenCons(n, [a, b], prefix, empty, show);
    assert [a, b][1..] == [b];
  }

  /**
   * The children are rendered in ascending symbol order: for any strictly
   * increasing listing of the child symbols, the node renders as its head,
   * then ", " + child for each symbol of that listing, then ")".
   */
  lemma RenderInOrder<V>(n: Node<char, V>, prefix: string, symbols: seq<char>, empty: V, show: V -> string)
    requires forall c :: c in symbols <==> c in n.children
    requires forall i, j :: 0 <= i < j < |symbols| ==> symbols[i] < symbols[j]
    ensures Render(n, prefix, empty, show) ==
            "(" + prefix + ValueText(n, empty, show) + RenderChildren(n, symbols, prefix, empty, show) + ")"
  {
    AscendingUnique(n.children.Keys, symbols);
  }

  /** A node with one child `c` is rendered "(prefix[:value], child)", the child under prefix + c. */
  lemma RenderOneChild<V>(n: Node<char, V>, prefix: string, c: char, empty: V, show: V -> string)
    requires n.children.Keys == {c}
    ensures Render(n, prefix, empty, show) ==
            "(" + prefix + ValueText(n, empty, show) + ", " + Render(n.children[c], prefix + [c], empty, show) + ")"
  {
    AscendingSingleton(c);
    RenderChildrenOne(n, prefix, c, empty, show);
  }

  /** A node with children `a < b` is rendered with the child under `a` first. */
  lemma RenderTwoChildren<V>(n: Node<char, V>, prefix: string, a: char, b: char, empty: V, show: V -> string)
    requires n.children.Keys == {a, b} && a < b
    ensures Render(n, prefix, empty, show) ==
            "(" + prefix + ValueText(n, empty, show)
            + ", " + Render(n.children[a], prefix + [a], empty, show)
            + ", " + Render(n.children[b], prefix + [b], empty, show) + ")"
  {
    AscendingPair(a, b);
    RenderChildrenTwo(n, prefix, a, b, empty, show);
    Regroup("(" + prefix + ValueText(n, empty, show), Render(n.children[a], prefix + [a], empty, show),
            Render(n.children[b], prefix + [b], empty, show));
  }

  /** Concatenation regrouped, as the two-children lemma needs it. */
  lemma Regroup(head: string, first: string, second: string)
    ensures head + (", " + first + ", " + second) + ")" == head + ", " + first + ", " + second + ")"
  {
  }

  /**
   * A rendering is "(" + prefix, then ":" exactly when the node holds a
   * value other than the sentinel, and it ends with ")".
   */
  lemma RenderShape<V>(n: Node<char, V>, prefix: string, empty: V, show: V -> string)
    ensures var r := Render(n, prefix, empty, show);
            |r| >= 2 + |prefix| && r[0] == '(' && r[1..1 + |prefix|] == prefix && r[|r| - 1] == ')' &&
            ((r[1 + |prefix|] == ':') <==> n.value != empty)
  {
    var children := RenderChildren(n, Ascending(n.children.Keys), prefix, empty, show);
    var tail := children + ")";
    assert tail[0] == ')' || tail[0] == ',';
    assert tail[|tail| - 1] == ')';
    Framed(prefix, ValueText(n, empty, show), tail);
  }

  /** The positions of "(" + prefix + text + tail, for a text that is empty or starts with ':'. */
  lemma Framed(prefix: string, text: string, tail: string)
    requires text == [] || text[0] == ':'
    requires tail != [] && tail[0] != ':' && tail[|tail| - 1] == ')'
    ensures var r := "(" + prefix + text + tail;
            |r| >= 2 + |prefix| && r[0] == '(' && r[1..1 + |prefix|] == prefix && r[|r| - 1] == ')' &&
            ((r[1 + |prefix|] == ':') <==> text != [])
  {
    var r := "(" + prefix + text + tail;
    assert r[1..1 + |prefix|] == prefix by {
      forall k | 0 <= k < |prefix| ensures r[1 + k] == prefix[k] { }
    }
  }
}
