/**
 * The in-place trie of trie.hpp.  Nodes live in an arena: node `j` has the
 * value `vals[j]` and the children `kids[j]`, a map from symbol to the index
 * of the child node; the root is node 0 and an empty arena is the null
 * pointer.  A ghost `paths[j]` records node j's key path.  `Insert` and
 * `Lookup` run the source's cursor loops and are proved to refine
 * TrieModel.Insert and TrieModel.Lookup on the tree the arena denotes.
 */
module TrieArena {
  import opened Wrappers
  import opened TrieModel

  /** Every child index points at a later node of the arena. */
  ghost predicate Linked<C>(kids: seq<map<C, nat>>) {
    forall j, c :: 0 <= j < |kids| && c in kids[j] ==> j < kids[j][c] < |kids|
  }

  /**
   * A well-formed arena: the root's key path is empty and each child's key
   * path is its parent's extended by the child's symbol.  Children come
   * later in the arena, so no cycle can form.  Nodes not reachable from the
   * root may share a key path; they do not belong to the tree the arena
   * denotes.
   */
  ghost predicate Wf<C, V>(vals: seq<V>, kids: seq<map<C, nat>>, paths: seq<seq<C>>) {
    && |vals| == |kids| == |paths|
    && Linked(kids)
    && (|kids| > 0 ==> paths[0] == [])
    && forall j, c :: 0 <= j < |kids| && c in kids[j] ==> paths[kids[j][c]] == paths[j] + [c]
  }

  /** The tree rooted at node `j`. */
  ghost function AbsAt<C, V>(vals: seq<V>, kids: seq<map<C, nat>>, j: nat): Node<C, V>
    requires |vals| == |kids| && Linked(kids) && j < |kids|
    decreases |kids| - j
  {
    Node(vals[j], map c | c in kids[j] :: AbsAt(vals, kids, kids[j][c]))
  }

  /** The node reached from node `j` by following `s`, if every symbol has a child. */
  function Walk<C>(kids: seq<map<C, nat>>, j: nat, s: seq<C>): (r: Option<nat>)
    requires Linked(kids) && j < |kids|
    ensures r.Some? ==> r.value < |kids|
    decreases |s|
  {
    if s == [] then Some(j)
    else if s[0] in kids[j] then Walk(kids, kids[j][s[0]], s[1..])
    else None
  }

  /** Replaces the subtree at `path`, when that path exists, by `sub`. */
  function Graft<C, V>(n: Node<C, V>, path: seq<C>, sub: Node<C, V>): Node<C, V>
    decreases |path|
  {
    if path == [] then sub
    else if path[0] in n.children then
      Node(n.value, n.children[path[0] := Graft(n.children[path[0]], path[1..], sub)])
    else n
  }

  // ---------------------------------------------------------------------------
  // Walks in the arena are paths in the tree

  /** Walking the arena is following the same path in the tree it denotes. */
  lemma {:induction false} WalkIsSubtree<C, V>(vals: seq<V>, kids: seq<map<C, nat>>, j: nat, s: seq<C>)
    requires |vals| == |kids| && Linked(kids) && j < |kids|
    ensures Subtree(Some(AbsAt(vals, kids, j)), s) ==
            match Walk(kids, j, s) case Some(q) => Some(AbsAt(vals, kids, q)) case None => None
    decreases |s|
  {
    if s != [] && s[0] in kids[j] {
      WalkIsSubtree(vals, kids, kids[j][s[0]], s[1..]);
    }
  }

  /** The node a walk reaches has the key path of its start extended by the walk. */
  lemma {:induction false} WalkPath<C, V>(vals: seq<V>, kids: seq<map<C, nat>>, paths: seq<seq<C>>, j: nat, s: seq<C>)
    requires Wf(vals, kids, paths) && j < |kids| && Walk(kids, j, s).Some?
    ensures paths[Walk(kids, j, s).value] == paths[j] + s
    decreases |s|
  {
    if s == [] {
      assert paths[j] + s == paths[j];
    } else {
      var k := kids[j][s[0]];
      WalkPath(vals, kids, paths, k, s[1..]);
      assert paths[j] + s == paths[j] + [s[0]] + s[1..];
    }
  }

  /** Walking `s` and then `[c]`. */
  lemma {:induction false} WalkSnoc<C>(kids: seq<map<C, nat>>, j: nat, s: seq<C>, c: C)
    requires Linked(kids) && j < |kids| && Walk(kids, j, s).Some?
    ensures Walk(kids, j, s + [c]) ==
            var q := Walk(kids, j, s).value; if c in kids[q] then Some(kids[q][c]) else None
    decreases |s|
  {
    if s == [] {
      assert s + [c] == [c] && [c][1..] == [];
    } else {
      assert (s + [c])[0] == s[0] && (s + [c])[1..] == s[1..] + [c];
      WalkSnoc(kids, kids[j][s[0]], s[1..], c);
    }
  }

  // ---------------------------------------------------------------------------
  // Grafting

  /** Grafting back the subtree that is already there changes nothing. */
  lemma {:induction false} GraftSelf<C, V>(t: Node<C, V>, s: seq<C>)
    requires Subtree(Some(t), s).Some?
    ensures Graft(t, s, Subtree(Some(t), s).value) == t
    decreases |s|
  {
    if s != [] {
      GraftSelf(t.children[s[0]], s[1..]);
    }
  }

  /** Grafting below a graft is grafting into the grafted subtree. */
  lemma {:induction false} GraftGraft<C, V>(t: Node<C, V>, s: seq<C>, u: seq<C>, sub: Node<C, V>, x: Node<C, V>)
    requires Subtree(Some(t), s).Some?
    ensures Graft(Graft(t, s, sub), s + u, x) == Graft(t, s, Graft(sub, u, x))
    decreases |s|
  {
    if s == [] {
      assert s + u == u;
    } else {
      assert (s + u)[0] == s[0] && (s + u)[1..] == s[1..] + u;
      GraftGraft(t.children[s[0]], s[1..], u, sub, x);
    }
  }

  // ---------------------------------------------------------------------------
  // Changing one node of the arena

  /** Two arenas of one shape that differ at most at node `p`. */
  ghost predicate SameExcept<C, V>(vals: seq<V>, kids: seq<map<C, nat>>, vals': seq<V>, kids': seq<map<C, nat>>, p: nat) {
    && |vals'| == |vals| && |kids'| == |kids|
    && (forall i :: 0 <= i < |vals| && i != p ==> vals'[i] == vals[i])
    && (forall i :: 0 <= i < |kids| && i != p ==> kids'[i] == kids[i])
  }

  /** A node whose key path is not a prefix of node p's does not see a change at p. */
  lemma {:induction false} ChangeElsewhere<C, V>(vals: seq<V>, kids: seq<map<C, nat>>, vals': seq<V>, kids': seq<map<C, nat>>,
                                                  paths: seq<seq<C>>, p: nat, j: nat)
    requires Wf(vals, kids, paths) && Wf(vals', kids', paths) && SameExcept(vals, kids, vals', kids', p)
    requires p < |kids| && j < |kids| && !(paths[j] <= paths[p])
    ensures AbsAt(vals', kids', j) == AbsAt(vals, kids, j)
    decreases |kids| - j
  {
    assert kids'[j] == kids[j] && vals'[j] == vals[j];
    forall c | c in kids[j]
      ensures AbsAt(vals', kids', kids[j][c]) == AbsAt(vals, kids, kids[j][c])
    {
      var k := kids[j][c];
      assert paths[k] == paths[j] + [c];
      ChangeElsewhere(vals, kids, vals', kids', paths, p, k);
    }
  }

  /** Every ancestor of node p sees the change at p as a graft of p's new subtree. */
  lemma {:induction false} ChangeAlong<C, V>(vals: seq<V>, kids: seq<map<C, nat>>, vals': seq<V>, kids': seq<map<C, nat>>,
                                             paths: seq<seq<C>>, p: nat, j: nat, s: seq<C>)
    requires Wf(vals, kids, paths) && Wf(vals', kids', paths) && SameExcept(vals, kids, vals', kids', p)
    requires p < |kids| && j < |kids| && Walk(kids, j, s) == Some(p)
    ensures AbsAt(vals', kids', j) == Graft(AbsAt(vals, kids, j), s, AbsAt(vals', kids', p))
    decreases |s|
  {
    if s != [] {
      WalkPath(vals, kids, paths, j, s);
      assert j != p by {
        assert |paths[p]| == |paths[j]| + |s|;
      }
      var c := s[0];
      var k := kids[j][c];
      ChangeAlong(vals, kids, vals', kids', paths, p, k, s[1..]);
      assert paths[p] == (paths[j] + [c]) + s[1..];
      OneChildChanged(vals, kids, vals', kids', paths, p, j, c);
    }
  }

  /** An ancestor j of p sees the change at p only in its child under `c`. */
  lemma OneChildChanged<C, V>(vals: seq<V>, kids: seq<map<C, nat>>, vals': seq<V>, kids': seq<map<C, nat>>,
                              paths: seq<seq<C>>, p: nat, j: nat, c: C)
    requires Wf(vals, kids, paths) && Wf(vals', kids', paths) && SameExcept(vals, kids, vals', kids', p)
    requires p < |kids| && j < |kids| && j != p && c in kids[j] && paths[j] + [c] <= paths[p]
    ensures AbsAt(vals', kids', j) == Node(vals[j], AbsAt(vals, kids, j).children[c := AbsAt(vals', kids', kids[j][c])])
  {
    SiblingsUnchanged(vals, kids, vals', kids', paths, p, j, c);
    assert kids'[j] == kids[j] && vals'[j] == vals[j];
    var before := AbsAt(vals, kids, j);
    assert AbsAt(vals', kids', j).children == before.children[c := AbsAt(vals', kids', kids[j][c])];
  }

  /** The children of node j other than the one under `c`, on the way to p, do not see the change at p. */
  lemma SiblingsUnchanged<C, V>(vals: seq<V>, kids: seq<map<C, nat>>, vals': seq<V>, kids': seq<map<C, nat>>,
                                paths: seq<seq<C>>, p: nat, j: nat, c: C)
    requires Wf(vals, kids, paths) && Wf(vals', kids', paths) && SameExcept(vals, kids, vals', kids', p)
    requires p < |kids| && j < |kids| && paths[j] + [c] <= paths[p]
    ensures forall d | d in kids[j] && d != c :: AbsAt(vals', kids', kids[j][d]) == AbsAt(vals, kids, kids[j][d])
  {
    forall d | d in kids[j] && d != c
      ensures AbsAt(vals', kids', kids[j][d]) == AbsAt(vals, kids, kids[j][d])
    {
      var k' := kids[j][d];
      assert paths[k'] == paths[j] + [d];
      assert paths[k'][|paths[j]|] == d && paths[p][|paths[j]|] == c;
      ChangeElsewhere(vals, kids, vals', kids', paths, p, k');
    }
  }

  /** The walks of the arena are unchanged when only the kids of their endpoint change. */
  lemma {:induction false} WalkUnchanged<C, V>(vals: seq<V>, kids: seq<map<C, nat>>, kids': seq<map<C, nat>>,
                                               paths: seq<seq<C>>, p: nat, j: nat, s: seq<C>)
    requires Wf(vals, kids, paths) && Linked(kids') && |kids'| == |kids|
    requires forall i :: 0 <= i < |kids| && i != p ==> kids'[i] == kids[i]
    requires j < |kids| && Walk(kids, j, s) == Some(p)
    ensures Walk(kids', j, s) == Some(p)
    decreases |s|
  {
    if s != [] {
      WalkPath(vals, kids, paths, j, s);
      assert j != p by {
        assert |paths[p]| == |paths[j]| + |s|;
      }
      WalkUnchanged(vals, kids, kids', paths, p, kids[j][s[0]], s[1..]);
    }
  }

  /** Appending a node without children changes no existing subtree. */
  lemma {:induction false} AppendNode<C, V>(vals: seq<V>, kids: seq<map<C, nat>>, x: V, j: nat)
    requires |vals| == |kids| && Linked(kids) && j < |kids|
    ensures Linked(kids + [map[]])
    ensures AbsAt(vals + [x], kids + [map[]], j) == AbsAt(vals, kids, j)
    decreases |kids| - j
  {
    var kids2 := kids + [map[]];
    assert Linked(kids2) by {
      forall i, c | 0 <= i < |kids2| && c in kids2[i] ensures i < kids2[i][c] < |kids2| {
        assert i < |kids|;
      }
    }
    forall c | c in kids[j]
      ensures AbsAt(vals + [x], kids2, kids[j][c]) == AbsAt(vals, kids, kids[j][c])
    {
      AppendNode(vals, kids, x, kids[j][c]);
    }
  }

  /** Walks that stay in the old arena are unaffected by an appended node. */
  lemma {:induction false} AppendNodeWalk<C>(kids: seq<map<C, nat>>, j: nat, s: seq<C>)
    requires Linked(kids) && Linked(kids + [map[]]) && j < |kids|
    ensures Walk(kids + [map[]], j, s) == Walk(kids, j, s)
    decreases |s|
  {
    if s != [] && s[0] in kids[j] {
      AppendNodeWalk(kids, kids[j][s[0]], s[1..]);
    }
  }

  /** Appending a fresh node and attaching it under `c` at node p keeps the arena well formed. */
  lemma AttachWf<C, V>(vals: seq<V>, kids: seq<map<C, nat>>, paths: seq<seq<C>>, p: nat, c: C, empty: V, n: nat,
                       vals2: seq<V>, kids1: seq<map<C, nat>>, kids2: seq<map<C, nat>>, paths2: seq<seq<C>>)
    requires Wf(vals, kids, paths) && p < |kids| && c !in kids[p] && n == |kids|
    requires vals2 == vals + [empty] && kids1 == kids + [map[]] && paths2 == paths + [paths[p] + [c]]
    requires |kids2| == |kids1| && kids2[p] == kids[p][c := n]
    requires forall i :: 0 <= i < |kids1| && i != p ==> kids2[i] == kids1[i]
    ensures Linked(kids1) && Wf(vals2, kids1, paths2) && Wf(vals2, kids2, paths2)
  {
    forall i, d | 0 <= i < |kids1| && d in kids1[i]
      ensures i < kids1[i][d] < |kids1| && paths2[kids1[i][d]] == paths2[i] + [d]
    {
      assert i < n;
    }
    forall i, d | 0 <= i < |kids2| && d in kids2[i]
      ensures i < kids2[i][d] < |kids2| && paths2[kids2[i][d]] == paths2[i] + [d]
    {
      if i != p {
        assert kids2[i] == kids1[i];
      }
    }
  }

  /** After attaching, node p has its old children plus a fresh leaf under `c`. */
  lemma AttachedNode<C, V>(vals: seq<V>, kids: seq<map<C, nat>>, paths: seq<seq<C>>, p: nat, c: C, empty: V, n: nat,
                           vals2: seq<V>, kids1: seq<map<C, nat>>, kids2: seq<map<C, nat>>, paths2: seq<seq<C>>)
    requires Wf(vals, kids, paths) && p < |kids| && c !in kids[p] && n == |kids|
    requires vals2 == vals + [empty] && kids1 == kids + [map[]] && paths2 == paths + [paths[p] + [c]]
    requires |kids2| == |kids1| && kids2[p] == kids[p][c := n]
    requires forall i :: 0 <= i < |kids1| && i != p ==> kids2[i] == kids1[i]
    requires Linked(kids1) && Wf(vals2, kids1, paths2) && Wf(vals2, kids2, paths2)
    ensures AbsAt(vals2, kids2, n) == Leaf(empty)
    ensures AbsAt(vals2, kids2, p) == Node(vals[p], AbsAt(vals, kids, p).children[c := Leaf(empty)])
  {
    var old_p := AbsAt(vals, kids, p);
    var new_p := AbsAt(vals2, kids2, p);
    AttachedKeepsChildren(vals, kids, paths, p, c, empty, n, vals2, kids1, kids2, paths2);
    assert kids2[n] == map[];
    assert AbsAt(vals2, kids2, n) == Leaf(empty);
    var want := old_p.children[c := Leaf(empty)];
    assert new_p.children.Keys == want.Keys;
    forall d | d in want ensures new_p.children[d] == want[d] {
      if d != c {
        assert old_p.children[d] == AbsAt(vals, kids, kids[p][d]);
      }
    }
  }

  /** Attaching leaves the subtrees of p's old children as they were. */
  lemma AttachedKeepsChildren<C, V>(vals: seq<V>, kids: seq<map<C, nat>>, paths: seq<seq<C>>, p: nat, c: C, empty: V, n: nat,
                                    vals2: seq<V>, kids1: seq<map<C, nat>>, kids2: seq<map<C, nat>>, paths2: seq<seq<C>>)
    requires Wf(vals, kids, paths) && p < |kids| && c !in kids[p] && n == |kids|
    requires vals2 == vals + [empty] && kids1 == kids + [map[]] && paths2 == paths + [paths[p] + [c]]
    requires |kids2| == |kids1| && kids2[p] == kids[p][c := n]
    requires forall i :: 0 <= i < |kids1| && i != p ==> kids2[i] == kids1[i]
    requires Linked(kids1) && Wf(vals2, kids1, paths2) && Wf(vals2, kids2, paths2)
    ensures forall d | d in kids[p] :: AbsAt(vals2, kids2, kids[p][d]) == AbsAt(vals, kids, kids[p][d])
  {
    forall d | d in kids[p]
      ensures AbsAt(vals2, kids2, kids[p][d]) == AbsAt(vals, kids, kids[p][d])
    {
      var k := kids[p][d];
      assert paths2[k] == paths2[p] + [d];
      ChangeElsewhere(vals2, kids1, vals2, kids2, paths2, p, k);
      AppendNode(vals, kids, empty, k);
    }
  }

  /**
   * One iteration of insert's loop at a missing symbol: `new Trie()` is
   * appended and attached under `c` at node p.  The tree gains exactly a
   * fresh leaf at path `s + [c]`.
   */
  lemma AddChild<C, V>(vals: seq<V>, kids: seq<map<C, nat>>, paths: seq<seq<C>>, p: nat, s: seq<C>, c: C, empty: V, n: nat,
                       vals2: seq<V>, kids2: seq<map<C, nat>>, paths2: seq<seq<C>>)
    requires Wf(vals, kids, paths) && p < |kids| && Walk(kids, 0, s) == Some(p) && c !in kids[p] && n == |kids|
    requires vals2 == vals + [empty] && paths2 == paths + [paths[p] + [c]]
    requires |kids2| == |kids| + 1 && kids2[p] == kids[p][c := n] && kids2[n] == map[]
    requires forall i :: 0 <= i < |kids| && i != p ==> kids2[i] == kids[i]
    ensures Wf(vals2, kids2, paths2)
    ensures Walk(kids2, 0, s + [c]) == Some(n)
    ensures AbsAt(vals2, kids2, n) == Leaf(empty)
    ensures AbsAt(vals2, kids2, 0) ==
            Graft(AbsAt(vals, kids, 0), s, Node(vals[p], AbsAt(vals, kids, p).children[c := Leaf(empty)]))
  {
    var kids1: seq<map<C, nat>> := kids + [map[]];
    assert forall i :: 0 <= i < |kids1| && i != p ==> kids2[i] == kids1[i];
    AttachWf(vals, kids, paths, p, c, empty, n, vals2, kids1, kids2, paths2);
    AttachedNode(vals, kids, paths, p, c, empty, n, vals2, kids1, kids2, paths2);
    AppendNode(vals, kids, empty, 0);
    AppendNodeWalk(kids, 0, s);
    WalkUnchanged(vals2, kids1, kids2, paths2, p, 0, s);
    WalkSnoc(kids2, 0, s, c);
    ChangeAlong(vals2, kids1, vals2, kids2, paths2, p, 0, s);
  }

  /** The end of insert: `p->value = value` at node p, reached by `s`. */
  lemma SetValue<C, V>(vals: seq<V>, kids: seq<map<C, nat>>, paths: seq<seq<C>>, p: nat, s: seq<C>, v: V)
    requires Wf(vals, kids, paths) && p < |kids| && Walk(kids, 0, s) == Some(p)
    ensures Wf(vals[p := v], kids, paths)
    ensures AbsAt(vals[p := v], kids, 0) == Graft(AbsAt(vals, kids, 0), s, Node(v, AbsAt(vals, kids, p).children))
  {
    var vals' := vals[p := v];
    ChangeAlong(vals, kids, vals', kids, paths, p, 0, s);
    forall d | d in kids[p]
      ensures AbsAt(vals', kids, kids[p][d]) == AbsAt(vals, kids, kids[p][d])
    {
      var k := kids[p][d];
      assert paths[k] == paths[p] + [d];
      ChangeElsewhere(vals, kids, vals', kids, paths, p, k);
    }
    assert AbsAt(vals', kids, p).children == AbsAt(vals, kids, p).children;
  }

  /**
   * The heart of insert's loop: with the cursor at node p after `s`, inserting
   * `[c] + rest` below p is inserting `rest` below the node for `s + [c]`.
   */
  lemma InsertStep<C, V>(t: Node<C, V>, s: seq<C>, c: C, rest: seq<C>, below: Node<C, V>, v: V, empty: V)
    requires Subtree(Some(t), s).Some? && c in Subtree(Some(t), s).value.children
    requires below == Subtree(Some(t), s).value.children[c]
    ensures Graft(t, s, Insert(Subtree(Some(t), s), [c] + rest, v, empty)) ==
            Graft(t, s + [c], Insert(Some(below), rest, v, empty))
  {
    var m := Subtree(Some(t), s).value;
    assert ([c] + rest)[0] == c && ([c] + rest)[1..] == rest;
    assert [c][1..] == [];
    var x := Insert(Some(below), rest, v, empty);
    assert Insert(Some(m), [c] + rest, v, empty) == Graft(m, [c], x);
    GraftSelf(t, s);
    GraftGraft(t, s, [c], m, x);
  }

  /** Inserting below a missing symbol is inserting below the fresh leaf that replaces it. */
  lemma InsertFreshStep<C, V>(t: Node<C, V>, s: seq<C>, c: C, rest: seq<C>, v: V, empty: V)
    requires Subtree(Some(t), s).Some? && c !in Subtree(Some(t), s).value.children
    ensures var m := Subtree(Some(t), s).value;
            var t' := Graft(t, s, Node(m.value, m.children[c := Leaf(empty)]));
            Graft(t, s, Insert(Some(m), [c] + rest, v, empty)) ==
            Graft(t', s + [c], Insert(Some(Leaf(empty)), rest, v, empty))
  {
    var m := Subtree(Some(t), s).value;
    var grown := Node(m.value, m.children[c := Leaf(empty)]);
    assert ([c] + rest)[0] == c && ([c] + rest)[1..] == rest;
    assert [c][1..] == [];
    var x := Insert(Some(Leaf(empty)), rest, v, empty);
    assert Insert(None, rest, v, empty) == x;
    assert Insert(Some(m), [c] + rest, v, empty) == Graft(grown, [c], x);
    GraftGraft(t, s, [c], grown, x);
  }

  // ---------------------------------------------------------------------------
  // Insert's loop

  /**
   * The invariant of insert's loop: the cursor p is the node for `key[..i]`,
   * and finishing the insert from p yields the `target` tree.
   */
  ghost predicate InsertInv<C, V>(vals: seq<V>, kids: seq<map<C, nat>>, paths: seq<seq<C>>, key: seq<C>, i: nat, p: nat,
                                  v: V, empty: V, target: Node<C, V>)
  {
    && Wf(vals, kids, paths) && i <= |key| && p < |kids|
    && Walk(kids, 0, key[..i]) == Some(p)
    && Graft(AbsAt(vals, kids, 0), key[..i], TrieModel.Insert(Some(AbsAt(vals, kids, p)), key[i..], v, empty)) == target
  }

  /** Entering the loop: the cursor is the root. */
  lemma InsertStart<C, V>(vals: seq<V>, kids: seq<map<C, nat>>, paths: seq<seq<C>>, key: seq<C>, v: V, empty: V)
    requires Wf(vals, kids, paths) && |kids| > 0
    ensures InsertInv(vals, kids, paths, key, 0, 0, v, empty, TrieModel.Insert(Some(AbsAt(vals, kids, 0)), key, v, empty))
  {
    assert key[..0] == [] && key[0..] == key;
  }

  /** A step of the loop along an existing child. */
  lemma InsertStepExisting<C, V>(vals: seq<V>, kids: seq<map<C, nat>>, paths: seq<seq<C>>, key: seq<C>, i: nat, p: nat,
                                 v: V, empty: V, target: Node<C, V>)
    requires InsertInv(vals, kids, paths, key, i, p, v, empty, target) && i < |key| && key[i] in kids[p]
    ensures InsertInv(vals, kids, paths, key, i + 1, kids[p][key[i]], v, empty, target)
  {
    var c := key[i];
    WalkIsSubtree(vals, kids, 0, key[..i]);
    assert key[i..] == [c] + key[i + 1..];
    assert key[..i + 1] == key[..i] + [c];
    InsertStep(AbsAt(vals, kids, 0), key[..i], c, key[i + 1..], AbsAt(vals, kids, kids[p][c]), v, empty);
    WalkSnoc(kids, 0, key[..i], c);
  }

  /** A step of the loop that first creates the missing child as node n. */
  lemma InsertStepFresh<C, V>(vals: seq<V>, kids: seq<map<C, nat>>, paths: seq<seq<C>>, key: seq<C>, i: nat, p: nat,
                              v: V, empty: V, target: Node<C, V>, n: nat,
                              vals2: seq<V>, kids2: seq<map<C, nat>>, paths2: seq<seq<C>>)
    requires InsertInv(vals, kids, paths, key, i, p, v, empty, target) && i < |key| && key[i] !in kids[p]
    requires n == |kids| && vals2 == vals + [empty] && paths2 == paths + [paths[p] + [key[i]]]
    requires |kids2| == |kids| + 1 && kids2[p] == kids[p][key[i] := n] && kids2[n] == map[]
    requires forall j :: 0 <= j < |kids| && j != p ==> kids2[j] == kids[j]
    ensures InsertInv(vals2, kids2, paths2, key, i + 1, n, v, empty, target)
  {
    var c := key[i];
    WalkIsSubtree(vals, kids, 0, key[..i]);
    assert key[i..] == [c] + key[i + 1..];
    assert key[..i + 1] == key[..i] + [c];
    AddChild(vals, kids, paths, p, key[..i], c, empty, n, vals2, kids2, paths2);
    InsertFreshStep(AbsAt(vals, kids, 0), key[..i], c, key[i + 1..], v, empty);
  }

  /** Leaving the loop: `p->value = value` completes the target tree. */
  lemma InsertFinish<C, V>(vals: seq<V>, kids: seq<map<C, nat>>, paths: seq<seq<C>>, key: seq<C>, p: nat,
                           v: V, empty: V, target: Node<C, V>)
    requires InsertInv(vals, kids, paths, key, |key|, p, v, empty, target)
    ensures Wf(vals[p := v], kids, paths) && AbsAt(vals[p := v], kids, 0) == target
    ensures paths[p] == key
  {
    assert key[..|key|] == key && key[|key|..] == [];
    SetValue(vals, kids, paths, p, key, v);
    WalkPath(vals, kids, paths, 0, key);
  }

  /** The arena `vals` extends `before` with nodes that hold the sentinel. */
  ghost predicate Grown<V>(before: seq<V>, vals: seq<V>, empty: V) {
    && |before| <= |vals| && vals[..|before|] == before
    && forall j :: |before| <= j < |vals| ==> vals[j] == empty
  }

  /** Creating a node with the sentinel keeps the arena grown. */
  lemma GrownAppend<V>(before: seq<V>, vals: seq<V>, empty: V)
    requires Grown(before, vals, empty)
    ensures Grown(before, vals + [empty], empty)
  {
    assert (vals + [empty])[..|before|] == vals[..|before|];
  }

  /** Writing `v` at the node for `key` changes no other node. */
  lemma GrownWrite<C, V>(before: seq<V>, vals: seq<V>, paths: seq<seq<C>>, p: nat, key: seq<C>, v: V, empty: V)
    requires Grown(before, vals, empty) && |paths| == |vals| && p < |vals| && paths[p] == key
    ensures forall j :: 0 <= j < |vals| && paths[j] != key ==>
              vals[p := v][j] == (if j < |before| then before[j] else empty)
  {
    forall j | 0 <= j < |vals| && paths[j] != key
      ensures vals[p := v][j] == (if j < |before| then before[j] else empty)
    {
      if j < |before| {
        assert vals[..|before|][j] == vals[j];
      }
    }
  }

  /** Every child link of `kidsBefore` is still in `kids`, to the same node. */
  ghost predicate KeepsLinks<C>(kidsBefore: seq<map<C, nat>>, kids: seq<map<C, nat>>) {
    && |kidsBefore| <= |kids|
    && forall j, c :: 0 <= j < |kidsBefore| && c in kidsBefore[j] ==> c in kids[j] && kids[j][c] == kidsBefore[j][c]
  }

  /** Attaching a child under a symbol that node p lacks keeps every existing link. */
  lemma KeepsLinksAttach<C>(kidsBefore: seq<map<C, nat>>, kids: seq<map<C, nat>>, p: nat, c: C, n: nat)
    requires KeepsLinks(kidsBefore, kids) && p < |kids| && c !in kids[p]
    ensures KeepsLinks(kidsBefore, (kids + [map[]])[p := kids[p][c := n]])
  {
    var kids2 := (kids + [map[]])[p := kids[p][c := n]];
    forall j, d | 0 <= j < |kidsBefore| && d in kidsBefore[j]
      ensures d in kids2[j] && kids2[j][d] == kidsBefore[j][d]
    {
      if j == p {
        assert d in kids[p];
      }
    }
  }

  /**
   * Insert's whole loop invariant: InsertInv, and nothing that existed has
   * moved or changed — no value, no key path and no child link.
   */
  ghost predicate InsertLoop<C, V>(before: seq<V>, pathsBefore: seq<seq<C>>, kidsBefore: seq<map<C, nat>>,
                                   vals: seq<V>, kids: seq<map<C, nat>>,
                                   paths: seq<seq<C>>, key: seq<C>, i: nat, p: nat, v: V, empty: V, target: Node<C, V>)
  {
    && InsertInv(vals, kids, paths, key, i, p, v, empty, target) && Grown(before, vals, empty) && pathsBefore <= paths
    && KeepsLinks(kidsBefore, kids)
  }

  lemma InsertLoopStart<C, V>(before: seq<V>, pathsBefore: seq<seq<C>>, kidsBefore: seq<map<C, nat>>,
                              vals: seq<V>, kids: seq<map<C, nat>>,
                              paths: seq<seq<C>>, key: seq<C>, v: V, empty: V, target: Node<C, V>)
    requires Wf(vals, kids, paths) && |kids| > 0 && target == TrieModel.Insert(Some(AbsAt(vals, kids, 0)), key, v, empty)
    requires (before == [] && vals == [empty] && pathsBefore == [] && kidsBefore == []) ||
             (before == vals && pathsBefore == paths && kidsBefore == kids)
    ensures InsertLoop(before, pathsBefore, kidsBefore, vals, kids, paths, key, 0, 0, v, empty, target)
  {
    InsertStart(vals, kids, paths, key, v, empty);
    assert vals[..|before|] == before;
  }

  lemma InsertLoopExisting<C, V>(before: seq<V>, pathsBefore: seq<seq<C>>, kidsBefore: seq<map<C, nat>>,
                                 vals: seq<V>, kids: seq<map<C, nat>>,
                                 paths: seq<seq<C>>, key: seq<C>, i: nat, p: nat, v: V, empty: V, target: Node<C, V>)
    requires InsertLoop(before, pathsBefore, kidsBefore, vals, kids, paths, key, i, p, v, empty, target)
    requires i < |key| && key[i] in kids[p]
    ensures InsertLoop(before, pathsBefore, kidsBefore, vals, kids, paths, key, i + 1, kids[p][key[i]], v, empty, target)
  {
    InsertStepExisting(vals, kids, paths, key, i, p, v, empty, target);
  }

  lemma InsertLoopFresh<C, V>(before: seq<V>, pathsBefore: seq<seq<C>>, kidsBefore: seq<map<C, nat>>,
                              vals: seq<V>, kids: seq<map<C, nat>>,
                              paths: seq<seq<C>>, key: seq<C>, i: nat, p: nat, v: V, empty: V, target: Node<C, V>,
                              n: nat, kids2: seq<map<C, nat>>)
    requires InsertLoop(before, pathsBefore, kidsBefore, vals, kids, paths, key, i, p, v, empty, target)
    requires i < |key| && key[i] !in kids[p]
    requires n == |kids| && kids2 == (kids + [map[]])[p := kids[p][key[i] := n]]
    ensures InsertLoop(before, pathsBefore, kidsBefore, vals + [empty], kids2, paths + [paths[p] + [key[i]]], key, i + 1, n,
                       v, empty, target)
  {
    InsertStepFresh(vals, kids, paths, key, i, p, v, empty, target, n, vals + [empty], kids2, paths + [paths[p] + [key[i]]]);
    GrownAppend(before, vals, empty);
    KeepsLinksAttach(kidsBefore, kids, p, key[i], n);
  }

  lemma InsertLoopFinish<C, V>(before: seq<V>, pathsBefore: seq<seq<C>>, kidsBefore: seq<map<C, nat>>,
                               vals: seq<V>, kids: seq<map<C, nat>>,
                               paths: seq<seq<C>>, key: seq<C>, p: nat, v: V, empty: V, target: Node<C, V>)
    requires InsertLoop(before, pathsBefore, kidsBefore, vals, kids, paths, key, |key|, p, v, empty, target)
    ensures KeepsLinks(kidsBefore, kids)
    ensures p < |vals| && Wf(vals[p := v], kids, paths) && AbsAt(vals[p := v], kids, 0) == target
    ensures |before| <= |vals| && pathsBefore <= paths
    ensures forall j :: 0 <= j < |vals| && paths[j] != key ==>
              vals[p := v][j] == (if j < |before| then before[j] else empty)
  {
    InsertFinish(vals, kids, paths, key, p, v, empty, target);
    GrownWrite(before, vals, paths, p, key, v, empty);
  }

  // ---------------------------------------------------------------------------
  // The tree object

  class Trie<C(==), V> {
    var vals: seq<V>
    var kids: seq<map<C, nat>>
    ghost var paths: seq<seq<C>>

    ghost predicate Valid()
      reads this
    {
      Wf(vals, kids, paths)
    }

    /** The tree the arena denotes; None is the null root pointer. */
    ghost function Model(): Option<Node<C, V>>
      reads this
      requires Valid()
    {
      if |vals| == 0 then None else Some(AbsAt(vals, kids, 0))
    }

    /** `Trie<Char, Value>* t(0)`: the null tree. */
    constructor ()
      ensures Valid() && Model() == None
    {
      vals, kids, paths := [], [], [];
    }

    /**
     * `t = insert(t, key, value)`: the loop of trie.hpp with cursor `p`,
     * creating each missing child with the sentinel (the loop works on
     * local copies of the arena, stored back at the end).  Existing nodes
     * keep their place and every existing child link is kept, so the walk
     * reuses them as the source reuses its child pointers; the only value written is
     * the one of the node whose key path is `key`; every node created holds
     * the sentinel, or `v` when it is that node.
     */
    method Insert(key: seq<C>, v: V, empty: V)
      requires Valid()
      modifies this
      ensures Valid() && |vals| > 0
      ensures Model() == Some(TrieModel.Insert(old(Model()), key, v, empty))
      ensures |old(vals)| <= |vals| && old(paths) <= paths
      ensures forall j :: 0 <= j < |vals| && paths[j] != key ==> vals[j] == (if j < |old(vals)| then old(vals)[j] else empty)
      ensures forall j, c :: 0 <= j < |old(kids)| && c in old(kids)[j] ==> c in kids[j] && kids[j][c] == old(kids)[j][c]
    {
      ghost var target := TrieModel.Insert(Model(), key, v, empty);
      var vs: seq<V>, ks: seq<map<C, nat>> := vals, kids;
      ghost var before, pathsBefore, kidsBefore, ps := vals, paths, kids, paths;
      if |vs| == 0 {
        vs, ks, ps := [empty], [map[]], [[]];
      }
      InsertLoopStart(before, pathsBefore, kidsBefore, vs, ks, ps, key, v, empty, target);
      var p: nat, i: nat := 0, 0;
      while i < |key|
        invariant InsertLoop(before, pathsBefore, kidsBefore, vs, ks, ps, key, i, p, v, empty, target)
      {
        var c := key[i];
        if c !in ks[p] {
          var n: nat := |ks|;
          var ks2: seq<map<C, nat>> := (ks + [map[]])[p := ks[p][c := n]];
          InsertLoopFresh(before, pathsBefore, kidsBefore, vs, ks, ps, key, i, p, v, empty, target, n, ks2);
          vs, ks, ps := vs + [empty], ks2, ps + [ps[p] + [c]];
          p := n;
        } else {
          InsertLoopExisting(before, pathsBefore, kidsBefore, vs, ks, ps, key, i, p, v, empty, target);
          p := ks[p][c];
        }
        i := i + 1;
      }
      InsertLoopFinish(before, pathsBefore, kidsBefore, vs, ks, ps, key, p, v, empty, target);
      vals, kids, paths := vs[p := v], ks, ps;
    }

    /** `t = insert_key(t, key)`: the fold step, which stores the sentinel under `key`. */
    method InsertKey(key: seq<C>, empty: V)
      requires Valid()
      modifies this
      ensures Valid()
      ensures Model() == Some(TrieModel.InsertKey(old(Model()), key, empty))
    {
      Insert(key, empty, empty);
    }

    /**
     * `lookup(t, key)`: the read-only walk of trie.hpp, returning the
     * sentinel at the first symbol without a child.
     */
    method Lookup(key: seq<C>, empty: V) returns (r: V)
      requires Valid()
      ensures r == TrieModel.Lookup(Model(), key, empty)
    {
      if |vals| == 0 {
        return empty;
      }
      var p: nat, i := 0, 0;
      while i < |key|
        invariant 0 <= i <= |key| && p < |vals|
        invariant TrieModel.Lookup(Some(AbsAt(vals, kids, p)), key[i..], empty) == TrieModel.Lookup(Model(), key, empty)
      {
        var c := key[i];
        assert key[i..][0] == c && key[i..][1..] == key[i + 1..];
        if c !in kids[p] {
          return empty;
        }
        p := kids[p][c];
        i := i + 1;
      }
      r := vals[p];
    }
  }
}
