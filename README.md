# Trie

A model of the alphabetic trie in `algo/datastruct/tree/trie/src/trie.hpp`.
In the source, a `Trie<Char, Value>` node holds a `value` and a `std::map`
from the next symbol to a heap-allocated child node. A tree is handled
through a pointer that may be null. The operations are:

- `insert(t, key, value)` walks the key and creates every missing node with
  `Value()`. It stores `value` at the node where the key ends and returns the
  root, which is created when `t` is null.
- `lookup(t, key)` returns `Value()` for a null tree or at the first symbol
  without a child. Otherwise it returns the value of the node where the key
  ends.
- `insert_key(t, key)` is the `std::accumulate` step. It inserts `key` with
  the default value.
- `trie_to_str(t, prefix)` renders a node as `"(" + prefix`, then `":" +
  value` when the value is not `Value()`, then `", " + child` for each child
  in ascending symbol order (the child's prefix is the parent's prefix plus
  its symbol), then `")"`.

The project has five modules:

- **`TrieModel`** (`trie_model.dfy`) is the trie as a value. `Node<C, V>`
  holds a value and a `map<C, Node>`. A null pointer is `Option.None`. The
  default value `Value()` is an explicit parameter `empty`. `Insert`,
  `Lookup`, `InsertKey`, the left fold `InsertKeys` and the pairwise loop
  `InsertPairs` are recursive functions. The lemmas state what insertion
  does to every lookup and to every path. They also show that these facts
  determine the tree completely.
- **`TrieRender`** (`trie_render.dfy`) is `trie_to_str` for `char` symbols.
  `operator<<` on values becomes a parameter `show: V -> string`. The
  ascending iteration order of `std::map` is `Ascending`, which is proved
  to be the unique strictly increasing listing of the child symbols.
- **`TrieArena`** (`trie_arena.dfy`) is the imperative side. The class
  `Trie` keeps the nodes in an arena: `vals[i]` is the value of node `i`,
  `kids[i]` maps a symbol to the index of that child, and the root is node
  0. An empty arena is the null root. `Insert`, `InsertKey` and `Lookup`
  are the source's loops with a cursor `p`. Each is proved to produce
  exactly the tree (or value) that the corresponding `TrieModel` function
  gives.
- **`TrieTests`** (`trie_tests.dfy`) states the scenarios of `TrieTest` and
  the values their output shows.
- **`Wrappers`** (`wrappers.dfy`) holds `Option`.

A trie holding only `"a" -> 1` renders as
`"(, (a:1))"`: the root has an empty prefix and no value, and each child
comes after `", "` inside its own brackets.

## Model

| member | source | states |
|---|---|---|
| TrieModel.Insert | algo/datastruct/tree/trie/src/trie.hpp:31-44 | insert never replaces the root: a null tree gets a fresh root, the root keeps its children's symbols and gains the key's first symbol; the root's value becomes v for the empty key and otherwise stays (the default for a fresh root) |
| TrieModel.Lookup | algo/datastruct/tree/trie/src/trie.hpp:46-58 | lookup returns the default when the key's path leaves the tree (a null tree included), and otherwise the value of the node at the end of the path |
| TrieModel.InsertKey | algo/datastruct/tree/trie/src/trie.hpp:63-66 | after insert_key, the key's path exists and its lookup is the default value |
| TrieModel.InsertKeys | algo/datastruct/tree/trie/src/trie.hpp:93-94 | the fold of insert_key yields a null tree only when it starts from a null tree with no keys |
| TrieModel.InsertPairs | algo/datastruct/tree/trie/src/trie.hpp:103-104 | the loop of insert over (key, value) pairs yields a null tree only when it starts from a null tree with no pairs |
| TrieModel.SubtreeAppend | algo/datastruct/tree/trie/src/trie.hpp:52-56 | following path s and then r from a node is following s + r |
| TrieModel.LookupMissBelow | algo/datastruct/tree/trie/src/trie.hpp:52-54 | when a key has a node and the first symbol of an extension has no child there, the key extended that way has no node and looks up as the default |
| TrieModel.InsertLookupSame | algo/datastruct/tree/trie/src/trie.hpp:31-44 | after insert(t, key, v), looking up key gives v, for a null or non-null t and for any key, including the empty one |
| TrieModel.InsertLookupOther | algo/datastruct/tree/trie/src/trie.hpp:36-42 | insert leaves the lookup of every other key unchanged: nodes it creates hold the default (`Trie()` at line 19) and only the end node's value is written |
| TrieModel.InsertInsertSame | algo/datastruct/tree/trie/src/trie.hpp:42 | inserting the same key twice is the same as inserting it once with the second value, which overwrites the first |
| TrieModel.InsertPaths | algo/datastruct/tree/trie/src/trie.hpp:37-41 | after insert, a path has a node exactly when it had one before or is a prefix of the key |
| TrieModel.NodeExtensionality | algo/datastruct/tree/trie/src/trie.hpp:13-29 | two tries with the same paths and the same lookups on every path are equal |
| TrieModel.InsertCharacterized | algo/datastruct/tree/trie/src/trie.hpp:31-44 | insert's result is the only trie whose paths are the old ones plus the key's prefixes, whose lookup of key is v and whose other lookups are unchanged |
| TrieModel.InsertKeysLookup | algo/datastruct/tree/trie/src/trie.hpp:63-66 | after folding insert_key over keys, each listed key looks up as the default and every other key is unchanged, so from a null tree every lookup is the default |
| TrieModel.InsertKeysPaths | algo/datastruct/tree/trie/src/trie.hpp:93-94 | after the `std::accumulate` fold of insert_key, a path has a node exactly when it had one before or is a prefix of some listed key |
| TrieModel.InsertPairsLookupAbsent | algo/datastruct/tree/trie/src/trie.hpp:115-116 | after inserting a list of pairs, a key not among them looks up as before |
| TrieModel.InsertPairsLookupLast | algo/datastruct/tree/trie/src/trie.hpp:115-116 | after inserting a list of pairs, a key looks up as the value paired with its last occurrence |
| TrieRender.ValueText | algo/datastruct/tree/trie/src/trie.hpp:72-73 | the value part is non-empty exactly when the node's value is not the default, and then starts with ":" |
| TrieRender.Render | algo/datastruct/tree/trie/src/trie.hpp:68-79 | a rendering is at least "(" + prefix + ")" long, starts with "(" and ends with ")" |
| TrieRender.Least | algo/datastruct/tree/trie/src/trie.hpp:74-75 | the first symbol a map iteration visits is in the set and no larger than any other symbol |
| TrieRender.Ascending | algo/datastruct/tree/trie/src/trie.hpp:74-76 | the listing of child symbols contains only children's symbols |
| TrieRender.AscendingSorted | algo/datastruct/tree/trie/src/trie.hpp:74-76 | the listing visits every child symbol exactly once, in strictly increasing order |
| TrieRender.AscendingUnique | algo/datastruct/tree/trie/src/trie.hpp:74-76 | any strictly increasing listing of the child symbols is that listing |
| TrieRender.RenderChildren | algo/datastruct/tree/trie/src/trie.hpp:74-76 | the children part is empty or starts with the separator "," |
| TrieRender.RenderInOrder | algo/datastruct/tree/trie/src/trie.hpp:68-79 | a node renders as "(" + prefix + value part + ", " + child for each child in increasing symbol order + ")" |
| TrieRender.RenderNoChildren | algo/datastruct/tree/trie/src/trie.hpp:70-77 | a node without children renders as "(" + prefix, then ":" + value unless it holds the default, then ")" |
| TrieRender.RenderOneChild | algo/datastruct/tree/trie/src/trie.hpp:74-77 | a node with one child c renders its child after ", ", with prefix extended by c, before the closing ")" |
| TrieRender.RenderTwoChildren | algo/datastruct/tree/trie/src/trie.hpp:74-77 | a node with children a < b renders the child under a first, then the child under b |
| TrieRender.RenderShape | algo/datastruct/tree/trie/src/trie.hpp:70-77 | every rendering starts with "(" + prefix and ends with ")", and a ":" follows the prefix exactly when the node holds a value other than the default |
| TrieArena.WalkIsSubtree | algo/datastruct/tree/trie/src/trie.hpp:51-56 | walking the arena from a node with the cursor follows the same path in the tree that node denotes, and fails exactly where the tree has no node |
| TrieArena.AddChild | algo/datastruct/tree/trie/src/trie.hpp:38-39 | attaching a fresh node under a missing symbol keeps the arena well formed and adds exactly a default-valued leaf at the cursor's path + symbol |
| TrieArena.SetValue | algo/datastruct/tree/trie/src/trie.hpp:42 | writing the value at the cursor changes exactly the value of the node at the cursor's path |
| TrieArena.Trie.constructor | algo/datastruct/tree/trie/src/trie.hpp:91 | a new tree is the null tree |
| TrieArena.Trie.Insert | algo/datastruct/tree/trie/src/trie.hpp:31-44 | the loop leaves exactly the tree of the pure insert. Every existing child link stays, pointing at the same index, so existing nodes are reused as the source reuses its child pointers; each existing index keeps its key path. Only the node for key gets a value written; nodes it creates hold the default |
| TrieArena.Trie.InsertKey | algo/datastruct/tree/trie/src/trie.hpp:63-66 | insert_key leaves exactly the tree of the pure insert of key with the default value |
| TrieArena.Trie.Lookup | algo/datastruct/tree/trie/src/trie.hpp:46-58 | the loop returns exactly the pure lookup of key, including the default for a null tree and at a missing child |
| TrieTests.SecondInsertTree | algo/datastruct/tree/trie/src/trie.hpp:100-104 | inserting "001"->y, "100"->x, "101"->z into a null tree gives the tree with branches 0-0-1 (y) and 1-0 with children 0 (x) and 1 (z), all inner nodes holding the default |
| TrieTests.RenderSingleKey | algo/datastruct/tree/trie/src/trie.hpp:68-79 | a trie holding only "a" -> v (v not the default) renders as "(, (a:" + v + "))" |
| TrieTests.TestLookupValues | algo/datastruct/tree/trie/src/trie.hpp:113-119 | after inserting the pairs of test_lookup, "another" looks up 7, "home" 4 and "the" the default 0 |
| TrieTests.TestLookup | algo/datastruct/tree/trie/src/trie.hpp:111-121 | test_lookup run on the arena trie returns 7 for "another", 4 for "home" and 0 for "the" |

## Left out

- The destructor `~Trie` and `delete t` (trie.hpp:21-25, 98, 108, 120): memory is not modelled, and arena nodes are never freed.
- Printing to `std::cout` in `TrieTest` and `run()` (trie.hpp:83-87, 95-97, 105-107, 117-119): output is not modelled. The values it would show are stated as postconditions instead.
- The full strings that `test_insert` prints for its two tries are not proved. Only the second trie's exact shape (`TrieTests.SecondInsertTree`), the rendering rules per node and a one-key rendering (`TrieTests.RenderSingleKey`) are proved.
- `std::accumulate` with `std::ptr_fun` (trie.hpp:93-94) is the left fold `TrieModel.InsertKeys`, not a generic algorithm.
- The "or throw exception" alternatives in `lookup` (trie.hpp:49, 54) are comments, not code: the model returns the default value as the code does.
- `Value()` is the explicit parameter `empty`. The model does not check that it is the value type's default constructor.
- `operator<<` on values is the parameter `show`. `trie_to_str` is modelled only for `char` symbols, where `prefix + it->first` appends one character.
- TrieRender.Ascending: symbols are Dafny `char` values ordered by code point. The source's `std::map<char, Trie*>` orders C++ `char`, a byte that is signed on common ABIs, so bytes 0x80-0xFF sort before ASCII there; and a `std::string` key is a byte sequence, so a non-ASCII character is several trie levels in the source but one symbol here. Child order and nesting in rendering agree with the source only for symbols 0-127.
- TrieRender.Ascending: its own contract states only that it lists children's symbols. The full order (every symbol once, strictly increasing) is stated by `TrieRender.AscendingSorted`.
- TrieArena.Trie.Insert: heap pointers are arena indices. A node's identity is its index, and aliasing between separate tries is not modelled. The loop runs on local copies of the arena and stores them back at the end.
