# Ternary search tree

A model of a ternary search tree that stores a set of non-empty strings.
Each node holds one character, an end-of-word flag and three child slots:

- `ls` holds characters below the node's character at the same position;
- `eq` holds the next position of the words that go through this node;
- `gt` holds characters above the node's character at the same position.

The container keeps the root node and a word count. It can insert a word,
answer exact and prefix searches, list every stored word in ascending order,
report its size, tell whether it is empty, and be cleared.

The project has three files:

- `tree_model.dfy` (module `TreeModel`) is the value view. A `Tree` datatype
  holds one node slot. Functions on it give the stored words (`Words`), the
  descent of insertion (`InsertChar`) and of search (`Find`), the in-order walk
  (`Enumerate`), and the invariant (`WellFormed`): each node's `ls`/`gt` chains
  hold only smaller/greater characters, and each node ends a word or has an
  `eq` child.
- `tree_facts.dfy` (module `TreeFacts`) proves what those functions mean:
  - insertion adds exactly the word and keeps the invariant;
  - the descent finds a word-end node exactly for stored words, and a node
    exactly for prefixes of stored words;
  - the number of word-end nodes equals the number of stored words;
  - the walk emits every stored word once, in ascending order.
- `ternary_search_tree.dfy` (module `TernarySearch`) has the heap classes
  `Node` and `TernarySearchTree`. Insertion relinks child slots in place and
  updates the count as the program does. Each node carries a ghost `Tree`
  (`Model`) and a ghost set of its nodes (`Repr`). Each method is proved
  against the value-view functions.

The container invariant `TernarySearchTree.Valid` says:

- the nodes form a tree whose value is `WellFormed`;
- `wordCount` is the number of nodes marked as word ends.

`Contents()` is the set of stored words.

## Model

| member | source | states |
|---|---|---|
| TernarySearch.TernarySearchTree.constructor | ternary_search_tree.py:3-5 | A new tree satisfies the invariant, stores no word, has length 0 and is empty |
| TernarySearch.Node.constructor | ternary_search_tree.py:9-14 | A new node holds the given character, is not a word end and has three empty slots |
| TernarySearch.TernarySearchTree.Len | ternary_search_tree.py:17-18 | The kept word count is the number of distinct stored words |
| TernarySearch.TernarySearchTree.CollectStrings | ternary_search_tree.py:23-33 | The walk appends, to the words collected so far, the words under the node in in-order order (`ls`, own word, `eq` with the character pushed, `gt`), and gives the path back unchanged after the push and pop |
| TernarySearch.TernarySearchTree.AllStrings | ternary_search_tree.py:21-37 | The returned list holds exactly the stored words, each once, in strictly ascending lexicographic order, and its length is `Len()` |
| TernarySearch.TernarySearchTree.InsertCharacter | ternary_search_tree.py:40-58 | Inserting the suffix from `index` creates a node when the slot is empty, returns the same node otherwise, and leaves it with the tree value `InsertChar` prescribes; the count grows by one exactly when the descent did not already end on a word-end node |
| TernarySearch.TernarySearchTree.InsertLesser | ternary_search_tree.py:46-47 | A character below the node's goes into the `ls` slot at the same index, with the same value and count effect as `InsertChar` |
| TernarySearch.TernarySearchTree.InsertGreater | ternary_search_tree.py:48-49 | A character above the node's goes into the `gt` slot at the same index, with the same value and count effect as `InsertChar` |
| TernarySearch.TernarySearchTree.InsertEqual | ternary_search_tree.py:55-56 | A matching character that is not the last sends the rest of the word into the `eq` slot at the next index, with the same value and count effect as `InsertChar` |
| TernarySearch.Node.LinkLesser | ternary_search_tree.py:47 | Storing the returned node in `ls` replaces only the `ls` slot's value and keeps the node valid |
| TernarySearch.Node.LinkGreater | ternary_search_tree.py:49 | Storing the returned node in `gt` replaces only the `gt` slot's value and keeps the node valid |
| TernarySearch.Node.LinkEqual | ternary_search_tree.py:56 | Storing the returned node in `eq` replaces only the `eq` slot's value and keeps the node valid |
| TernarySearch.TernarySearchTree.Insert | ternary_search_tree.py:61-65 | For a non-empty word: the stored words become the old ones plus the word; afterwards exact and prefix search both find it; the count grows by one exactly when the word was new. The empty word changes nothing. The invariant is kept, and the empty string is never among the stored words |
| TernarySearch.TernarySearchTree.InsertedValid | ternary_search_tree.py:61-65 | After the root is replaced by the inserted tree, the invariant holds again, the words are the old ones plus the word, and the count reflects whether the word was already stored; the empty string is not among them |
| TernarySearch.TernarySearchTree.SearchHelper | ternary_search_tree.py:68-83 | The descent returns null on an empty slot, otherwise the node of the word's last character reached by the insertion descent, always a node inside the searched subtree |
| TernarySearch.TernarySearchTree.Search | ternary_search_tree.py:86-95 | Exact search is true iff the word is non-empty and stored; prefix search is true iff the word is non-empty and some stored word starts with it |
| TernarySearch.TernarySearchTree.IsEmpty | ternary_search_tree.py:97-98 | The root is missing iff no word is stored iff the length is 0 |
| TernarySearch.TernarySearchTree.Clear | ternary_search_tree.py:100-102 | Afterwards the invariant holds, no word is stored, the length is 0 and the tree is empty |
| TreeFacts.InsertWords | ternary_search_tree.py:40-58 | Inserting a suffix adds exactly that suffix to the words of the subtree |
| TreeFacts.InsertLevel | ternary_search_tree.py:43-49 | Inserting adds exactly the suffix's first character to the characters at the subtree's position |
| TreeFacts.InsertWellFormed | ternary_search_tree.py:40-58 | Insertion keeps both the ordering of `ls`/`gt` chains and the rule that every node ends a word or has an `eq` child |
| TreeFacts.InsertEndCount | ternary_search_tree.py:51-54 | The number of word-end nodes grows by one exactly when the descent did not already end on a word-end node |
| TreeFacts.FindStored | ternary_search_tree.py:90-95 | In an ordered tree, the descent ends on a word-end node iff the suffix is stored |
| TreeFacts.FindPrefix | ternary_search_tree.py:90-95 | In a well-formed tree, the descent reaches a node iff the suffix starts some stored word |
| TreeFacts.CountWords | ternary_search_tree.py:51-54 | In an ordered tree, the number of word-end nodes equals the number of stored words |
| TreeFacts.ProductiveNonEmpty | ternary_search_tree.py:97-98 | A tree whose nodes all end a word or have an `eq` child stores no word iff it has no node |
| TreeFacts.EmptyStringNotStored | ternary_search_tree.py:62-63 | The empty string is never among the stored words |
| TreeFacts.WordStartsAtLevel | ternary_search_tree.py:46-49 | Every stored suffix is non-empty and starts with a character of the subtree's `ls`/`gt` chain |
| TreeFacts.SplitByFirst | ternary_search_tree.py:74-83 | In an ordered node, a stored suffix lies in `ls`, `gt` or `eq` according to how its first character compares with the node's |
| TreeFacts.PartsDisjoint | ternary_search_tree.py:46-56 | In an ordered node, the words of `ls`, of the node itself, of `eq` and of `gt` are pairwise disjoint |
| TreeFacts.EnumerateMember | ternary_search_tree.py:23-33 | The walk under a path emits exactly the path followed by each stored suffix |
| TreeFacts.EnumerateStep | ternary_search_tree.py:24-33 | The four steps of one node's walk together produce that node's walk |
| TreeFacts.EnumerateLength | ternary_search_tree.py:28-29 | The walk emits one string per word-end node |
| TreeFacts.EnumeratePosition | ternary_search_tree.py:27-29 | Every emitted string extends the path by a character of the subtree's position |
| TreeFacts.EnumerateSorted | ternary_search_tree.py:23-33 | In an ordered tree, the walk emits strictly ascending strings |
| TreeFacts.SortedDistinct | ternary_search_tree.py:21-37 | A strictly ascending list holds no string twice |
| TreeFacts.LessAt | ternary_search_tree.py:25-33 | Strings that agree up to a position and differ there are ordered by that character |
| TreeFacts.LessPrefix | ternary_search_tree.py:28-30 | A proper prefix sorts before its extensions |

## Left out

- TernarySearch.TernarySearchTree.Insert: the model has no recursion limit. The program recurses once per character and once per `ls`/`gt` step (ternary_search_tree.py:47, 49, 56). On a word or tree deeper than Python's recursion limit (1000 frames by default) it raises RecursionError before any relink or count update runs, so the tree stays unchanged. The model's `Insert` instead adds the word for every non-empty word.
- TernarySearch.TernarySearchTree.SearchHelper: the model has no recursion limit. The program recurses once per step (ternary_search_tree.py:75, 78, 83) and raises RecursionError on a descent deeper than Python's limit, where the model returns the found node.
- TernarySearch.TernarySearchTree.CollectStrings: the model has no recursion limit. The program recurses once per node on the way down (ternary_search_tree.py:25, 30, 33) and raises RecursionError on a tree deeper than Python's limit, where the model returns every stored word.
- Tree visualization (`__str__`, ternary_search_tree.py:105 onwards) is display only and is not modelled.
- The benchmark script `benchmark_tst.py` measures timings and is not part of this model.
- The type checks in `insert` and `search` are gone because the word parameter is typed as a string.
- Characters are Dafny `char` values (Unicode scalar values) compared by code point, as Python compares the characters of a `str`. Python's lone surrogate code points have no `char` counterpart.
- TernarySearch.TernarySearchTree.CollectStrings: the program shares one path list and one result list across the recursion and mutates them. The model passes them in and returns them as values. The append and pop of the path are modelled as concatenation and slicing, and the method proves the path comes back as it went in.
- TernarySearch.TernarySearchTree.InsertCharacter: the single recursive function of the program is split into `InsertCharacter`, one method per child slot and one link method per slot. The branches, the order of steps and the count update are the program's.
- The edge-case test at test_ternary_search_tree.py:95-98 expects inserting the empty string to raise the length to 3 and `search('')` to return true. The code at ternary_search_tree.py:62-63 and 87-88 ignores the empty string in both operations. The model follows the code: `Insert([])` changes nothing and `Search([])` is false.
