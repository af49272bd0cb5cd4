/** The ternary search tree as the program keeps it: nodes on the heap whose
    child slots are relinked in place, and a container holding the root and the
    number of stored words.

    Every node carries a ghost `Model`, the `Tree` value of the subtree it
    roots, and a ghost `Repr`, the nodes of that subtree. The methods are proved
    to act on `Model` as the functions of module `TreeModel` say, and module
    `TreeFacts` supplies what those functions mean for the stored words.

    Insertion follows the program's recursion: `InsertCharacter` creates a
    missing node, marks a word end or descends into one slot; each descent
    (`InsertLesser`, `InsertEqual`, `InsertGreater`) recurses and then writes
    the returned node back into its slot with the node's `Link` method. */
module TernarySearch {
  import opened TreeModel
  import opened TreeFacts

  /** One character position of one or more stored words. */
  class Node {
    const ch: char
    var endOfWord: bool
    var ls: Node?
    var eq: Node?
    var gt: Node?

    ghost var Model: Tree
    ghost var Repr: set<Node>

    /** The subtree is a strict out-tree: each child owns a footprint of its own,
        apart from its siblings' and from this node, and `Model` is the value of
        the whole subtree. */
    ghost predicate Valid()
      reads this, Repr
      decreases Repr
    {
      && this in Repr
      && (ls != null ==> ls in Repr && ls.Repr <= Repr && this !in ls.Repr && ls.Valid())
      && (eq != null ==> eq in Repr && eq.Repr <= Repr && this !in eq.Repr && eq.Valid())
      && (gt != null ==> gt in Repr && gt.Repr <= Repr && this !in gt.Repr && gt.Valid())
      && (ls != null && eq != null ==> ls.Repr !! eq.Repr)
      && (ls != null && gt != null ==> ls.Repr !! gt.Repr)
      && (eq != null && gt != null ==> eq.Repr !! gt.Repr)
      && Model.Branch? && Model.ch == ch && Model.endOfWord == endOfWord
      && (if ls == null then Model.ls == Empty else Model.ls == ls.Model)
      && (if eq == null then Model.eq == Empty else Model.eq == eq.Model)
      && (if gt == null then Model.gt == Empty else Model.gt == gt.Model)
    }

    /** `l`, `q` and `g` may be linked as this node's `ls`, `eq` and `gt`:
        each is a valid subtree that does not contain this node, and no two of
        them share a node. */
    ghost predicate Fits(l: Node?, q: Node?, g: Node?)
      reads l, q, g, ReprOf(l), ReprOf(q), ReprOf(g)
    {
      && (l != null ==> this !in l.Repr && l.Valid())
      && (q != null ==> this !in q.Repr && q.Valid())
      && (g != null ==> this !in g.Repr && g.Valid())
      && ReprOf(l) !! ReprOf(q) && ReprOf(l) !! ReprOf(g) && ReprOf(q) !! ReprOf(g)
    }

    /** Links `child` into the `ls` slot, as `insert_character` does on its way
        back from a smaller character. */
    method LinkLesser(child: Node)
      requires this in Repr && ReprOf(eq) <= Repr && ReprOf(gt) <= Repr
      requires Fits(child, eq, gt)
      requires Model.Branch? && Model.ch == ch && Model.endOfWord == endOfWord
      requires Model.eq == ModelOf(eq) && Model.gt == ModelOf(gt)
      modifies this
      ensures Valid() && ls == child && eq == old(eq) && gt == old(gt)
      ensures Repr == old(Repr) + child.Repr
      ensures Model == old(Model).(ls := child.Model)
    {
      ls, Repr, Model := child, Repr + child.Repr, Model.(ls := child.Model);
    }

    /** Links `child` into the `eq` slot, as `insert_character` does on its way
        back from the next character. */
    method LinkEqual(child: Node)
      requires this in Repr && ReprOf(ls) <= Repr && ReprOf(gt) <= Repr
      requires Fits(ls, child, gt)
      requires Model.Branch? && Model.ch == ch && Model.endOfWord == endOfWord
      requires Model.ls == ModelOf(ls) && Model.gt == ModelOf(gt)
      modifies this
      ensures Valid() && eq == child && ls == old(ls) && gt == old(gt)
      ensures Repr == old(Repr) + child.Repr
      ensures Model == old(Model).(eq := child.Model)
    {
      eq, Repr, Model := child, Repr + child.Repr, Model.(eq := child.Model);
    }

    /** Links `child` into the `gt` slot, as `insert_character` does on its way
        back from a greater character. */
    method LinkGreater(child: Node)
      requires this in Repr && ReprOf(ls) <= Repr && ReprOf(eq) <= Repr
      requires Fits(ls, eq, child)
      requires Model.Branch? && Model.ch == ch && Model.endOfWord == endOfWord
      requires Model.ls == ModelOf(ls) && Model.eq == ModelOf(eq)
      modifies this
      ensures Valid() && gt == child && ls == old(ls) && eq == old(eq)
      ensures Repr == old(Repr) + child.Repr
      ensures Model == old(Model).(gt := child.Model)
    {
      gt, Repr, Model := child, Repr + child.Repr, Model.(gt := child.Model);
    }

    /** A node for `c` with no children that ends no word. */
    constructor (c: char)
      ensures Valid() && fresh(Repr) && Repr == {this}
      ensures ch == c && Model == Branch(c, false, Empty, Empty, Empty)
    {
      ch := c;
      endOfWord := false;
      ls, eq, gt := null, null, null;
      Model := Branch(c, false, Empty, Empty, Empty);
      Repr := {this};
    }
  }

  /** The value held in a slot: `Empty` for a missing node. */
  ghost function ModelOf(n: Node?): Tree
    reads n
  {
    if n == null then Empty else n.Model
  }

  /** The nodes owned through a slot. */
  ghost function ReprOf(n: Node?): set<Node>
    reads n
  {
    if n == null then {} else n.Repr
  }

  class TernarySearchTree {
    var root: Node?
    var wordCount: nat

    ghost var Repr: set<object>

    /** The nodes form a well-formed tree and `wordCount` is the number of
        nodes marked as word ends. */
    ghost predicate Valid()
      reads this, Repr
    {
      && this in Repr
      && (root != null ==> root in Repr && root.Repr <= Repr && root.Valid())
      && Repr == {this} + ReprOf(root)
      && WellFormed(ModelOf(root))
      && wordCount == EndCount(ModelOf(root))
    }

    /** The set of stored words. */
    ghost function Contents(): set<string>
      reads this, root
    {
      Words(ModelOf(root))
    }

    constructor ()
      ensures Valid() && fresh(Repr)
      ensures Contents() == {} && Len() == 0 && IsEmpty()
    {
      root := null;
      wordCount := 0;
      Repr := {this};
    }

    /** The number of stored words, which is also the number of nodes marked
        as word ends. */
    function Len(): (n: nat)
      requires Valid()
      reads Repr
      ensures n == |Contents()|
    {
      CountWords(ModelOf(root));
      wordCount
    }

    /** Inserts `word[index..]` below the slot holding `node`, creating a node
        for `word[index]` when the slot is empty, and returns the node to relink
        into that slot. The count grows by one exactly when the last character's
        node was not yet a word end. */
    method InsertCharacter(node: Node?, word: string, index: nat) returns (r: Node)
      requires index < |word|
      requires node != null ==> node.Valid()
      modifies this`wordCount, ReprOf(node)
      ensures r.Valid()
      ensures node != null ==> r == node
      ensures fresh(r.Repr - old(ReprOf(node)))
      ensures r.Model == InsertChar(old(ModelOf(node)), word, index)
      ensures wordCount == old(wordCount) + if Stored(old(ModelOf(node)), word, index) then 0 else 1
      decreases |word| - index, ReprOf(node), 1
    {
      var c := word[index];
      ghost var t := ModelOf(node);
      if node == null {
        r := new Node(c);
      } else {
        r := node;
      }
      if c < r.ch {
        InsertLesser(r, word, index);
      } else if c > r.ch {
        InsertGreater(r, word, index);
      } else if index + 1 == |word| {
        assert Stored(t, word, index) <==> node != null && r.endOfWord;
        if !r.endOfWord {
          wordCount := wordCount + 1;
        }
        r.endOfWord := true;
        r.Model := r.Model.(endOfWord := true);
      } else {
        assert node == null ==> Find(r.Model, word, index) == Find(Empty, word, index + 1);
        InsertEqual(r, word, index);
      }
    }

    /** The `ls` step of insertion: `word[index]` sorts below `n`'s character,
        so it goes into `n`'s `ls` slot at the same position. */
    method InsertLesser(n: Node, word: string, index: nat)
      requires index < |word| && word[index] < n.ch
      requires n.Valid()
      modifies this`wordCount, n.Repr
      ensures n.Valid()
      ensures fresh(n.Repr - old(n.Repr))
      ensures n.Model == InsertChar(old(n.Model), word, index)
      ensures wordCount == old(wordCount) + if Stored(old(n.Model), word, index) then 0 else 1
      decreases |word| - index, n.Repr, 0
    {
      var child := InsertCharacter(n.ls, word, index);
      n.LinkLesser(child);
    }

    /** The `gt` step of insertion: `word[index]` sorts above `n`'s character,
        so it goes into `n`'s `gt` slot at the same position. */
    method InsertGreater(n: Node, word: string, index: nat)
      requires index < |word| && word[index] > n.ch
      requires n.Valid()
      modifies this`wordCount, n.Repr
      ensures n.Valid()
      ensures fresh(n.Repr - old(n.Repr))
      ensures n.Model == InsertChar(old(n.Model), word, index)
      ensures wordCount == old(wordCount) + if Stored(old(n.Model), word, index) then 0 else 1
      decreases |word| - index, n.Repr, 0
    {
      var child := InsertCharacter(n.gt, word, index);
      n.LinkGreater(child);
    }

    /** The `eq` step of insertion: `word[index]` is `n`'s character and is not
        the last one, so the rest of the word goes into `n`'s `eq` slot at the
        next position. */
    method InsertEqual(n: Node, word: string, index: nat)
      requires index + 1 < |word| && word[index] == n.ch
      requires n.Valid()
      modifies this`wordCount, n.Repr
      ensures n.Valid()
      ensures fresh(n.Repr - old(n.Repr))
      ensures n.Model == InsertChar(old(n.Model), word, index)
      ensures wordCount == old(wordCount) + if Stored(old(n.Model), word, index) then 0 else 1
      decreases |word| - (index + 1), ReprOf(n.eq), 2
    {
      var child := InsertCharacter(n.eq, word, index + 1);
      n.LinkEqual(child);
    }

    /** Adds `word` to the stored words; the empty string is ignored. */
    method Insert(word: string)
      requires Valid()
      modifies Repr
      ensures Valid() && fresh(Repr - old(Repr))
      ensures word != [] ==> Contents() == old(Contents()) + {word}
      ensures word != [] ==> Search(word, true) && Search(word)
      ensures word != [] ==> wordCount == old(wordCount) + if word in old(Contents()) then 0 else 1
      ensures word == [] ==> root == old(root) && wordCount == old(wordCount) && Contents() == old(Contents())
      ensures [] !in Contents()
    {
      if word == [] {
        EmptyStringNotStored(ModelOf(root));
        return;
      }
      ghost var before := ModelOf(root);
      root := InsertCharacter(root, word, 0);
      Repr := {this} + root.Repr;
      InsertedValid(before, word);
    }

    /** What holds once `word` has gone in below a root whose value was
        `before`: the invariant again, and the stored words grown by `word`. */
    lemma InsertedValid(before: Tree, word: string)
      requires word != [] && WellFormed(before)
      requires root != null && root.Valid() && Repr == {this} + root.Repr
      requires root.Model == InsertChar(before, word, 0)
      requires wordCount == EndCount(before) + if Stored(before, word, 0) then 0 else 1
      ensures Valid()
      ensures Contents() == Words(before) + {word}
      ensures wordCount == EndCount(before) + if word in Words(before) then 0 else 1
      ensures [] !in Contents()
    {
      assert word[0..] == word;
      EmptyStringNotStored(root.Model);
      InsertWords(before, word, 0);
      InsertEndCount(before, word, 0);
      InsertWellFormed(before, word, 0);
      FindStored(before, word, 0);
    }

    /** The node of the last character of `word[index..]`, reached by the same
        descent as insertion, or null when a slot on the way is empty. */
    function SearchHelper(node: Node?, word: string, index: nat): (r: Node?)
      requires index < |word|
      requires node != null ==> node.Valid()
      reads if node == null then {} else {node} + node.Repr
      ensures r != null ==> r in ReprOf(node) && r.Repr <= ReprOf(node) && r.Valid()
      ensures ModelOf(r) == Find(ModelOf(node), word, index)
      decreases ReprOf(node)
    {
      if node == null then null
      else
        var c := word[index];
        if c < node.ch then SearchHelper(node.ls, word, index)
        else if c > node.ch then SearchHelper(node.gt, word, index)
        else if index + 1 == |word| then node
        else SearchHelper(node.eq, word, index + 1)
    }

    /** With `exact`, whether `word` is stored; without, whether some stored
        word starts with `word`. The empty string is never found. */
    function Search(word: string, exact: bool := false): (found: bool)
      requires Valid()
      reads Repr
      ensures found <==> word != [] && if exact then word in Contents() else HasPrefix(Contents(), word)
    {
      if word == [] then false
      else
        var node := SearchHelper(root, word, 0);
        assert word[0..] == word;
        FindStored(ModelOf(root), word, 0);
        FindPrefix(ModelOf(root), word, 0);
        if node == null then false
        else if exact then node.endOfWord
        else true
    }

    /** The in-order walk below `node`: the `ls` subtree, then the path with
        this node's character appended (emitted if it ends a word), the `eq`
        subtree under that longer path, then the character popped again and
        the `gt` subtree. The path comes back as it went in. */
    static method CollectStrings(node: Node?, path: string, result: seq<string>)
      returns (pathAfter: string, out: seq<string>)
      requires node != null ==> node.Valid()
      ensures pathAfter == path
      ensures out == result + Enumerate(ModelOf(node), path)
      decreases ReprOf(node)
    {
      pathAfter, out := path, result;
      if node != null {
        ghost var t := node.Model;
        ghost var afterLs, afterEnd, afterEq;
        pathAfter, out := CollectStrings(node.ls, pathAfter, out);
        afterLs := out;
        pathAfter := pathAfter + [node.ch];
        if node.endOfWord {
          out := out + [pathAfter];
        }
        afterEnd := out;
        pathAfter, out := CollectStrings(node.eq, pathAfter, out);
        afterEq := out;
        pathAfter := pathAfter[..|pathAfter| - 1];
        assert pathAfter == path;
        pathAfter, out := CollectStrings(node.gt, pathAfter, out);
        EnumerateStep(t, path, result, afterLs, afterEnd, afterEq, out);
      }
    }

    /** Every stored word once, in ascending lexicographic order. */
    method AllStrings() returns (words: seq<string>)
      requires Valid()
      ensures forall w :: w in words <==> w in Contents()
      ensures Sorted(words)
      ensures forall i, j :: 0 <= i < j < |words| ==> words[i] != words[j]
      ensures |words| == Len()
    {
      var path;
      path, words := CollectStrings(root, [], []);
      forall w ensures w in words <==> w in Contents() {
        EnumerateMember(ModelOf(root), [], w);
        assert w[0..] == w;
      }
      EnumerateSorted(ModelOf(root), []);
      SortedDistinct(words);
      EnumerateLength(ModelOf(root), []);
      CountWords(ModelOf(root));
    }

    /** No node is held; no word is stored. */
    function IsEmpty(): (empty: bool)
      requires Valid()
      reads Repr
      ensures empty <==> Contents() == {}
      ensures empty <==> Len() == 0
    {
      ProductiveNonEmpty(ModelOf(root));
      root == null
    }

    /** Drops every node and resets the count. */
    method Clear()
      requires Valid()
      modifies this
      ensures Valid() && fresh(Repr - old(Repr))
      ensures Contents() == {} && Len() == 0 && IsEmpty()
    {
      root := null;
      wordCount := 0;
      Repr := {this};
    }
  }
}
