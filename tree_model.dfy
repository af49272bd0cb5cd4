/** The value view of a ternary search tree.

    A `Tree` is what one node slot of the tree holds, read as a value: the node's
    character, its end-of-word flag and its three children. A subtree stands at
    some character position of the words it stores, so `Words(t)` is the set of
    word suffixes that start at that position. The heap classes in module
    `TernarySearch` keep one `Tree` per node as a ghost model and are proved
    against the functions below. */
module TreeModel {

  /** One node slot, as a value: `ls` holds characters below `ch` at the same
      position, `eq` the next position, `gt` characters above `ch`. */
  datatype Tree =
    | Empty
    | Branch(ch: char, endOfWord: bool, ls: Tree, eq: Tree, gt: Tree)

  /** `s` with `c` in front of every word. */
  function Prepend(c: char, s: set<string>): set<string> {
    set w | w in s :: [c] + w
  }

  /** The suffixes stored in `t`: a node contributes its own character when it
      ends a word, and its character in front of every suffix below `eq`. */
  function Words(t: Tree): set<string> {
    match t
    case Empty => {}
    case Branch(c, e, l, q, g) =>
      Words(l) + (if e then {[c]} else {}) + Prepend(c, Words(q)) + Words(g)
  }

  /** The characters at the position of `t`: its own and those along its `ls`
      and `gt` chains. */
  function Level(t: Tree): set<char> {
    match t
    case Empty => {}
    case Branch(c, _, l, _, g) => Level(l) + {c} + Level(g)
  }

  /** Every character in a node's `ls` chain is below the node's character and
      every one in its `gt` chain above it, at every node. */
  predicate Ordered(t: Tree) {
    match t
    case Empty => true
    case Branch(c, _, l, q, g) =>
      && (forall x :: x in Level(l) ==> x < c)
      && (forall x :: x in Level(g) ==> c < x)
      && Ordered(l) && Ordered(q) && Ordered(g)
  }

  /** Every node ends a word or continues into a non-empty `eq` slot. */
  predicate Productive(t: Tree) {
    match t
    case Empty => true
    case Branch(_, e, l, q, g) =>
      && (e || q != Empty)
      && Productive(l) && Productive(q) && Productive(g)
  }

  /** The invariant the tree keeps between operations. */
  predicate WellFormed(t: Tree) {
    Ordered(t) && Productive(t)
  }

  /** The subtree that inserting `w[i..]` into `t` leaves in `t`'s slot: a missing
      node is created for `w[i]`, and the descent goes `ls` or `gt` on a smaller
      or greater character and `eq` on an equal one, until the last character's
      node is marked as a word end. */
  function InsertChar(t: Tree, w: string, i: nat): (r: Tree)
    requires i < |w|
    decreases |w| - i, t
    ensures r != Empty
  {
    match t
    case Empty =>
      if i + 1 == |w| then Branch(w[i], true, Empty, Empty, Empty)
      else Branch(w[i], false, Empty, InsertChar(Empty, w, i + 1), Empty)
    case Branch(c, e, l, q, g) =>
      if w[i] < c then Branch(c, e, InsertChar(l, w, i), q, g)
      else if w[i] > c then Branch(c, e, l, q, InsertChar(g, w, i))
      else if i + 1 == |w| then Branch(c, true, l, q, g)
      else Branch(c, e, l, InsertChar(q, w, i + 1), g)
  }

  /** The subtree whose node holds the last character of `w[i..]`, reached by the
      same descent as insertion, or `Empty` when a slot on the way is empty. */
  function Find(t: Tree, w: string, i: nat): Tree
    requires i < |w|
    decreases t
  {
    match t
    case Empty => Empty
    case Branch(c, _, l, q, g) =>
      if w[i] < c then Find(l, w, i)
      else if w[i] > c then Find(g, w, i)
      else if i + 1 == |w| then t
      else Find(q, w, i + 1)
  }

  /** The descent for `w[i..]` ends on a node that is marked as a word end. */
  predicate Stored(t: Tree, w: string, i: nat)
    requires i < |w|
  {
    var n := Find(t, w, i);
    n.Branch? && n.endOfWord
  }

  /** Some word of `s` starts with `p`. */
  ghost predicate HasPrefix(s: set<string>, p: string) {
    exists x :: x in s && p <= x
  }

  /** The number of nodes of `t` marked as word ends. */
  function EndCount(t: Tree): nat {
    match t
    case Empty => 0
    case Branch(_, e, l, q, g) =>
      EndCount(l) + (if e then 1 else 0) + EndCount(q) + EndCount(g)
  }

  /** The words an in-order walk of `t` emits when `path` spells the characters
      above `t`: the `ls` subtree, this node's word, the `eq` subtree with this
      node's character added to the path, then the `gt` subtree. */
  function Enumerate(t: Tree, path: string): seq<string> {
    match t
    case Empty => []
    case Branch(c, e, l, q, g) =>
      Enumerate(l, path)
      + (if e then [path + [c]] else [])
      + Enumerate(q, path + [c])
      + Enumerate(g, path)
  }

  /** Strict lexicographic order on strings, character by character. */
  predicate Less(a: string, b: string)
    decreases |a|
  {
    |b| > 0 && (|a| == 0 || a[0] < b[0] || (a[0] == b[0] && Less(a[1..], b[1..])))
  }

  /** Strictly ascending in lexicographic order. */
  predicate Sorted(s: seq<string>) {
    forall i, j :: 0 <= i < j < |s| ==> Less(s[i], s[j])
  }
}
