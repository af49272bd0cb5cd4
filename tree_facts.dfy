/** What the value view of a ternary search tree guarantees: insertion adds
    exactly one word and keeps the tree well formed, the descent finds exactly
    the stored words and their prefixes, the word-end count is the number of
    words, and the in-order walk lists the words once each in ascending order. */
module TreeFacts {
  import opened TreeModel

  // ---------------------------------------------------------------------------
  // Prepending a character

  lemma PrependMember(c: char, s: set<string>, x: string)
    ensures x in Prepend(c, s) <==> |x| > 0 && x[0] == c && x[1..] in s
  {
    if |x| > 0 && x[0] == c && x[1..] in s {
      assert [c] + x[1..] == x;
    }
    if x in Prepend(c, s) {
      var y :| y in s && x == [c] + y;
      assert x[1..] == y;
    }
  }

  lemma PrependAdd(c: char, s: set<string>, y: string)
    ensures Prepend(c, s + {y}) == Prepend(c, s) + {[c] + y}
  {
  }

  lemma {:induction false} PrependCard(c: char, s: set<string>)
    ensures |Prepend(c, s)| == |s|
    decreases |s|
  {
    if s != {} {
      var y :| y in s;
      var rest := s - {y};
      PrependCard(c, rest);
      assert s == rest + {y};
      PrependAdd(c, rest, y);
      PrependMember(c, rest, [c] + y);
      assert ([c] + y)[1..] == y;
    }
  }

  // ---------------------------------------------------------------------------
  // Shape of the stored words

  /** Every stored suffix is non-empty and starts with a character of the
      subtree's own position. */
  lemma {:induction false} WordStartsAtLevel(t: Tree, w: string)
    requires w in Words(t)
    ensures |w| > 0 && w[0] in Level(t)
  {
    match t
    case Branch(c, e, l, q, g) =>
      if w in Words(l) {
        WordStartsAtLevel(l, w);
      } else if w in Words(g) {
        WordStartsAtLevel(g, w);
      } else if w in Prepend(c, Words(q)) {
        PrependMember(c, Words(q), w);
      }
  }

  /** The empty string is never stored. */
  lemma EmptyStringNotStored(t: Tree)
    ensures [] !in Words(t)
  {
    if [] in Words(t) {
      WordStartsAtLevel(t, []);
    }
  }

  /** A productive subtree stores a word exactly when it is a node. */
  lemma {:induction false} ProductiveNonEmpty(t: Tree)
    requires Productive(t)
    ensures Words(t) == {} <==> t == Empty
  {
    match t
    case Empty =>
    case Branch(c, e, l, q, g) =>
      if e {
        assert [c] in Words(t);
      } else {
        ProductiveNonEmpty(q);
        var y :| y in Words(q);
        PrependMember(c, Words(q), [c] + y);
        assert ([c] + y)[1..] == y;
        assert [c] + y in Words(t);
      }
  }

  // ---------------------------------------------------------------------------
  // Insertion

  /** Inserting `w[i..]` adds exactly that suffix to the stored words. */
  lemma {:induction false} InsertWords(t: Tree, w: string, i: nat)
    requires i < |w|
    ensures Words(InsertChar(t, w, i)) == Words(t) + {w[i..]}
    decreases |w| - i, t
  {
    match t
    case Empty =>
      if i + 1 == |w| {
        assert w[i..] == [w[i]];
      } else {
        InsertWords(Empty, w, i + 1);
        PrependAdd(w[i], {}, w[i + 1..]);
        assert [w[i]] + w[i + 1..] == w[i..];
      }
    case Branch(c, e, l, q, g) =>
      if w[i] < c {
        InsertWords(l, w, i);
      } else if w[i] > c {
        InsertWords(g, w, i);
      } else if i + 1 == |w| {
        assert w[i..] == [c];
      } else {
        InsertWords(q, w, i + 1);
        PrependAdd(c, Words(q), w[i + 1..]);
        assert [c] + w[i + 1..] == w[i..];
      }
  }

  /** Inserting `w[i..]` adds `w[i]` to the characters at `t`'s position. */
  lemma {:induction false} InsertLevel(t: Tree, w: string, i: nat)
    requires i < |w|
    ensures Level(InsertChar(t, w, i)) == Level(t) + {w[i]}
    decreases t
  {
    match t
    case Empty =>
    case Branch(c, e, l, q, g) =>
      if w[i] < c {
        InsertLevel(l, w, i);
      } else if w[i] > c {
        InsertLevel(g, w, i);
      }
  }

  /** Insertion keeps the ordering and the no-dead-end invariants. */
  lemma {:induction false} InsertWellFormed(t: Tree, w: string, i: nat)
    requires i < |w|
    requires WellFormed(t)
    ensures WellFormed(InsertChar(t, w, i))
    decreases |w| - i, t
  {
    match t
    case Empty =>
      if i + 1 < |w| {
        InsertWellFormed(Empty, w, i + 1);
      }
    case Branch(c, e, l, q, g) =>
      if w[i] < c {
        InsertWellFormed(l, w, i);
        InsertLevel(l, w, i);
      } else if w[i] > c {
        InsertWellFormed(g, w, i);
        InsertLevel(g, w, i);
      } else if i + 1 < |w| {
        InsertWellFormed(q, w, i + 1);
      }
  }

  /** Insertion marks one more node as a word end exactly when the descent for
      `w[i..]` did not already end on a marked node. */
  lemma {:induction false} InsertEndCount(t: Tree, w: string, i: nat)
    requires i < |w|
    ensures EndCount(InsertChar(t, w, i)) == EndCount(t) + if Stored(t, w, i) then 0 else 1
    decreases |w| - i, t
  {
    match t
    case Empty =>
      if i + 1 < |w| {
        InsertEndCount(Empty, w, i + 1);
      }
    case Branch(c, e, l, q, g) =>
      if w[i] < c {
        InsertEndCount(l, w, i);
      } else if w[i] > c {
        InsertEndCount(g, w, i);
      } else if i + 1 < |w| {
        InsertEndCount(q, w, i + 1);
      }
  }

  // ---------------------------------------------------------------------------
  // Search

  /** Where the first character of a stored suffix lies decides which part of a
      node it belongs to. */
  lemma SplitByFirst(c: char, e: bool, l: Tree, q: Tree, g: Tree, x: string)
    requires Ordered(Branch(c, e, l, q, g))
    requires x in Words(Branch(c, e, l, q, g))
    ensures |x| > 0
    ensures x[0] < c ==> x in Words(l)
    ensures x[0] > c ==> x in Words(g)
    ensures x[0] == c ==> (x == [c] && e) || (|x| > 1 && x[1..] in Words(q))
  {
    if x in Words(l) {
      WordStartsAtLevel(l, x);
    } else if x in Words(g) {
      WordStartsAtLevel(g, x);
    } else if x in Prepend(c, Words(q)) {
      PrependMember(c, Words(q), x);
      WordStartsAtLevel(q, x[1..]);
    }
  }

  /** The descent ends on a word-end node exactly for the stored suffixes. */
  lemma {:induction false} FindStored(t: Tree, w: string, i: nat)
    requires i < |w|
    requires Ordered(t)
    ensures Stored(t, w, i) <==> w[i..] in Words(t)
    decreases t
  {
    match t
    case Empty =>
    case Branch(c, e, l, q, g) =>
      var s := w[i..];
      assert s[0] == w[i];
      if s in Words(t) {
        SplitByFirst(c, e, l, q, g, s);
      }
      if w[i] < c {
        FindStored(l, w, i);
      } else if w[i] > c {
        FindStored(g, w, i);
      } else if i + 1 == |w| {
        assert s == [c];
      } else {
        FindStored(q, w, i + 1);
        assert s[1..] == w[i + 1..];
        PrependMember(c, Words(q), s);
      }
  }

  /** The descent reaches a node exactly when `w[i..]` starts some stored
      suffix. */
  lemma {:induction false} FindPrefix(t: Tree, w: string, i: nat)
    requires i < |w|
    requires WellFormed(t)
    ensures Find(t, w, i) != Empty <==> HasPrefix(Words(t), w[i..])
    decreases t
  {
    match t
    case Empty =>
    case Branch(c, e, l, q, g) =>
      var s := w[i..];
      if HasPrefix(Words(t), s) {
        var x :| x in Words(t) && s <= x;
        SplitByFirst(c, e, l, q, g, x);
        assert x[0] == w[i];
        if w[i] < c {
          FindPrefix(l, w, i);
          assert HasPrefix(Words(l), s);
        } else if w[i] > c {
          FindPrefix(g, w, i);
          assert HasPrefix(Words(g), s);
        } else if i + 1 < |w| {
          FindPrefix(q, w, i + 1);
          assert w[i + 1..] <= x[1..];
          assert HasPrefix(Words(q), w[i + 1..]);
        }
      }
      if Find(t, w, i) != Empty {
        if w[i] < c {
          FindPrefix(l, w, i);
        } else if w[i] > c {
          FindPrefix(g, w, i);
        } else if i + 1 == |w| {
          assert s == [c];
          if e {
            assert [c] in Words(t);
          } else {
            ProductiveNonEmpty(q);
            var y :| y in Words(q);
            PrependMember(c, Words(q), [c] + y);
            assert ([c] + y)[1..] == y;
            assert [c] + y in Words(t);
          }
        } else {
          FindPrefix(q, w, i + 1);
          var y :| y in Words(q) && w[i + 1..] <= y;
          PrependMember(c, Words(q), [c] + y);
          assert ([c] + y)[1..] == y;
          assert s == [c] + w[i + 1..];
          assert [c] + y in Words(t);
        }
      }
  }

  // ---------------------------------------------------------------------------
  // Counting

  /** The four parts of a node's words are pairwise disjoint in an ordered
      tree. */
  lemma PartsDisjoint(c: char, e: bool, l: Tree, q: Tree, g: Tree)
    requires Ordered(Branch(c, e, l, q, g))
    ensures Words(l) !! (if e then {[c]} else {})
    ensures Words(l) !! Prepend(c, Words(q))
    ensures Words(l) !! Words(g)
    ensures (if e then {[c]} else {}) !! Prepend(c, Words(q))
    ensures (if e then {[c]} else {}) !! Words(g)
    ensures Prepend(c, Words(q)) !! Words(g)
  {
    forall x | x in Words(l) ensures |x| > 0 && x[0] < c {
      WordStartsAtLevel(l, x);
    }
    forall x | x in Words(g) ensures |x| > 0 && x[0] > c {
      WordStartsAtLevel(g, x);
    }
    forall x | x in Prepend(c, Words(q)) ensures |x| > 1 && x[0] == c {
      PrependMember(c, Words(q), x);
      WordStartsAtLevel(q, x[1..]);
    }
  }

  lemma DisjointCard(a: set<string>, b: set<string>, c: set<string>, d: set<string>)
    requires a !! b && a !! c && a !! d && b !! c && b !! d && c !! d
    ensures |a + b + c + d| == |a| + |b| + |c| + |d|
  {
  }

  /** In an ordered tree the word-end nodes and the stored suffixes are in
      one-to-one correspondence. */
  lemma {:induction false} CountWords(t: Tree)
    requires Ordered(t)
    ensures |Words(t)| == EndCount(t)
  {
    match t
    case Empty =>
    case Branch(c, e, l, q, g) =>
      CountWords(l);
      CountWords(q);
      CountWords(g);
      PrependCard(c, Words(q));
      PartsDisjoint(c, e, l, q, g);
      DisjointCard(Words(l), if e then {[c]} else {}, Prepend(c, Words(q)), Words(g));
  }

  // ---------------------------------------------------------------------------
  // Enumeration

  /** The walk below `path` emits exactly `path` followed by each stored
      suffix. */
  lemma {:induction false} EnumerateMember(t: Tree, path: string, x: string)
    ensures x in Enumerate(t, path) <==> path <= x && x[|path|..] in Words(t)
    decreases t
  {
    match t
    case Empty =>
    case Branch(c, e, l, q, g) =>
      EnumerateMember(l, path, x);
      EnumerateMember(q, path + [c], x);
      EnumerateMember(g, path, x);
      if path <= x {
        var s := x[|path|..];
        assert x == path + s;
        PrependMember(c, Words(q), s);
        if |s| > 0 {
          assert s[1..] == x[|path| + 1..];
          assert path + [c] <= x <==> s[0] == c;
          assert x == path + [c] <==> s == [c];
        } else {
          assert !(path + [c] <= x);
        }
      } else {
        assert !(path + [c] <= x);
      }
  }

  lemma SeqAssoc<T>(a: seq<T>, b: seq<T>, c: seq<T>, d: seq<T>, e: seq<T>)
    ensures a + b + c + d + e == a + (b + c + d + e)
  {
  }

  /** One node of the walk: after the `ls` subtree, this node's word, the `eq`
      subtree and the `gt` subtree have been appended to `result`, the whole of
      the node's walk has. */
  lemma EnumerateStep(t: Tree, path: string, result: seq<string>,
                      afterLs: seq<string>, afterEnd: seq<string>, afterEq: seq<string>, afterGt: seq<string>)
    requires t.Branch?
    requires afterLs == result + Enumerate(t.ls, path)
    requires afterEnd == afterLs + (if t.endOfWord then [path + [t.ch]] else [])
    requires afterEq == afterEnd + Enumerate(t.eq, path + [t.ch])
    requires afterGt == afterEq + Enumerate(t.gt, path)
    ensures afterGt == result + Enumerate(t, path)
  {
    var el, ee, eq, eg := Enumerate(t.ls, path), (if t.endOfWord then [path + [t.ch]] else []),
                          Enumerate(t.eq, path + [t.ch]), Enumerate(t.gt, path);
    assert Enumerate(t, path) == el + ee + eq + eg;
    SeqAssoc(result, el, ee, eq, eg);
  }

  /** The walk emits one string per word-end node. */
  lemma {:induction false} EnumerateLength(t: Tree, path: string)
    ensures |Enumerate(t, path)| == EndCount(t)
    decreases t
  {
    match t
    case Empty =>
    case Branch(c, e, l, q, g) =>
      EnumerateLength(l, path);
      EnumerateLength(q, path + [c]);
      EnumerateLength(g, path);
  }

  /** Every string the walk emits extends `path` by a character of `t`'s
      position. */
  lemma EnumeratePosition(t: Tree, path: string, x: string)
    requires x in Enumerate(t, path)
    ensures |x| > |path| && x[..|path|] == path && x[|path|] in Level(t)
  {
    EnumerateMember(t, path, x);
    WordStartsAtLevel(t, x[|path|..]);
  }

  /** Strings that agree up to `k` and differ there are ordered by that
      character. */
  lemma {:induction false} LessAt(x: string, y: string, k: nat)
    requires k < |x| && k < |y| && x[..k] == y[..k] && x[k] < y[k]
    ensures Less(x, y)
    decreases k
  {
    if k > 0 {
      assert x[0] == x[..k][0] == y[..k][0] == y[0];
      assert x[1..][..k - 1] == x[..k][1..] == y[..k][1..] == y[1..][..k - 1];
      LessAt(x[1..], y[1..], k - 1);
    }
  }

  /** A proper prefix comes first. */
  lemma {:induction false} LessPrefix(x: string, y: string)
    requires x < y
    ensures Less(x, y)
    decreases |x|
  {
    if |x| > 0 {
      assert x[1..] < y[1..];
      LessPrefix(x[1..], y[1..]);
    }
  }

  /** No string comes before itself. */
  lemma {:induction false} LessIrreflexive(x: string)
    ensures !Less(x, x)
    decreases |x|
  {
    if |x| > 0 {
      LessIrreflexive(x[1..]);
    }
  }

  /** A strictly ascending sequence holds no string twice. */
  lemma SortedDistinct(s: seq<string>)
    requires Sorted(s)
    ensures forall i, j :: 0 <= i < j < |s| ==> s[i] != s[j]
  {
    forall i, j | 0 <= i < j < |s| ensures s[i] != s[j] {
      LessIrreflexive(s[i]);
    }
  }

  lemma SortedConcat(a: seq<string>, b: seq<string>)
    requires Sorted(a) && Sorted(b)
    requires forall x, y :: x in a && y in b ==> Less(x, y)
    ensures Sorted(a + b)
  {
  }

  /** The four parts of a node's walk, each ascending and each confined to its
      own range of characters at position `|p|`, are ascending together. */
  lemma SortedParts(p: string, c: char, el: seq<string>, ee: seq<string>, eq: seq<string>, eg: seq<string>)
    requires Sorted(el) && Sorted(eq) && Sorted(eg)
    requires ee == [] || ee == [p + [c]]
    requires forall x :: x in el ==> |x| > |p| && x[..|p|] == p && x[|p|] < c
    requires forall x :: x in eq ==> |x| > |p| + 1 && x[..|p| + 1] == p + [c]
    requires forall x :: x in eg ==> |x| > |p| && x[..|p|] == p && x[|p|] > c
    ensures Sorted(el + ee + eq + eg)
  {
    forall x | x in ee + eq ensures |x| > |p| && x[..|p|] == p && x[|p|] == c {
      if x in eq {
        assert x[..|p|] == x[..|p| + 1][..|p|];
        assert x[|p|] == x[..|p| + 1][|p|];
      }
    }
    forall x, y | x in el && y in ee ensures Less(x, y) {
      LessAt(x, y, |p|);
    }
    SortedConcat(el, ee);
    forall x, y | x in el + ee && y in eq ensures Less(x, y) {
      if x in el {
        LessAt(x, y, |p|);
      } else {
        assert x == p + [c] == y[..|p| + 1];
        LessPrefix(x, y);
      }
    }
    SortedConcat(el + ee, eq);
    forall x, y | x in el + ee + eq && y in eg ensures Less(x, y) {
      LessAt(x, y, |p|);
    }
    SortedConcat(el + ee + eq, eg);
  }

  /** In an ordered tree the walk emits its strings in strictly ascending
      lexicographic order. */
  lemma {:induction false} EnumerateSorted(t: Tree, path: string)
    requires Ordered(t)
    ensures Sorted(Enumerate(t, path))
    decreases t
  {
    match t
    case Empty =>
    case Branch(c, e, l, q, g) =>
      EnumerateSorted(l, path);
      EnumerateSorted(q, path + [c]);
      EnumerateSorted(g, path);
      forall x | x in Enumerate(l, path) ensures |x| > |path| && x[..|path|] == path && x[|path|] < c {
        EnumeratePosition(l, path, x);
      }
      forall x | x in Enumerate(q, path + [c]) ensures |x| > |path| + 1 && x[..|path| + 1] == path + [c] {
        EnumeratePosition(q, path + [c], x);
      }
      forall x | x in Enumerate(g, path) ensures |x| > |path| && x[..|path|] == path && x[|path|] > c {
        EnumeratePosition(g, path, x);
      }
      SortedParts(path, c, Enumerate(l, path), if e then [path + [c]] else [],
                  Enumerate(q, path + [c]), Enumerate(g, path));
  }
}
