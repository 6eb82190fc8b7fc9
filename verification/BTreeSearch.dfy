/**
 What `search` of 29/btree.c finds after any sequence of puts, and which value that is when a
 key was put more than once.
 */
module BTreeSearch {
  import opened Wrappers
  import opened BTree

  // ---------------------------------------------------------------- search

  lemma {:induction false} FindFinds(pairs: seq<Pair>, key: Key)
    ensures Find(pairs, key).Some? <==> exists i :: 0 <= i < |pairs| && pairs[i].key == key
    ensures Find(pairs, key).Some? ==> Pair(key, Find(pairs, key).value) in pairs
  {
    if pairs != [] && pairs[0].key != key {
      FindFinds(pairs[1..], key);
      assert forall i :: 0 < i < |pairs| ==> pairs[i] == pairs[1..][i - 1];
    }
  }

  ghost predicate Holds(ps: seq<Pair>, key: Key) {
    exists i :: 0 <= i < |ps| && ps[i].key == key
  }

  /** In a sorted tree, search finds a key exactly if the tree holds it, with a value put under it. */
  lemma {:induction false} SearchFinds(node: Node, key: Key, ht: nat)
    requires Shaped(node, ht) && Sorted(Inorder(node))
    ensures Search(node, key).Some? <==> Holds(Inorder(node), key)
    ensures Search(node, key).Some? ==> Pair(key, Search(node, key).value) in Inorder(node)
  {
    match node
    case Leaf(pairs) =>
      FindFinds(pairs, key);
    case Inner(kids) =>
      hide Route, Sorted, Holds;
      var j := Route(kids, key);
      var a, b, c := InorderKids(kids[..j]), Inorder(kids[j].child), InorderKids(kids[j + 1..]);
      InorderAround(kids, j);
      SortedParts(a, b, c);
      RouteSeparates(kids, key, ht);
      SearchFinds(kids[j].child, key, ht - 1);
      assert j == 0 ==> kids[..j] == [];
      HeldByRouted(a, b, c, key);
  }

  lemma HeldByRouted(a: seq<Pair>, b: seq<Pair>, c: seq<Pair>, key: Key)
    requires Sorted(a + b + c) && b != [] && (a != [] ==> Leq(b[0].key, key)) && (c != [] ==> Less(key, c[0].key))
    ensures Holds(a + b + c, key) <==> Holds(b, key)
    ensures forall x :: x in b ==> x in a + b + c
  {
    hide Less;
    var s := a + b + c;
    if Holds(s, key) {
      var i :| 0 <= i < |s| && s[i].key == key;
      if i < |a| {
        assert s[|a|] == b[0] && Leq(s[i].key, s[|a|].key);
        LessTotal(key, b[0].key);
        assert b[0].key == key;
      } else if i < |a| + |b| {
        assert b[i - |a|].key == key;
      } else {
        assert s[|a| + |b|] == c[0];
        LessTotal(key, c[0].key);
        OrderFacts(key, c[0].key, s[i].key);
      }
    }
    if Holds(b, key) {
      var i :| 0 <= i < |b| && b[i].key == key;
      assert s[|a| + i].key == key;
    }
  }

  // ---------------------------------------------------------------- the tree as a symbol table

  /** No key occurs twice. */
  ghost predicate DistinctKeys(ps: seq<Pair>) {
    forall i, j :: 0 <= i < j < |ps| ==> ps[i].key != ps[j].key
  }

  function Without(s: seq<Pair>, i: nat): (r: seq<Pair>)
    requires i < |s|
    ensures |r| == |s| - 1
  {
    s[..i] + s[i + 1..]
  }

  lemma WithoutOne(s: seq<Pair>, i: nat)
    requires i < |s|
    ensures multiset(Without(s, i)) == multiset(s) - multiset{s[i]}
    ensures forall m :: 0 <= m < |s| - 1 ==> Without(s, i)[m] == s[if m < i then m else m + 1]
  {
    assert s == s[..i] + [s[i]] + s[i + 1..];
  }

  lemma FindPair(s: seq<Pair>, x: Pair) returns (k: nat)
    requires x in multiset(s)
    ensures k < |s| && s[k] == x
  {
    k :| 0 <= k < |s| && s[k] == x;
  }

  /** A pair of positions in one sequence has a counterpart in any rearrangement of it. */
  lemma SameTwo(a: seq<Pair>, b: seq<Pair>, i: nat, j: nat) returns (k: nat, l: nat)
    requires multiset(a) == multiset(b) && i < j < |a|
    ensures k < |b| && l < |b| && k != l && b[k] == a[i] && b[l] == a[j]
  {
    hide Without;
    k := FindPair(b, a[i]);
    WithoutOne(a, i);
    WithoutOne(b, k);
    assert Without(a, i)[j - 1] == a[j] && a[j] in multiset(Without(a, i));
    var m := FindPair(Without(b, k), a[j]);
    l := if m < k then m else m + 1;
  }

  lemma DistinctInAnyOrder(a: seq<Pair>, b: seq<Pair>)
    requires multiset(a) == multiset(b) && DistinctKeys(b)
    ensures DistinctKeys(a)
  {
    forall i, j | 0 <= i < j < |a| ensures a[i].key != a[j].key {
      var k, l := SameTwo(a, b, i, j);
    }
  }

  /** A put never overwrites: the tree holds one pair per key if and only if no key was put twice. */
  lemma OnePairPerKeyIff(puts: seq<Pair>)
    ensures DistinctKeys(Inorder(After(puts).root)) <==> DistinctKeys(puts)
  {
    hide After, Inorder, DistinctKeys;
    PutsHold(puts);
    var held := Inorder(After(puts).root);
    if DistinctKeys(puts) { DistinctInAnyOrder(held, puts); }
    if DistinctKeys(held) { DistinctInAnyOrder(puts, held); }
  }

  /** After the second put of a key, search still finds the first value. */
  lemma NotOverwritten()
    ensures Search(After([Pair("b", "1"), Pair("b", "2")]).root, "b") == Some("1")
  {
    var p, q := Pair("b", "1"), Pair("b", "2");
    assert [p, q][..1] == [p] && [p][..0] == [];
    assert After([]) == EMPTY && InsertAt([], 0, p) == [p];
    assert After([p]) == Put(EMPTY, Some("b"), "1") == Tree(Leaf([p]), 0, 1);
    assert PairKeys([p]) == ["b"];
    assert InsertAt([p], 1, q) == [p, q];
  }

  /**
   Search over any sequence of puts that leaves the leaves sorted: a key is found if and only if it was put,
   with a value put under it; if no key was put twice, that is its only value.
   */
  lemma SearchAfterPuts(puts: seq<Pair>, key: Key)
    requires EmptyKeyFirst(puts)
    ensures Search(After(puts).root, key).Some? <==> Holds(puts, key)
    ensures Search(After(puts).root, key).Some? ==> Pair(key, Search(After(puts).root, key).value) in puts
    ensures forall i :: 0 <= i < |puts| && puts[i].key == key && DistinctKeys(puts) ==>
              Search(After(puts).root, key) == Some(puts[i].val)
  {
    hide After, Inorder, Search, Sorted, Shaped;
    var t := After(puts);
    SortedIff(puts);
    PutsHold(puts);
    SearchFinds(t.root, key, t.height);
    if Holds(Inorder(t.root), key) { SameKeys(Inorder(t.root), puts, key); }
    if Holds(puts, key) { SameKeys(puts, Inorder(t.root), key); }
    if Search(t.root, key).Some? {
      var x := Pair(key, Search(t.root, key).value);
      assert x in multiset(puts);
      var k :| 0 <= k < |puts| && puts[k] == x;
    }
  }

  lemma SameKeys(a: seq<Pair>, b: seq<Pair>, key: Key)
    requires multiset(a) == multiset(b) && Holds(a, key)
    ensures Holds(b, key)
  {
    var i :| 0 <= i < |a| && a[i].key == key;
    assert a[i] in multiset(b);
    var k :| 0 <= k < |b| && b[k] == a[i];
  }

  // ---------------------------------------------------------------- which leaf is searched

  /** The leaves in order. */
  ghost function Leaves(node: Node): seq<seq<Pair>>
    decreases node, 1
  {
    match node
    case Leaf(pairs) => [pairs]
    case Inner(kids) => LeavesOf(kids)
  }

  ghost function LeavesOf(kids: seq<Kid>): seq<seq<Pair>>
    decreases kids, 0
  {
    if kids == [] then [] else Leaves(kids[0].child) + LeavesOf(kids[1..])
  }

  lemma {:induction false} LeavesSplit(kids: seq<Kid>, j: nat)
    requires j <= |kids|
    ensures LeavesOf(kids) == LeavesOf(kids[..j]) + LeavesOf(kids[j..])
  {
    if j > 0 {
      LeavesSplit(kids[1..], j - 1);
      assert kids[..j][1..] == kids[1..][..j - 1];
      assert kids[1..][j - 1..] == kids[j..];
    } else {
      assert kids[j..] == kids;
    }
  }

  lemma LeavesAround(kids: seq<Kid>, j: nat)
    requires j < |kids|
    ensures LeavesOf(kids) == LeavesOf(kids[..j]) + Leaves(kids[j].child) + LeavesOf(kids[j + 1..])
  {
    LeavesSplit(kids, j);
    assert kids[j..][1..] == kids[j + 1..];
  }

  /** The leaf a key is routed to, and its position among the leaves. */
  ghost function RoutedLeaf(node: Node, key: Key): seq<Pair> {
    match node
    case Leaf(pairs) => pairs
    case Inner(kids) => if kids == [] then [] else RoutedLeaf(kids[Route(kids, key)].child, key)
  }

  ghost function LeafIndex(node: Node, key: Key): nat {
    match node
    case Leaf(_) => 0
    case Inner(kids) =>
      if kids == [] then 0
      else
        var j := Route(kids, key);
        |LeavesOf(kids[..j])| + LeafIndex(kids[j].child, key)
  }

  lemma {:induction false} SearchesRoutedLeaf(node: Node, key: Key)
    ensures Search(node, key) == Find(RoutedLeaf(node, key), key)
  {
    hide Route;
    if node.Inner? && node.kids != [] {
      SearchesRoutedLeaf(node.kids[Route(node.kids, key)].child, key);
    }
  }

  lemma {:induction false} LeafAt(node: Node, key: Key, ht: nat)
    requires Shaped(node, ht)
    ensures LeafIndex(node, key) < |Leaves(node)| && Leaves(node)[LeafIndex(node, key)] == RoutedLeaf(node, key)
  {
    hide Route;
    if node.Inner? {
      var j := Route(node.kids, key);
      LeafAt(node.kids[j].child, key, ht - 1);
      LeavesAround(node.kids, j);
    }
  }

  /** Every pair of a leaf is one of the tree's pairs. */
  lemma {:induction false} InSomeLeaf(kids: seq<Kid>, l: nat, x: Pair)
    requires l < |LeavesOf(kids)| && x in LeavesOf(kids)[l]
    ensures x in InorderKids(kids)
    decreases kids, 0
  {
    var first := Leaves(kids[0].child);
    if l < |first| {
      InLeaf(kids[0].child, l, x);
    } else {
      InSomeLeaf(kids[1..], l - |first|, x);
    }
  }

  lemma {:induction false} InLeaf(node: Node, l: nat, x: Pair)
    requires l < |Leaves(node)| && x in Leaves(node)[l]
    ensures x in Inorder(node)
    decreases node, 1
  {
    if node.Inner? { InSomeLeaf(node.kids, l, x); }
  }

  /** Leaf l holds the key, and no later one does. */
  ghost predicate LastHolder(leaves: seq<seq<Pair>>, l: nat, key: Key) {
    l < |leaves| && Holds(leaves[l], key) && NoneAfter(leaves, l, key)
  }

  ghost predicate NoneAfter(leaves: seq<seq<Pair>>, l: nat, key: Key) {
    forall m :: l < m < |leaves| ==> !Holds(leaves[m], key)
  }

  /** In a sorted tree no leaf after the one a key is routed to holds the key. */
  lemma {:induction false} RoutedToLast(node: Node, key: Key, ht: nat)
    requires Shaped(node, ht) && Sorted(Inorder(node))
    ensures NoneAfter(Leaves(node), LeafIndex(node, key), key)
  {
    hide Route, Less, Sorted, Holds;
    match node
    case Leaf(_) =>
    case Inner(kids) =>
      var j := Route(kids, key);
      var a, b, c := InorderKids(kids[..j]), Inorder(kids[j].child), InorderKids(kids[j + 1..]);
      InorderAround(kids, j);
      SortedParts(a, b, c);
      RouteSeparates(kids, key, ht);
      RoutedToLast(kids[j].child, key, ht - 1);
      LeafAt(kids[j].child, key, ht - 1);
      LeavesAround(kids, j);
      var later := LeavesOf(kids[j + 1..]);
      forall m | 0 <= m < |later| ensures !Holds(later[m], key) { LaterLeaf(a, b, kids[j + 1..], m, key); }
      JoinNoneAfter(LeavesOf(kids[..j]), Leaves(kids[j].child), later, LeafIndex(kids[j].child, key), key);
  }

  lemma LaterLeaf(a: seq<Pair>, b: seq<Pair>, kids: seq<Kid>, m: nat, key: Key)
    requires var c := InorderKids(kids); Sorted(a + b + c) && (c != [] ==> Less(key, c[0].key))
    requires m < |LeavesOf(kids)|
    ensures !Holds(LeavesOf(kids)[m], key)
  {
    hide Less;
    var c := InorderKids(kids);
    forall i | 0 <= i < |LeavesOf(kids)[m]| ensures LeavesOf(kids)[m][i].key != key {
      var x := LeavesOf(kids)[m][i];
      InSomeLeaf(kids, m, x);
      var k :| 0 <= k < |c| && c[k] == x;
      var s := a + b + c;
      assert s[|a + b|] == c[0] && s[|a + b| + k] == x;
      assert k > 0 ==> Leq(s[|a + b|].key, s[|a + b| + k].key);
      OrderFacts(key, c[0].key, x.key);
      LessTotal(key, x.key);
    }
  }

  lemma JoinNoneAfter(a: seq<seq<Pair>>, b: seq<seq<Pair>>, c: seq<seq<Pair>>, l: nat, key: Key)
    requires l < |b| && NoneAfter(b, l, key) && forall m :: 0 <= m < |c| ==> !Holds(c[m], key)
    ensures NoneAfter(a + b + c, |a| + l, key)
  {
    hide Holds;
    var s := a + b + c;
    forall m | |a| + l < m < |s| ensures !Holds(s[m], key) {
      assert if m < |a| + |b| then s[m] == b[m - |a|] else s[m] == c[m - |a| - |b|];
    }
  }

  /**
   With repeated keys, search in a sorted tree returns the value of the first pair with the key in the last leaf
   that holds the key.
   */
  lemma SearchReturns(node: Node, key: Key, ht: nat, l: nat)
    requires Shaped(node, ht) && Sorted(Inorder(node)) && LastHolder(Leaves(node), l, key)
    ensures Search(node, key) == Find(Leaves(node)[l], key)
  {
    hide Inorder, Leaves, RoutedLeaf, LeafIndex, Shaped, Sorted;
    SearchesRoutedLeaf(node, key);
    LeafAt(node, key, ht);
    RoutedToLast(node, key, ht);
    SearchFinds(node, key, ht);
    FindFinds(RoutedLeaf(node, key), key);
    var x := Leaves(node)[l];
    var i :| 0 <= i < |x| && x[i].key == key;
    InLeaf(node, l, x[i]);
    assert Holds(Inorder(node), key) by { HoldsMember(Inorder(node), x[i]); }
  }

  lemma HoldsMember(ps: seq<Pair>, x: Pair)
    requires x in ps
    ensures Holds(ps, x.key)
  {
    var i :| 0 <= i < |ps| && ps[i] == x;
  }

  // ---------------------------------------------------------------- the leaves after a put

  /** What becomes of the leaf a pair is put into: one leaf, or two halves. */
  function NewLeaves(pairs: seq<Pair>, key: Key, val: string): seq<seq<Pair>> {
    var ps := InsertAt(pairs, LeafSlot(pairs, key), Pair(key, val));
    if |ps| < M then [ps] else [ps[..HALF], ps[HALF..]]
  }

  ghost function InsertedLeaves(u: Inserted): seq<seq<Pair>> {
    Leaves(u.left) + if u.right.Some? then Leaves(u.right.value) else []
  }

  lemma LeavesOne(k: Kid)
    ensures LeavesOf([k]) == Leaves(k.child)
  {
    assert [k][1..] == [];
  }

  lemma SplitInnerLeaves(kids: seq<Kid>)
    ensures InsertedLeaves(SplitInner(kids)) == LeavesOf(kids)
  {
    if |kids| >= M { LeavesSplit(kids, HALF); }
  }

  lemma ReplaceKidLeaves(kids: seq<Kid>, j: nat, k: Kid)
    requires j < |kids|
    ensures LeavesOf(kids[j := k]) == LeavesOf(kids[..j]) + Leaves(k.child) + LeavesOf(kids[j + 1..])
  {
    var kids' := kids[j := k];
    LeavesAround(kids', j);
    assert kids'[..j] == kids[..j] && kids'[j + 1..] == kids[j + 1..];
  }

  lemma ReplaceKidByTwoLeaves(kids: seq<Kid>, j: nat, k: Kid, r: Kid)
    requires j < |kids|
    ensures LeavesOf(InsertAt(kids[j := k], j + 1, r))
         == LeavesOf(kids[..j]) + (Leaves(k.child) + Leaves(r.child)) + LeavesOf(kids[j + 1..])
  {
    var kids' := InsertAt(kids[j := k], j + 1, r);
    LeavesAround(kids', j);
    assert kids'[..j] == kids[..j];
    assert kids'[j + 1..] == [r] + kids[j + 1..];
    assert kids'[j + 1..][1..] == kids[j + 1..];
  }

  lemma InsertInnerLeaves(kids: seq<Kid>, key: Key, val: string)
    requires kids != []
    ensures var j := Route(kids, key);
            InsertedLeaves(Insert(Inner(kids), key, val)) ==
            LeavesOf(kids[..j]) + InsertedLeaves(Insert(kids[j].child, key, val)) + LeavesOf(kids[j + 1..])
  {
    hide Route, SplitInner;
    var j := Route(kids, key);
    var u := Insert(kids[j].child, key, val);
    var k := Kid(if u.modParent then key else kids[j].sep, u.left);
    match u.right
    case None =>
      ReplaceKidLeaves(kids, j, k);
    case Some(right) =>
      ReplaceKidByTwoLeaves(kids, j, k, Kid(FrontKey(right), right));
      SplitInnerLeaves(InsertAt(kids[j := k], j + 1, Kid(FrontKey(right), right)));
  }

  function Replaced(leaves: seq<seq<Pair>>, p: nat, added: seq<seq<Pair>>): seq<seq<Pair>>
    requires p < |leaves|
  {
    leaves[..p] + added + leaves[p + 1..]
  }

  /** An insertion replaces the leaf the key is routed to and leaves every other leaf as it was. */
  lemma {:induction false} InsertLeaves(node: Node, key: Key, val: string, ht: nat)
    requires Shaped(node, ht)
    ensures LeafIndex(node, key) < |Leaves(node)|
    ensures InsertedLeaves(Insert(node, key, val)) ==
            Replaced(Leaves(node), LeafIndex(node, key), NewLeaves(RoutedLeaf(node, key), key, val))
  {
    hide Route, Insert, NewLeaves, InsertedLeaves, Replaced;
    LeafAt(node, key, ht);
    match node
    case Leaf(pairs) =>
      InsertLeafLeaves(pairs, key, val);
      ReplacedOnly(pairs, NewLeaves(pairs, key, val));
    case Inner(kids) =>
      var j := Route(kids, key);
      var child := kids[j].child;
      InsertLeaves(child, key, val, ht - 1);
      LeavesAround(kids, j);
      InsertInnerLeaves(kids, key, val);
      ReplacedInMiddle(LeavesOf(kids[..j]), Leaves(child), LeavesOf(kids[j + 1..]), LeafIndex(child, key),
                       NewLeaves(RoutedLeaf(child, key), key, val));
  }

  lemma ReplacedOnly(pairs: seq<Pair>, added: seq<seq<Pair>>)
    ensures Replaced([pairs], 0, added) == added
  {
  }

  lemma ReplacedInMiddle(a: seq<seq<Pair>>, b: seq<seq<Pair>>, c: seq<seq<Pair>>, p: nat, added: seq<seq<Pair>>)
    requires p < |b|
    ensures a + Replaced(b, p, added) + c == Replaced(a + b + c, |a| + p, added)
  {
  }

  lemma InsertLeafLeaves(pairs: seq<Pair>, key: Key, val: string)
    ensures InsertedLeaves(Insert(Leaf(pairs), key, val)) == NewLeaves(pairs, key, val)
  {
    hide LeafSlot, InsertAt, GoesFirst;
  }

  lemma RelabelLeaves(node: Node, key: Key)
    requires FirstKey(node) == key
    ensures Leaves(Relabel(node, key)) == Leaves(node)
  {
    match node
    case Leaf(pairs) =>
      if pairs != [] { assert pairs[0 := pairs[0].(key := key)] == pairs; }
    case Inner(kids) =>
      if kids != [] { assert kids[0 := kids[0].(sep := key)][1..] == kids[1..]; }
  }

  lemma NewRootLeaves(left: Kid, right: Kid)
    ensures Leaves(Inner([left, right])) == Leaves(left.child) + Leaves(right.child)
  {
    assert [left, right][1..] == [right];
    LeavesOne(right);
  }

  lemma PutLeaves(t: Tree, key: Key, val: string)
    requires Valid(t)
    ensures Leaves(Put(t, Some(key), val).root) == InsertedLeaves(Insert(t.root, key, val))
  {
    hide Insert, Leaves, Shaped, FirstKey, FrontKey, Relabel, BelowFirst, Inorder;
    InsertWellInserted(t.root, key, val, t.height);
    var u := Insert(t.root, key, val);
    var root := if u.modParent then Relabel(u.left, key) else u.left;
    if u.modParent { RelabelLeaves(u.left, key); }
    if u.right.Some? { NewRootLeaves(Kid(FrontKey(root), root), Kid(FrontKey(u.right.value), u.right.value)); }
  }

  // ---------------------------------------------------------------- the value of a key put again

  /** The pairs that stand before a new pair in its leaf, after a split if there is one. */
  function Older(pairs: seq<Pair>, key: Key): seq<Pair> {
    var j := LeafSlot(pairs, key);
    if |pairs| + 1 < M || j < HALF then pairs[..j] else pairs[HALF..j]
  }

  /** In which of the new leaves the new pair stands. */
  function NewAt(pairs: seq<Pair>, key: Key): nat {
    if |pairs| + 1 < M || LeafSlot(pairs, key) < HALF then 0 else 1
  }

  lemma NewLeafParts(pairs: seq<Pair>, key: Key, val: string) returns (rest: seq<Pair>)
    requires |pairs| < M
    ensures NewAt(pairs, key) < |NewLeaves(pairs, key, val)|
    ensures NewLeaves(pairs, key, val)[NewAt(pairs, key)] == Older(pairs, key) + [Pair(key, val)] + rest
  {
    hide LeafSlot;
    var j := LeafSlot(pairs, key);
    rest := if |pairs| + 1 < M || j >= HALF then pairs[j..] else pairs[j..HALF - 1];
  }

  lemma {:induction false} FindInFront(a: seq<Pair>, x: Pair, b: seq<Pair>)
    ensures Find(a + [x] + b, x.key) == if Holds(a, x.key) then Find(a, x.key) else Some(x.val)
  {
    if a != [] && a[0].key != x.key {
      FindInFront(a[1..], x, b);
      assert (a + [x] + b)[1..] == a[1..] + [x] + b;
      assert Holds(a, x.key) <==> Holds(a[1..], x.key) by { HoldsTail(a, x.key); }
    }
  }

  lemma HoldsTail(a: seq<Pair>, key: Key)
    requires a != [] && a[0].key != key
    ensures Holds(a, key) <==> Holds(a[1..], key)
  {
    assert forall i :: 0 < i < |a| ==> a[i] == a[1..][i - 1];
    assert forall i :: 0 <= i < |a[1..]| ==> a[1..][i] == a[i + 1];
  }

  /** The leaf after the new pair's, if the split made one, does not hold the key. */
  lemma NoneInNext(pairs: seq<Pair>, key: Key, val: string)
    requires |pairs| < M && Separates(pairs, LeafSlot(pairs, key), key)
    ensures NoneAfter(NewLeaves(pairs, key, val), NewAt(pairs, key), key)
  {
    hide LeafSlot, Less;
    var j, ls := LeafSlot(pairs, key), NewLeaves(pairs, key, val);
    if |ls| == 2 && j < HALF {
      var next: seq<Pair> := ls[1];
      forall i | 0 <= i < |next| ensures next[i].key != key {
        assert next[i] == pairs[HALF + i - 1];
        LessTotal(key, next[i].key);
      }
    }
  }

  /** The leaf a key is routed to is sorted. */
  lemma {:induction false} RoutedLeafSorted(node: Node, key: Key, ht: nat)
    requires Shaped(node, ht) && Sorted(Inorder(node))
    ensures Sorted(RoutedLeaf(node, key)) && |RoutedLeaf(node, key)| < M
  {
    hide Route, Sorted;
    if node.Inner? {
      var kids, j := node.kids, Route(node.kids, key);
      InorderAround(kids, j);
      SortedParts(InorderKids(kids[..j]), Inorder(kids[j].child), InorderKids(kids[j + 1..]));
      RoutedLeafSorted(kids[j].child, key, ht - 1);
    }
  }

  /** Where the key already stands in the leaf, the new pair goes right behind it. */
  lemma HeldJustBefore(pairs: seq<Pair>, key: Key)
    requires |pairs| < M && Sorted(pairs) && Separates(pairs, LeafSlot(pairs, key), key)
    ensures Holds(Older(pairs, key), key) <==>
            Holds(pairs, key) && !(|pairs| == M - 1 && LeafSlot(pairs, key) == HALF)
  {
    hide LeafSlot, Less;
    var j, o := LeafSlot(pairs, key), Older(pairs, key);
    if Holds(pairs, key) {
      var i :| 0 <= i < |pairs| && pairs[i].key == key;
      LessTotal(key, key);
      assert i < j && Leq(pairs[j - 1].key, key);
      assert i < j - 1 ==> Leq(pairs[i].key, pairs[j - 1].key);
      LessTotal(pairs[j - 1].key, key);
      if o != [] { assert o[|o| - 1] == pairs[j - 1]; }
    }
    if Holds(o, key) {
      var i :| 0 <= i < |o| && o[i].key == key;
      assert o[i] in pairs;
      HoldsMember(pairs, o[i]);
    }
  }

  /** What search finds right after a put. */
  lemma FoundAfterPut(t: Tree, key: Key, val: string)
    requires Valid(t) && Sorted(Inorder(t.root)) && Sorted(Inorder(Put(t, Some(key), val).root))
    requires var pairs := RoutedLeaf(t.root, key); key == "" && pairs != [] ==> pairs[0].key == ""
    ensures var older := Older(RoutedLeaf(t.root, key), key);
            Search(Put(t, Some(key), val).root, key) == if Holds(older, key) then Find(older, key) else Some(val)
  {
    hide Put, Insert, Leaves, Shaped, Sorted, Inorder, RoutedLeaf, LeafIndex, NewLeaves, Older, NewAt, Holds, LeafSlot;
    var t' := Put(t, Some(key), val);
    var pairs, p, leaves := RoutedLeaf(t.root, key), LeafIndex(t.root, key), Leaves(t.root);
    PutAdds(t, key, val);
    ShapeOf(t);
    ShapeOf(t');
    RoutedLeafSorted(t.root, key, t.height);
    RoutedToLast(t.root, key, t.height);
    InsertLeaves(t.root, key, val, t.height);
    PutLeaves(t, key, val);
    LeafSeparates(pairs, key);
    NoneInNext(pairs, key, val);
    var rest := NewLeafParts(pairs, key, val);
    var added, q := NewLeaves(pairs, key, val), NewAt(pairs, key);
    HoldsNew(Older(pairs, key), Pair(key, val), rest);
    LastHolderInMiddle(leaves, p, added, q, key);
    SearchReturns(t'.root, key, t'.height, p + q);
    FindInFront(Older(pairs, key), Pair(key, val), rest);
  }

  lemma ShapeOf(t: Tree)
    requires Valid(t)
    ensures Shaped(t.root, t.height)
  {
  }

  lemma HoldsNew(a: seq<Pair>, x: Pair, b: seq<Pair>)
    ensures Holds(a + [x] + b, x.key)
  {
    assert (a + [x] + b)[|a|] == x;
  }

  lemma LastHolderInMiddle(leaves: seq<seq<Pair>>, p: nat, added: seq<seq<Pair>>, q: nat, key: Key)
    requires p < |leaves| && NoneAfter(leaves, p, key) && LastHolder(added, q, key)
    ensures var all := leaves[..p] + added + leaves[p + 1..];
            p + q < |all| && all[p + q] == added[q] && LastHolder(all, p + q, key)
  {
    hide Holds;
    var later := leaves[p + 1..];
    forall m | 0 <= m < |later| ensures !Holds(later[m], key) { assert later[m] == leaves[p + 1 + m]; }
    JoinNoneAfter(leaves[..p], added, later, q, key);
  }

  /**
   A put is found by search, whatever value it puts, exactly if the key was not there before, or the leaf it goes
   to is full and the split cuts right in front of the new pair.
   */
  lemma LatestFoundIff(puts: seq<Pair>, key: Key)
    requires EmptyKeyFirst(puts) && (key == "" && puts != [] ==> puts[0].key == "")
    ensures var t := After(puts);
            var leaf := RoutedLeaf(t.root, key);
            && (Holds(leaf, key) <==> Holds(puts, key))
            && ((forall val :: Search(Put(t, Some(key), val).root, key) == Some(val)) <==>
                !Holds(puts, key) || (|leaf| == M - 1 && LeafSlot(leaf, key) == HALF))
  {
    hide After, Put, Search, Sorted, Inorder, RoutedLeaf, Older, Holds, LeafSlot, Shaped, Find;
    var t := After(puts);
    var leaf := RoutedLeaf(t.root, key);
    SortedIff(puts);
    PutsHold(puts);
    ShapeOf(t);
    SearchAfterPuts(puts, key);
    SearchesRoutedLeaf(t.root, key);
    FoundInLeaf(leaf, key);
    RoutedLeafSorted(t.root, key, t.height);
    EmptyKeyInFront(puts, key);
    LeafSeparates(leaf, key);
    HeldJustBefore(leaf, key);
    var older := Older(leaf, key);
    forall val: string
      ensures Search(Put(t, Some(key), val).root, key) == if Holds(older, key) then Find(older, key) else Some(val)
    {
      StillSorted(puts, key, val);
      FoundAfterPut(t, key, val);
    }
    var v, w := "", "x";
    assert Search(Put(t, Some(key), v).root, key) == if Holds(older, key) then Find(older, key) else Some(v);
    assert Search(Put(t, Some(key), w).root, key) == if Holds(older, key) then Find(older, key) else Some(w);
  }

  lemma FoundInLeaf(pairs: seq<Pair>, key: Key)
    ensures Find(pairs, key).Some? <==> Holds(pairs, key)
  {
    FindFinds(pairs, key);
  }

  lemma StillSorted(puts: seq<Pair>, key: Key, val: string)
    requires EmptyKeyFirst(puts) && (key == "" && puts != [] ==> puts[0].key == "")
    ensures Sorted(Inorder(Put(After(puts), Some(key), val).root))
  {
    hide Sorted, Inorder, Put, After;
    AfterMore(puts, Pair(key, val));
    SortedIff(puts + [Pair(key, val)]);
  }

  lemma AfterMore(puts: seq<Pair>, x: Pair)
    ensures After(puts + [x]) == Put(After(puts), Some(x.key), x.val)
  {
    hide Put;
    assert (puts + [x])[..|puts|] == puts;
  }

  /** An empty key that was put stands first in its leaf. */
  lemma EmptyKeyInFront(puts: seq<Pair>, key: Key)
    requires EmptyKeyFirst(puts) && (key == "" && puts != [] ==> puts[0].key == "")
    ensures var leaf := RoutedLeaf(After(puts).root, key); key == "" && leaf != [] ==> leaf[0].key == ""
  {
    hide After, Search, Sorted, Inorder, RoutedLeaf, Shaped, Find;
    var t := After(puts);
    var leaf := RoutedLeaf(t.root, key);
    if key == "" && leaf != [] {
      SortedIff(puts);
      PutsHold(puts);
      ShapeOf(t);
      RoutedLeafSorted(t.root, key, t.height);
      SearchAfterPuts(puts, key);
      SearchesRoutedLeaf(t.root, key);
      FoundInLeaf(leaf, key);
      LeafOfEmpty(puts, leaf);
      EmptyFirst(leaf);
    }
  }

  /** A leaf with pairs belongs to a tree into which something was put. */
  lemma LeafOfEmpty(puts: seq<Pair>, leaf: seq<Pair>)
    requires leaf == RoutedLeaf(After(puts).root, "") && leaf != []
    ensures puts != []
  {
  }

  lemma EmptyFirst(pairs: seq<Pair>)
    requires Sorted(pairs) && Holds(pairs, "")
    ensures pairs[0].key == ""
  {
    var i :| 0 <= i < |pairs| && pairs[i].key == "";
    if i > 0 { assert Leq(pairs[0].key, pairs[i].key); }
  }
}
