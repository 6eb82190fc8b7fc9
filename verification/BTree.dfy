/**
 The B-tree of 29/btree.c as a value: what `insert`, `split`, `put` and `search` compute.
 BTreeHeap.dfy holds the operations on mutable nodes.

 Leaves hold key-value pairs, inner nodes hold labelled children. A label in slot j >= 1
 routes keys; the label in slot 0 is never used for routing.
 */
module BTree {
  import opened Wrappers

  type Key = string

  /** The node capacity; the source requires it to be even and greater than 2. */
  const M: nat := 4
  const HALF: nat := M / 2

  datatype Pair = Pair(key: Key, val: string)
  datatype Kid = Kid(sep: Key, child: Node)
  datatype Node = Leaf(pairs: seq<Pair>) | Inner(kids: seq<Kid>)
  datatype Tree = Tree(root: Node, height: nat, n: nat)

  /** What `insert` hands back: the node after the insertion, the node split off if any, and mod_parent. */
  datatype Inserted = Inserted(left: Node, right: Option<Node>, modParent: bool)

  // ---------------------------------------------------------------- strcmp

  /** strcmp(a, b) < 0 */
  predicate Less(a: Key, b: Key) {
    b != [] && (a == [] || a[0] < b[0] || (a[0] == b[0] && Less(a[1..], b[1..])))
  }

  predicate Leq(a: Key, b: Key) { !Less(b, a) }

  lemma {:induction false} LessTransitive(a: Key, b: Key, c: Key)
    requires Less(a, b) && Less(b, c)
    ensures Less(a, c)
  {
    if a != [] && a[0] == b[0] == c[0] {
      LessTransitive(a[1..], b[1..], c[1..]);
    }
  }

  lemma {:induction false} LessTotal(a: Key, b: Key)
    ensures a == b <==> !Less(a, b) && !Less(b, a)
    ensures !(Less(a, b) && Less(b, a))
  {
    if a != [] && b != [] {
      LessTotal(a[1..], b[1..]);
      assert a == [a[0]] + a[1..] && b == [b[0]] + b[1..];
    }
  }

  lemma OrderFacts(a: Key, b: Key, c: Key)
    ensures Less(a, b) ==> Leq(a, b)
    ensures Leq(a, b) && Leq(b, c) ==> Leq(a, c)
    ensures Leq(a, b) && Less(b, c) ==> Less(a, c)
    ensures Less(a, b) && Leq(b, c) ==> Less(a, c)
    ensures a != "" <==> Less("", a)
  {
    LessTotal(a, b);
    LessTotal(b, c);
    LessTotal(a, c);
    if Less(a, b) && Less(b, c) { LessTransitive(a, b, c); }
    if Less(c, a) && Less(a, b) { LessTransitive(c, a, b); }
    if Less(b, c) && Less(c, a) { LessTransitive(b, c, a); }
  }

  // ---------------------------------------------------------------- insert, split, put, search

  function InsertAt<T>(s: seq<T>, j: nat, x: T): seq<T>
    requires j <= |s|
  {
    s[..j] + [x] + s[j..]
  }

  /** The first j' >= j with key < keys[j'], or the end. */
  function Scan(keys: seq<Key>, key: Key, j: nat): (r: nat)
    requires j <= |keys|
    ensures j <= r <= |keys|
    ensures r < |keys| ==> Less(key, keys[r])
    ensures forall i :: j <= i < r ==> Leq(keys[i], key)
    decreases |keys| - j
  {
    if j == |keys| || Less(key, keys[j]) then j else Scan(keys, key, j + 1)
  }

  function PairKeys(pairs: seq<Pair>): (ks: seq<Key>)
    ensures |ks| == |pairs|
  {
    seq(|pairs|, i requires 0 <= i < |pairs| => pairs[i].key)
  }

  function Labels(kids: seq<Kid>): (ks: seq<Key>)
    ensures |ks| == |kids|
  {
    seq(|kids|, i requires 0 <= i < |kids| => kids[i].sep)
  }

  /** Whether a leaf insertion goes in front, which is reported upwards. */
  predicate GoesFirst(pairs: seq<Pair>, key: Key) {
    pairs != [] && key != "" && Less(key, pairs[0].key)
  }

  /** Where a leaf puts a key. */
  function LeafSlot(pairs: seq<Pair>, key: Key): (j: nat)
    ensures j <= |pairs|
  {
    if pairs == [] || GoesFirst(pairs, key) then 0 else Scan(PairKeys(pairs), key, 1)
  }

  /** Which child an inner node descends into: the last whose label is not above the key. */
  function Route(kids: seq<Kid>, key: Key): (j: nat)
    requires kids != []
    ensures j < |kids|
  {
    Scan(Labels(kids), key, 1) - 1
  }

  /** `split` at the end of `insert`: a node with M entries keeps the first half. */
  function SplitLeaf(pairs: seq<Pair>, modParent: bool): Inserted {
    if |pairs| < M then Inserted(Leaf(pairs), None, modParent)
    else Inserted(Leaf(pairs[..HALF]), Some(Leaf(pairs[HALF..])), modParent)
  }

  function SplitInner(kids: seq<Kid>): Inserted {
    if |kids| < M then Inserted(Inner(kids), None, false)
    else Inserted(Inner(kids[..HALF]), Some(Inner(kids[HALF..])), false)
  }

  /** The key in slot 0 of a node. */
  function FrontKey(node: Node): Key {
    match node
    case Leaf(pairs) => if pairs == [] then "" else pairs[0].key
    case Inner(kids) => if kids == [] then "" else kids[0].sep
  }

  function Insert(node: Node, key: Key, val: string): Inserted {
    match node
    case Leaf(pairs) =>
      SplitLeaf(InsertAt(pairs, LeafSlot(pairs, key), Pair(key, val)), GoesFirst(pairs, key))
    case Inner(kids) =>
      if kids == [] then Inserted(node, None, false) else
      var j := Route(kids, key);
      var u := Insert(kids[j].child, key, val);
      var kids' := kids[j := Kid(if u.modParent then key else kids[j].sep, u.left)];
      match u.right
      case None => Inserted(Inner(kids'), None, u.modParent)
      case Some(right) => SplitInner(InsertAt(kids', j + 1, Kid(FrontKey(right), right)))
  }

  /** The children of an inner node after the insertion below it, before any split, and the mod_parent it reports. */
  function Grow(kids: seq<Kid>, key: Key, val: string): (seq<Kid>, bool)
    requires kids != []
  {
    var j := Route(kids, key);
    var u := Insert(kids[j].child, key, val);
    var kids' := kids[j := Kid(if u.modParent then key else kids[j].sep, u.left)];
    match u.right
    case None => (kids', u.modParent)
    case Some(right) => (InsertAt(kids', j + 1, Kid(FrontKey(right), right)), false)
  }

  lemma GrowParts(kids: seq<Kid>, key: Key, val: string)
    requires kids != []
    ensures var j := Route(kids, key);
            var u := Insert(kids[j].child, key, val);
            var k := Kid(if u.modParent then key else kids[j].sep, u.left);
            Grow(kids, key, val) ==
            if u.right.None? then (kids[..j] + [k] + kids[j + 1..], u.modParent)
            else (kids[..j] + [k, Kid(FrontKey(u.right.value), u.right.value)] + kids[j + 1..], false)
  {
    hide Route, Insert, FrontKey;
    var j := Route(kids, key);
    var u := Insert(kids[j].child, key, val);
    var k := Kid(if u.modParent then key else kids[j].sep, u.left);
    assert kids[j := k] == kids[..j] + [k] + kids[j + 1..];
    if u.right.Some? {
      var r := Kid(FrontKey(u.right.value), u.right.value);
      assert InsertAt(kids[j := k], j + 1, r) == kids[..j] + [k, r] + kids[j + 1..];
    }
  }

  lemma GrowThenSplit(kids: seq<Kid>, key: Key, val: string)
    requires 0 < |kids| < M
    ensures var (grown, modParent) := Grow(kids, key, val);
            Insert(Inner(kids), key, val) ==
            if |grown| < M then Inserted(Inner(grown), None, modParent) else SplitInner(grown)
  {
  }

  /** btree->root->children[0]->key = key */
  function Relabel(node: Node, key: Key): Node {
    match node
    case Leaf(pairs) => if pairs == [] then node else Leaf(pairs[0 := pairs[0].(key := key)])
    case Inner(kids) => if kids == [] then node else Inner(kids[0 := kids[0].(sep := key)])
  }

  const EMPTY := Tree(Leaf([]), 0, 0)

  function Put(t: Tree, key: Option<Key>, val: string): Tree {
    match key
    case None => t
    case Some(k) =>
      var u := Insert(t.root, k, val);
      var root := if u.modParent then Relabel(u.left, k) else u.left;
      match u.right
      case None => Tree(root, t.height, t.n + 1)
      case Some(right) => Tree(Inner([Kid(FrontKey(root), root), Kid(FrontKey(right), right)]), t.height + 1, t.n + 1)
  }

  /** `search`, with keys compared as values. */
  function Search(node: Node, key: Key): Option<string> {
    match node
    case Leaf(pairs) => Find(pairs, key)
    case Inner(kids) => if kids == [] then None else Search(kids[Route(kids, key)].child, key)
  }

  function Find(pairs: seq<Pair>, key: Key): Option<string> {
    if pairs == [] then None else if pairs[0].key == key then Some(pairs[0].val) else Find(pairs[1..], key)
  }

  // ---------------------------------------------------------------- what a tree holds, and its shape

  /** The leaf pairs in order. */
  ghost function Inorder(node: Node): seq<Pair>
    decreases node, 1
  {
    match node
    case Leaf(pairs) => pairs
    case Inner(kids) => InorderKids(kids)
  }

  ghost function InorderKids(kids: seq<Kid>): seq<Pair>
    decreases kids, 0
  {
    if kids == [] then [] else Inorder(kids[0].child) + InorderKids(kids[1..])
  }

  /** The first leaf key. */
  ghost function FirstKey(node: Node): Key {
    match node
    case Leaf(pairs) => if pairs == [] then "" else pairs[0].key
    case Inner(kids) => if kids == [] then "" else FirstKey(kids[0].child)
  }

  /**
   All leaves at depth `ht`, every slot j >= 1 labelled with the first key below it, every child at least half full.
   */
  ghost predicate Shaped(node: Node, ht: nat) {
    match node
    case Leaf(pairs) => ht == 0 && |pairs| < M
    case Inner(kids) =>
      && ht > 0 && 2 <= |kids| < M
      && (forall j :: 0 <= j < |kids| ==> Shaped(kids[j].child, ht - 1) && Half(kids[j].child))
      && (forall j :: 1 <= j < |kids| ==> kids[j].sep == FirstKey(kids[j].child))
  }

  ghost predicate Half(node: Node) { Width(node) >= HALF }

  ghost function Width(node: Node): nat {
    match node
    case Leaf(pairs) => |pairs|
    case Inner(kids) => |kids|
  }

  ghost predicate Sorted(ps: seq<Pair>) {
    forall i, j :: 0 <= i < j < |ps| ==> Leq(ps[i].key, ps[j].key)
  }

  // ---------------------------------------------------------------- one insertion

  lemma {:induction false} InorderSplit(kids: seq<Kid>, j: nat)
    requires j <= |kids|
    ensures InorderKids(kids) == InorderKids(kids[..j]) + InorderKids(kids[j..])
  {
    if j > 0 {
      InorderSplit(kids[1..], j - 1);
      assert kids[..j][1..] == kids[1..][..j - 1];
      assert kids[1..][j - 1..] == kids[j..];
    } else {
      assert kids[j..] == kids;
    }
  }

  lemma InorderOne(k: Kid)
    ensures InorderKids([k]) == Inorder(k.child)
  {
    assert [k][1..] == [];
  }

  /** The pairs below a child, and what stands before and after them. */
  lemma InorderAround(kids: seq<Kid>, j: nat)
    requires j < |kids|
    ensures InorderKids(kids) == InorderKids(kids[..j]) + Inorder(kids[j].child) + InorderKids(kids[j + 1..])
  {
    InorderSplit(kids, j);
    assert kids[j..][1..] == kids[j + 1..];
  }

  lemma {:induction false} FirstKeyIsFirst(node: Node, ht: nat)
    requires Shaped(node, ht) && Width(node) > 0
    ensures Inorder(node) != [] && FirstKey(node) == Inorder(node)[0].key
  {
    if node.Inner? {
      FirstKeyIsFirst(node.kids[0].child, ht - 1);
    }
  }

  /** All pairs an insertion hands back. */
  ghost function Content(u: Inserted): seq<Pair> {
    Inorder(u.left) + if u.right.Some? then Inorder(u.right.value) else []
  }

  /** Where among the leaf pairs a key lands. */
  ghost function Pos(node: Node, key: Key): nat {
    match node
    case Leaf(pairs) => LeafSlot(pairs, key)
    case Inner(kids) =>
      if kids == [] then 0 else
      var j := Route(kids, key);
      |InorderKids(kids[..j])| + Pos(kids[j].child, key)
  }

  lemma SplitInnerContent(kids: seq<Kid>)
    ensures Content(SplitInner(kids)) == InorderKids(kids)
  {
    if |kids| >= M {
      InorderSplit(kids, HALF);
    }
  }

  /** Replacing child j by one or two nodes. */
  lemma ReplaceKid(kids: seq<Kid>, j: nat, k: Kid)
    requires j < |kids|
    ensures InorderKids(kids[j := k]) == InorderKids(kids[..j]) + Inorder(k.child) + InorderKids(kids[j + 1..])
  {
    var kids' := kids[j := k];
    InorderAround(kids', j);
    assert kids'[..j] == kids[..j] && kids'[j + 1..] == kids[j + 1..];
  }

  lemma ReplaceKidByTwo(kids: seq<Kid>, j: nat, k: Kid, r: Kid)
    requires j < |kids|
    ensures InorderKids(InsertAt(kids[j := k], j + 1, r))
         == InorderKids(kids[..j]) + (Inorder(k.child) + Inorder(r.child)) + InorderKids(kids[j + 1..])
  {
    var kids' := InsertAt(kids[j := k], j + 1, r);
    InorderAround(kids', j);
    assert kids'[..j] == kids[..j];
    assert kids'[j + 1..] == [r] + kids[j + 1..];
    assert kids'[j + 1..][1..] == kids[j + 1..];
  }

  lemma InsertInMiddle(a: seq<Pair>, b: seq<Pair>, c: seq<Pair>, p: nat, x: Pair)
    requires p <= |b|
    ensures a + InsertAt(b, p, x) + c == InsertAt(a + b + c, |a| + p, x)
  {
  }

  /** An insertion adds its pair at position Pos and keeps every other pair in its place. */
  lemma {:induction false} InsertContent(node: Node, key: Key, val: string, ht: nat)
    requires Shaped(node, ht)
    ensures Pos(node, key) <= |Inorder(node)|
    ensures Content(Insert(node, key, val)) == InsertAt(Inorder(node), Pos(node, key), Pair(key, val))
  {
    hide Route, Insert, SplitInner, LeafSlot;
    match node
    case Leaf(pairs) =>
      LeafContent(pairs, key, val);
    case Inner(kids) =>
      var j := Route(kids, key);
      var c := kids[j].child;
      InsertContent(c, key, val, ht - 1);
      InorderAround(kids, j);
      InsertInMiddle(InorderKids(kids[..j]), Inorder(c), InorderKids(kids[j + 1..]), Pos(c, key), Pair(key, val));
      InsertInner(kids, key, val);
  }

  lemma LeafContent(pairs: seq<Pair>, key: Key, val: string)
    ensures Content(Insert(Leaf(pairs), key, val)) == InsertAt(pairs, LeafSlot(pairs, key), Pair(key, val))
  {
    hide LeafSlot, InsertAt, GoesFirst, Content, SplitLeaf;
    SplitLeafContent(InsertAt(pairs, LeafSlot(pairs, key), Pair(key, val)), GoesFirst(pairs, key));
  }

  lemma SplitLeafContent(pairs: seq<Pair>, modParent: bool)
    ensures Content(SplitLeaf(pairs, modParent)) == pairs
  {
  }

  /** An inner node passes on what its child hands back. */
  lemma InsertInner(kids: seq<Kid>, key: Key, val: string)
    requires kids != []
    ensures var j := Route(kids, key);
            Content(Insert(Inner(kids), key, val)) ==
            InorderKids(kids[..j]) + Content(Insert(kids[j].child, key, val)) + InorderKids(kids[j + 1..])
  {
    hide Route, SplitInner;
    var j := Route(kids, key);
    var u := Insert(kids[j].child, key, val);
    var k := Kid(if u.modParent then key else kids[j].sep, u.left);
    match u.right
    case None =>
      ReplaceKid(kids, j, k);
    case Some(right) =>
      ReplaceKidByTwo(kids, j, k, Kid(FrontKey(right), right));
      SplitInnerContent(InsertAt(kids[j := k], j + 1, Kid(FrontKey(right), right)));
  }

  // ---------------------------------------------------------------- the shape after an insertion

  /** The key would be a new first key of the subtree. */
  ghost predicate BelowFirst(node: Node, key: Key) {
    key != "" && Less(key, FirstKey(node))
  }

  ghost predicate WellInserted(u: Inserted, node: Node, key: Key, ht: nat) {
    && Shaped(u.left, ht)
    && (u.right.None? ==> Width(u.left) >= Width(node) && Width(u.left) > 0)
    && (u.right.Some? ==>
          && Shaped(u.right.value, ht) && Half(u.left) && Half(u.right.value)
          && FrontKey(u.right.value) == FirstKey(u.right.value))
    && (Width(node) > 0 && !BelowFirst(node, key) ==> !u.modParent && FirstKey(u.left) == FirstKey(node))
    && (u.modParent ==> FirstKey(u.left) == key)
  }

  lemma LeafWellInserted(pairs: seq<Pair>, key: Key, val: string)
    requires |pairs| < M
    ensures WellInserted(Insert(Leaf(pairs), key, val), Leaf(pairs), key, 0)
  {
  }

  /** The labels of an inner node are right from slot 1 on. */
  ghost predicate Row(kids: seq<Kid>, ht: nat) {
    && (forall j :: 0 <= j < |kids| ==> Shaped(kids[j].child, ht) && Half(kids[j].child))
    && (forall j :: 1 <= j < |kids| ==> kids[j].sep == FirstKey(kids[j].child))
  }

  lemma SplitInnerShaped(kids: seq<Kid>, ht: nat)
    requires Row(kids, ht) && 2 <= |kids| <= M
    ensures var u := SplitInner(kids);
            && !u.modParent && Shaped(u.left, ht + 1) && FirstKey(u.left) == FirstKey(Inner(kids))
            && (u.right.None? ==> Width(u.left) == |kids|)
            && (u.right.Some? ==> Shaped(u.right.value, ht + 1) && Half(u.left) && Half(u.right.value)
                                  && FrontKey(u.right.value) == FirstKey(u.right.value))
  {
    hide FirstKey;
    FirstKeyOfInner(kids);
    if |kids| >= M {
      var a, b := kids[..HALF], kids[HALF..];
      assert forall j :: 0 <= j < |b| ==> b[j] == kids[HALF + j];
      FirstKeyOfInner(a);
      FirstKeyOfInner(b);
    }
  }

  lemma FirstKeyOfInner(kids: seq<Kid>)
    requires kids != []
    ensures FirstKey(Inner(kids)) == FirstKey(kids[0].child)
  {
  }

  /** Replacing child j of a row by what an insertion into it hands back. */
  lemma RowKept(kids: seq<Kid>, key: Key, j: nat, u: Inserted, ht: nat)
    requires Row(kids, ht) && j < |kids| && WellInserted(u, kids[j].child, key, ht)
    requires j > 0 ==> !BelowFirst(kids[j].child, key)
    ensures var kids' := kids[j := Kid(if u.modParent then key else kids[j].sep, u.left)];
            && Row(kids', ht)
            && (u.right.Some? ==> Row(InsertAt(kids', j + 1, Kid(FrontKey(u.right.value), u.right.value)), ht))
  {
    hide FirstKey, FrontKey, BelowFirst, Shaped;
    var kids' := kids[j := Kid(if u.modParent then key else kids[j].sep, u.left)];
    if u.right.Some? {
      var r := Kid(FrontKey(u.right.value), u.right.value);
      var kids'' := InsertAt(kids', j + 1, r);
      assert forall i :: 0 <= i <= j ==> kids''[i] == kids'[i];
      assert kids''[j + 1] == r;
      assert forall i :: j + 1 < i < |kids''| ==> kids''[i] == kids'[i - 1];
    }
  }

  lemma RouteFacts(kids: seq<Kid>, key: Key)
    requires kids != []
    ensures var j := Route(kids, key);
            && (j > 0 ==> Leq(kids[j].sep, key))
            && (j + 1 < |kids| ==> Less(key, kids[j + 1].sep))
  {
    var j := Route(kids, key);
    assert Labels(kids)[j] == kids[j].sep;
  }

  /** An insertion keeps the shape: balance, node sizes and labels. */
  lemma {:induction false} InsertWellInserted(node: Node, key: Key, val: string, ht: nat)
    requires Shaped(node, ht)
    ensures WellInserted(Insert(node, key, val), node, key, ht)
  {
    hide Route, SplitInner, FirstKey, FrontKey, Leq, Less, Insert, WellInserted;
    match node
    case Leaf(pairs) =>
      LeafWellInserted(pairs, key, val);
    case Inner(kids) =>
      var j := Route(kids, key);
      var c := kids[j].child;
      InsertWellInserted(c, key, val, ht - 1);
      RouteFacts(kids, key);
      assert Row(kids, ht - 1);
      var u := Insert(c, key, val);
      NotBelow(kids, j, key);
      RowKept(kids, key, j, u, ht - 1);
      InnerWellInserted(kids, key, val, ht);
  }

  lemma NotBelow(kids: seq<Kid>, j: nat, key: Key)
    requires 0 <= j < |kids| && (j > 0 ==> Leq(kids[j].sep, key) && kids[j].sep == FirstKey(kids[j].child))
    ensures j > 0 ==> !BelowFirst(kids[j].child, key)
  {
  }

  lemma InnerWellInserted(kids: seq<Kid>, key: Key, val: string, ht: nat)
    requires ht > 0 && 2 <= |kids| < M
    requires var j := Route(kids, key);
             var u := Insert(kids[j].child, key, val);
             var kids' := kids[j := Kid(if u.modParent then key else kids[j].sep, u.left)];
             && WellInserted(u, kids[j].child, key, ht - 1) && Row(kids, ht - 1) && Row(kids', ht - 1)
             && (j > 0 ==> !BelowFirst(kids[j].child, key))
             && (u.right.Some? ==> Row(InsertAt(kids', j + 1, Kid(FrontKey(u.right.value), u.right.value)), ht - 1))
    ensures WellInserted(Insert(Inner(kids), key, val), Inner(kids), key, ht)
  {
    hide Route, SplitInner, FirstKey, FrontKey, Leq, Less;
    var j := Route(kids, key);
    var u := Insert(kids[j].child, key, val);
    var kids' := kids[j := Kid(if u.modParent then key else kids[j].sep, u.left)];
    FirstKeyOfInner(kids);
    FirstKeyOfInner(kids');
    if u.right.Some? {
      var kids'' := InsertAt(kids', j + 1, Kid(FrontKey(u.right.value), u.right.value));
      FirstKeyOfInner(kids'');
      SplitInnerShaped(kids'', ht - 1);
    } else {
      assert Shaped(Inner(kids'), ht);
    }
  }

  // ---------------------------------------------------------------- order

  /** `pos` separates the pairs not above the key from those above it. */
  ghost predicate Separates(ps: seq<Pair>, pos: nat, key: Key) {
    && pos <= |ps|
    && (forall i :: 0 <= i < pos ==> Leq(ps[i].key, key))
    && (forall i :: pos <= i < |ps| ==> Less(key, ps[i].key))
  }

  lemma SeparatesMiddle(a: seq<Pair>, b: seq<Pair>, c: seq<Pair>, p: nat, key: Key)
    requires Sorted(a + b + c) && Separates(b, p, key)
    requires a != [] ==> b != [] && Leq(b[0].key, key)
    requires c != [] ==> Less(key, c[0].key)
    ensures Separates(a + b + c, |a| + p, key)
  {
    hide Less, Leq;
    var s := a + b + c;
    forall i | 0 <= i < |a| ensures Leq(s[i].key, key) {
      assert s[|a|] == b[0];
      assert Leq(s[i].key, s[|a|].key);
      OrderFacts(s[i].key, b[0].key, key);
    }
    forall i | |a| + |b| <= i < |s| ensures Less(key, s[i].key) {
      assert s[|a| + |b|] == c[0];
      assert i > |a| + |b| ==> Leq(s[|a| + |b|].key, s[i].key);
      OrderFacts(key, c[0].key, s[i].key);
    }
    forall i | |a| <= i < |a| + |b| ensures if i < |a| + p then Leq(s[i].key, key) else Less(key, s[i].key) {
      assert s[i] == b[i - |a|];
    }
  }

  lemma SortedParts(a: seq<Pair>, b: seq<Pair>, c: seq<Pair>)
    requires Sorted(a + b + c)
    ensures Sorted(b)
  {
    forall i, j | 0 <= i < j < |b| ensures Leq(b[i].key, b[j].key) {
      assert (a + b + c)[|a| + i] == b[i] && (a + b + c)[|a| + j] == b[j];
    }
  }

  lemma LeafSeparates(pairs: seq<Pair>, key: Key)
    requires Sorted(pairs) && (key == "" && pairs != [] ==> pairs[0].key == "")
    ensures Separates(pairs, LeafSlot(pairs, key), key)
  {
    hide Less;
    var r := LeafSlot(pairs, key);
    if pairs != [] {
      LessTotal(key, pairs[0].key);
      forall i | 0 <= i < |pairs| ensures if i < r then Leq(pairs[i].key, key) else Less(key, pairs[i].key) {
        assert PairKeys(pairs)[i] == pairs[i].key;
        if i >= r { OrderFacts(key, pairs[r].key, pairs[i].key); }
      }
    }
  }

  /** The pairs around the child a key is routed to. */
  lemma RouteSeparates(kids: seq<Kid>, key: Key, ht: nat)
    requires Shaped(Inner(kids), ht)
    ensures var j := Route(kids, key);
            var b, c := Inorder(kids[j].child), InorderKids(kids[j + 1..]);
            && b != [] && (j > 0 ==> Leq(b[0].key, key)) && FirstKey(kids[j].child) == b[0].key
            && (c != [] ==> Less(key, c[0].key))
  {
    hide Less, Leq, Route;
    RouteFacts(kids, key);
    var j := Route(kids, key);
    FirstKeyIsFirst(kids[j].child, ht - 1);
    if j + 1 < |kids| {
      FirstKeyIsFirst(kids[j + 1].child, ht - 1);
    }
  }

  /** In a sorted tree a key lands after the keys not above it and before the others. */
  lemma {:induction false} PosSeparates(node: Node, key: Key, ht: nat)
    requires Shaped(node, ht) && Sorted(Inorder(node))
    requires key == "" && Inorder(node) != [] ==> Inorder(node)[0].key == ""
    ensures Separates(Inorder(node), Pos(node, key), key)
  {
    match node
    case Leaf(pairs) =>
      LeafSeparates(pairs, key);
    case Inner(kids) =>
      hide Route, Less, Leq, Sorted, Separates;
      var j := Route(kids, key);
      var a, b, c := InorderKids(kids[..j]), Inorder(kids[j].child), InorderKids(kids[j + 1..]);
      InorderAround(kids, j);
      SortedParts(a, b, c);
      RouteSeparates(kids, key, ht);
      assert j == 0 ==> kids[..j] == [];
      OnlyEmptyIsLowest(b[0].key, key);
      PosSeparates(kids[j].child, key, ht - 1);
      SeparatesMiddle(a, b, c, Pos(kids[j].child, key), key);
  }

  lemma OnlyEmptyIsLowest(a: Key, b: Key)
    ensures b == "" && Leq(a, b) ==> a == ""
  {
  }

  lemma SortedInsert(ps: seq<Pair>, pos: nat, x: Pair)
    requires pos <= |ps|
    ensures Sorted(ps) && Separates(ps, pos, x.key) ==> Sorted(InsertAt(ps, pos, x))
    ensures Sorted(InsertAt(ps, pos, x)) ==> Sorted(ps)
  {
    hide Less;
    var s := InsertAt(ps, pos, x);
    assert forall i :: 0 <= i < |ps| ==> ps[i] == s[if i < pos then i else i + 1];
    if Sorted(ps) && Separates(ps, pos, x.key) {
      forall i, j | 0 <= i < j < |s| ensures Leq(s[i].key, s[j].key) {
        LessTotal(s[i].key, s[j].key);
      }
    }
  }

  // ---------------------------------------------------------------- put

  /** Balance, node sizes, labels, and the pair count. */
  ghost predicate Valid(t: Tree) {
    Shaped(t.root, t.height) && t.n == |Inorder(t.root)|
  }

  lemma RelabelHarmless(node: Node, key: Key, ht: nat)
    requires Shaped(node, ht) && FirstKey(node) == key
    ensures var r := Relabel(node, key);
            Shaped(r, ht) && Inorder(r) == Inorder(node) && FirstKey(r) == FirstKey(node) && Width(r) == Width(node)
  {
    match node
    case Leaf(pairs) =>
      if pairs != [] { assert pairs[0 := pairs[0].(key := key)] == pairs; }
    case Inner(kids) =>
      var kids' := kids[0 := kids[0].(sep := key)];
      assert kids'[1..] == kids[1..];
  }

  lemma NewRoot(left: Node, right: Node, ht: nat)
    requires Shaped(left, ht) && Shaped(right, ht) && Half(left) && Half(right) && FrontKey(right) == FirstKey(right)
    ensures var root := Inner([Kid(FrontKey(left), left), Kid(FrontKey(right), right)]);
            Shaped(root, ht + 1) && Inorder(root) == Inorder(left) + Inorder(right)
  {
    var kids := [Kid(FrontKey(left), left), Kid(FrontKey(right), right)];
    assert kids[1..] == [kids[1]];
    InorderOne(kids[1]);
  }

  /** One put: the tree stays valid and its pairs gain exactly the new one. */
  lemma PutAdds(t: Tree, key: Key, val: string)
    requires Valid(t)
    ensures Valid(Put(t, Some(key), val)) && Pos(t.root, key) <= |Inorder(t.root)|
    ensures Inorder(Put(t, Some(key), val).root) == InsertAt(Inorder(t.root), Pos(t.root, key), Pair(key, val))
  {
    hide Insert, Shaped, FirstKey, FrontKey, Pos, Relabel, BelowFirst, Inorder;
    InsertWellInserted(t.root, key, val, t.height);
    InsertContent(t.root, key, val, t.height);
    var u := Insert(t.root, key, val);
    var root := if u.modParent then Relabel(u.left, key) else u.left;
    if u.modParent { RelabelHarmless(u.left, key, t.height); }
    if u.right.Some? { NewRoot(root, u.right.value, t.height); }
  }

  /** The tree after a sequence of puts into an empty tree. */
  ghost function After(puts: seq<Pair>): Tree {
    if puts == [] then EMPTY
    else Put(After(puts[..|puts| - 1]), Some(puts[|puts| - 1].key), puts[|puts| - 1].val)
  }

  /** Every sequence of puts: a valid tree whose leaf pairs are exactly the pairs put. */
  lemma {:induction false} PutsHold(puts: seq<Pair>)
    ensures Valid(After(puts)) && After(puts).n == |puts|
    ensures multiset(Inorder(After(puts).root)) == multiset(puts)
  {
    hide Put;
    if puts != [] {
      var front, x := puts[..|puts| - 1], puts[|puts| - 1];
      PutsHold(front);
      PutAdds(After(front), x.key, x.val);
      assert puts == front + [x];
      var was := Inorder(After(front).root);
      assert was == was[..Pos(After(front).root, x.key)] + was[Pos(After(front).root, x.key)..];
    }
  }

  /** The condition for sorted leaves: an empty key is put only if the very first key put was empty. */
  ghost predicate EmptyKeyFirst(puts: seq<Pair>) {
    forall i :: 0 <= i < |puts| && puts[i].key == "" ==> puts[0].key == ""
  }

  /** An empty key never becomes the first pair of a non-empty tree. */
  lemma {:induction false} EmptyKeyNotInFront(node: Node, ht: nat)
    requires Shaped(node, ht) && Inorder(node) != []
    ensures Pos(node, "") > 0
  {
    if node.Inner? {
      hide Route;
      var j := Route(node.kids, "");
      InorderAround(node.kids, j);
      RouteSeparates(node.kids, "", ht);
      EmptyKeyNotInFront(node.kids[j].child, ht - 1);
    }
  }

  /** The leaves are sorted if and only if the empty key is put first or not at all. */
  lemma {:induction false} SortedIff(puts: seq<Pair>)
    ensures Sorted(Inorder(After(puts).root)) <==> EmptyKeyFirst(puts)
    ensures EmptyKeyFirst(puts) && puts != [] ==>
              Inorder(After(puts).root) != [] && (Inorder(After(puts).root)[0].key == "" <==> puts[0].key == "")
  {
    hide Put, Pos, Less, Separates, Sorted, Inorder;
    if puts == [] {
      NothingSorted();
    } else {
      var front, x := puts[..|puts| - 1], puts[|puts| - 1];
      var t := After(front);
      var was, pos := Inorder(t.root), Pos(t.root, x.key);
      SortedIff(front);
      PutsHold(front);
      PutAdds(t, x.key, x.val);
      SortedInsert(was, pos, x);
      assert front != [] ==> front[0] == puts[0];
      assert forall i :: 0 <= i < |front| ==> front[i] == puts[i];
      if EmptyKeyFirst(puts) {
        assert EmptyKeyFirst(front);
        PosSeparates(t.root, x.key, t.height);
        StaysInFront(was, pos, x);
        if front != [] && x.key == "" { EmptyKeyNotInFront(t.root, t.height); }
      } else if EmptyKeyFirst(front) {
        EmptyKeyNotInFront(t.root, t.height);
        OutOfOrder(was, pos, x);
      }
    }
  }

  lemma NothingSorted()
    ensures Inorder(EMPTY.root) == [] && Sorted(Inorder(EMPTY.root))
  {
  }

  /** Inserting after an empty first key leaves it first; inserting a non-empty key never makes the first key empty. */
  lemma StaysInFront(was: seq<Pair>, pos: nat, x: Pair)
    requires pos <= |was| && Separates(was, pos, x.key)
    ensures was != [] && was[0].key == "" ==> InsertAt(was, pos, x)[0].key == ""
    ensures x.key != "" && (was != [] ==> was[0].key != "") ==> InsertAt(was, pos, x)[0].key != ""
  {
  }

  lemma OutOfOrder(was: seq<Pair>, pos: nat, x: Pair)
    requires 0 < pos <= |was| && x.key == "" && was[0].key != ""
    ensures !Sorted(InsertAt(was, pos, x))
  {
    var s := InsertAt(was, pos, x);
    assert s[0] == was[0] && s[pos] == x;
    OrderFacts(was[0].key, "", "");
  }
}
