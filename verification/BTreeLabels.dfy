/**
 The labels in slot 0 of 29/btree.c, which are never used for routing: exactly when an insertion
 reports `mod_parent`, and what the slot-0 label of each node on the way becomes.
 */
module BTreeLabels {
  import opened Wrappers
  import opened BTree
  import opened BTreeSearch

  /** The key becomes the very first key of the subtree. */
  ghost predicate BecomesFirst(node: Node, key: Key) {
    LeafIndex(node, key) == 0 && GoesFirst(RoutedLeaf(node, key), key)
  }

  /** The leaf the key goes to takes it without a split. */
  ghost predicate LeafHasRoom(node: Node, key: Key) { |RoutedLeaf(node, key)| < M - 1 }

  lemma {:induction false} HasLeaf(node: Node, ht: nat)
    requires Shaped(node, ht)
    ensures Leaves(node) != []
  {
    if node.Inner? { HasLeaf(node.kids[0].child, ht - 1); }
  }

  /** Below an inner node, a key becomes first exactly if it goes to child 0 and becomes first there. */
  lemma FirstThroughChild(kids: seq<Kid>, key: Key, ht: nat)
    requires Shaped(Inner(kids), ht)
    ensures var j := Route(kids, key);
            && (BecomesFirst(Inner(kids), key) <==> j == 0 && BecomesFirst(kids[0].child, key))
            && (LeafHasRoom(Inner(kids), key) <==> LeafHasRoom(kids[j].child, key))
  {
    hide Route, GoesFirst;
    var j := Route(kids, key);
    if j > 0 {
      HasLeaf(kids[0].child, ht - 1);
      assert kids[..j][0] == kids[0];
    } else {
      assert kids[..j] == [];
    }
  }

  /** A child other than the first never reports mod_parent. */
  lemma OnlyFirstReports(kids: seq<Kid>, key: Key, val: string, ht: nat)
    requires Shaped(Inner(kids), ht)
    ensures var j := Route(kids, key); j > 0 ==> !Insert(kids[j].child, key, val).modParent
  {
    hide Route, Insert, Less, Leq, FirstKey;
    var j := Route(kids, key);
    RouteFacts(kids, key);
    InsertWellInserted(kids[j].child, key, val, ht - 1);
    NotBelow(kids, j, key);
  }

  /** What an inner node does with its child's answer. */
  lemma InnerReports(kids: seq<Kid>, key: Key, val: string)
    requires kids != []
    ensures var j := Route(kids, key);
            var u, w := Insert(kids[j].child, key, val), Insert(Inner(kids), key, val);
            && (w.modParent <==> u.modParent && u.right.None?)
            && (u.right.None? ==> w.right.None?)
            && FrontKey(w.left) == if j == 0 && u.modParent then key else kids[0].sep
  {
    hide Route;
  }

  lemma LeafReports(pairs: seq<Pair>, key: Key, val: string)
    ensures var u := Insert(Leaf(pairs), key, val);
            (u.modParent <==> GoesFirst(pairs, key)) && (u.right.None? <==> |pairs| < M - 1)
  {
    hide LeafSlot, GoesFirst;
  }

  /** Nothing splits unless the leaf does. */
  lemma {:induction false} NoSplitWithRoom(node: Node, key: Key, val: string, ht: nat)
    requires Shaped(node, ht) && LeafHasRoom(node, key)
    ensures Insert(node, key, val).right.None?
  {
    hide Route, Insert;
    match node
    case Leaf(pairs) =>
      LeafReports(pairs, key, val);
    case Inner(kids) =>
      NoSplitWithRoom(kids[Route(kids, key)].child, key, val, ht - 1);
      InnerReports(kids, key, val);
  }

  /**
   An insertion reports mod_parent exactly if the key becomes the first of the subtree, and either the node is the
   leaf itself or that leaf is not split: an inner node that absorbs a split forgets the report.
   */
  lemma {:induction false} ModParentIff(node: Node, key: Key, val: string, ht: nat)
    requires Shaped(node, ht)
    ensures Insert(node, key, val).modParent <==> BecomesFirst(node, key) && (ht == 0 || LeafHasRoom(node, key))
  {
    hide Route, Insert, BecomesFirst, LeafHasRoom;
    match node
    case Leaf(pairs) =>
      LeafReports(pairs, key, val);
      LeafIsFirst(pairs, key);
    case Inner(kids) =>
      var j := Route(kids, key);
      ModParentIff(kids[j].child, key, val, ht - 1);
      FirstThroughChild(kids, key, ht);
      OnlyFirstReports(kids, key, val, ht);
      InnerReports(kids, key, val);
      if LeafHasRoom(kids[j].child, key) { NoSplitWithRoom(kids[j].child, key, val, ht - 1); }
      if ht == 1 { LeafRoom(kids[j].child, key, val); }
  }

  lemma LeafIsFirst(pairs: seq<Pair>, key: Key)
    ensures BecomesFirst(Leaf(pairs), key) <==> GoesFirst(pairs, key)
  {
  }

  lemma LeafRoom(node: Node, key: Key, val: string)
    requires Shaped(node, 0)
    ensures Insert(node, key, val).right.None? <==> LeafHasRoom(node, key)
  {
    hide Insert;
    LeafReports(node.pairs, key, val);
  }

  /** The slot-0 label of an inner node after an insertion: the new first key, if the child reported it. */
  lemma FrontLabel(kids: seq<Kid>, key: Key, val: string, ht: nat)
    requires Shaped(Inner(kids), ht)
    ensures FrontKey(Insert(Inner(kids), key, val).left) ==
            if BecomesFirst(Inner(kids), key) && (ht == 1 || LeafHasRoom(Inner(kids), key)) then key else kids[0].sep
  {
    hide Route, Insert, BecomesFirst, LeafHasRoom;
    var j := Route(kids, key);
    ModParentIff(kids[j].child, key, val, ht - 1);
    FirstThroughChild(kids, key, ht);
    InnerReports(kids, key, val);
  }

  /** The relabelling of the root in `put` changes nothing: the label is already there. */
  lemma RootAlreadyLabelled(node: Node, key: Key, val: string, ht: nat)
    requires Shaped(node, ht)
    ensures var u := Insert(node, key, val); u.modParent ==> Relabel(u.left, key) == u.left
  {
    hide Route, BecomesFirst, LeafHasRoom, Insert;
    InsertWellInserted(node, key, val, ht);
    var u := Insert(node, key, val);
    if u.modParent {
      match node
      case Leaf(pairs) =>
        LeafFront(u.left);
      case Inner(kids) =>
        ModParentIff(node, key, val, ht);
        FrontLabel(kids, key, val, ht);
        InnerFront(u.left);
    }
  }

  lemma LeafFront(node: Node)
    requires node.Leaf?
    ensures Relabel(node, FirstKey(node)) == node
  {
    if node.pairs != [] { assert node.pairs[0 := node.pairs[0].(key := FirstKey(node))] == node.pairs; }
  }

  lemma InnerFront(node: Node)
    requires node.Inner?
    ensures Relabel(node, FrontKey(node)) == node
  {
    if node.kids != [] { assert node.kids[0 := node.kids[0].(sep := FrontKey(node))] == node.kids; }
  }

  /** The root's slot-0 label after a put into a tree of inner nodes. */
  lemma RootLabelAfterPut(t: Tree, key: Key, val: string)
    requires Valid(t) && t.root.Inner?
    ensures FrontKey(Put(t, Some(key), val).root) ==
            if BecomesFirst(t.root, key) && (t.height == 1 || LeafHasRoom(t.root, key)) then key else FrontKey(t.root)
  {
    hide BecomesFirst, LeafHasRoom, Insert, Shaped, Relabel, Inorder;
    ShapeOf(t);
    FrontLabel(t.root.kids, key, val, t.height);
    RootAlreadyLabelled(t.root, key, val, t.height);
    InnerHasKids(t.root, t.height);
  }

  /** A tree that was one leaf has the first key in slot 0 of its root, split or not. */
  lemma RootLabelFromLeaf(t: Tree, key: Key, val: string)
    requires Valid(t) && t.root.Leaf?
    ensures FrontKey(Put(t, Some(key), val).root) == FirstKey(Put(t, Some(key), val).root)
  {
    hide LeafSlot, GoesFirst, Inorder;
  }

  lemma InnerHasKids(node: Node, ht: nat)
    requires Shaped(node, ht) && node.Inner?
    ensures node.kids != []
  {
  }

  // ---------------------------------------------------------------- sorted trees

  /** In a sorted tree a key becomes first exactly if it is not empty and below the first key. */
  lemma {:induction false} BecomesFirstIff(node: Node, key: Key, ht: nat)
    requires Shaped(node, ht) && Sorted(Inorder(node)) && Width(node) > 0
    ensures BecomesFirst(node, key) <==> BelowFirst(node, key)
  {
    hide Route, Sorted, Less, Inorder;
    match node
    case Leaf(pairs) =>
    case Inner(kids) =>
      var j := Route(kids, key);
      FirstThroughChild(kids, key, ht);
      SortedChild(kids, 0);
      BecomesFirstIff(kids[0].child, key, ht - 1);
      if j > 0 { AboveFirst(kids, key, ht); }
  }

  lemma SortedChild(kids: seq<Kid>, j: nat)
    requires j < |kids| && Sorted(Inorder(Inner(kids)))
    ensures Sorted(Inorder(kids[j].child))
  {
    InorderAround(kids, j);
    SortedParts(InorderKids(kids[..j]), Inorder(kids[j].child), InorderKids(kids[j + 1..]));
  }

  /** A key that is routed past child 0 is not below the first key. */
  lemma AboveFirst(kids: seq<Kid>, key: Key, ht: nat)
    requires Shaped(Inner(kids), ht) && Sorted(Inorder(Inner(kids))) && Route(kids, key) > 0
    ensures !BelowFirst(Inner(kids), key)
  {
    hide Less, Route;
    var j := Route(kids, key);
    var a, b, c := InorderKids(kids[..j]), Inorder(kids[j].child), InorderKids(kids[j + 1..]);
    RouteSeparates(kids, key, ht);
    InorderAround(kids, j);
    FirstKeyIsFirst(Inner(kids), ht);
    var s := Inorder(Inner(kids));
    assert s == a + b + c && s[|a|] == b[0];
    assert |a| > 0 ==> Leq(s[0].key, s[|a|].key);
    OrderFacts(s[0].key, b[0].key, key);
  }

  // ---------------------------------------------------------------- when nodes split

  /** An inner node holds at least four pairs. */
  lemma InnerHoldsFour(node: Node, ht: nat)
    requires Shaped(node, ht) && node.Inner?
    ensures |Inorder(node)| >= 4
  {
    var kids := node.kids;
    AtLeastTwo(kids[0].child, ht - 1);
    AtLeastTwo(kids[1].child, ht - 1);
    InorderAround(kids, 1);
    assert kids[..1] == [kids[0]];
    InorderOne(kids[0]);
  }

  lemma {:induction false} AtLeastTwo(node: Node, ht: nat)
    requires Shaped(node, ht) && Half(node)
    ensures |Inorder(node)| >= 2
  {
    if node.Inner? { AtLeastTwo(node.kids[0].child, ht - 1); }
  }

  /** The root is split for the first time by the fourth put. */
  lemma FirstSplit(puts: seq<Pair>)
    ensures After(puts).height == 0 <==> |puts| <= 3
  {
    hide After, Inorder;
    PutsHold(puts);
    var t := After(puts);
    if t.root.Inner? { InnerHoldsFour(t.root, t.height); } else { LeafPairs(t.root); }
  }

  lemma LeafPairs(node: Node)
    requires node.Leaf?
    ensures Inorder(node) == node.pairs
  {
  }
}
