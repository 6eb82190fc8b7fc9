/**
 The operations of 29/btree.c on mutable nodes: each node owns a fixed array of M entries and
 a count m, and `insert`, `split` and `put` update them in place. Every method is proved
 against the value model of BTree.dfy.
 */
module BTreeHeap {
  import opened Wrappers
  import B = BTree

  /** entry_t: leaves use key and val, inner nodes key and next. */
  datatype Entry = Entry(key: string, val: string, next: Node?)

  ghost function Pairs(es: seq<Entry>): (ps: seq<B.Pair>)
    ensures |ps| == |es|
  {
    seq(|es|, i requires 0 <= i < |es| => B.Pair(es[i].key, es[i].val))
  }

  ghost function Keys(es: seq<Entry>): (ks: seq<string>)
    ensures |ks| == |es|
  {
    seq(|es|, i requires 0 <= i < |es| => es[i].key)
  }

  /** The child nodes of a row of entries. */
  ghost function Nodes(es: seq<Entry>): set<object> {
    set i | 0 <= i < |es| && es[i].next != null :: es[i].next
  }

  /** All objects of those children. */
  ghost function Objects(es: seq<Entry>): (os: set<object>)
    reads Nodes(es)
    ensures Nodes(es) <= os
  {
    Nodes(es) + (set i, o | 0 <= i < |es| && es[i].next != null && o in es[i].next.repr :: o)
  }

  /** The children are valid, share no objects, and represent `kids`. */
  ghost predicate Row(es: seq<Entry>, kids: seq<B.Kid>, ht: nat)
    reads Nodes(es), Objects(es)
    decreases ht, 1
  {
    && |kids| == |es|
    && (forall i :: 0 <= i < |es| ==> es[i].next != null && es[i].next.Valid(ht))
    && (forall i :: 0 <= i < |es| ==> kids[i] == B.Kid(es[i].key, es[i].next.model))
    && (forall i, j :: 0 <= i < j < |es| ==> es[i].next.repr !! es[j].next.repr)
  }

  lemma ObjectsConcat(a: seq<Entry>, b: seq<Entry>)
    ensures Nodes(a + b) == Nodes(a) + Nodes(b) && Objects(a + b) == Objects(a) + Objects(b)
  {
    var es := a + b;
    assert forall i :: 0 <= i < |a| ==> es[i] == a[i];
    assert forall i :: 0 <= i < |b| ==> b[i] == es[|a| + i];
    assert Nodes(es) == Nodes(a) + Nodes(b);
    forall o ensures o in Objects(es) <==> o in Objects(a) + Objects(b) {
      if o in Objects(es) && o !in Nodes(es) {
        var i :| 0 <= i < |es| && es[i].next != null && o in es[i].next.repr;
        assert if i < |a| then es[i] == a[i] else es[i] == b[i - |a|];
      }
    }
  }

  lemma Owned(es: seq<Entry>, i: nat)
    requires i < |es| && es[i].next != null
    ensures es[i].next.repr <= Objects(es)
  {
  }

  /** Every object of a row belongs to one of its children. */
  lemma Owner(es: seq<Entry>, kids: seq<B.Kid>, ht: nat, o: object) returns (i: nat)
    requires Row(es, kids, ht) && o in Objects(es)
    ensures i < |es| && o in es[i].next.repr
  {
    if o in Nodes(es) {
      i :| 0 <= i < |es| && o == es[i].next;
      assert es[i].next.Valid(ht);
    } else {
      i :| 0 <= i < |es| && es[i].next != null && o in es[i].next.repr;
    }
  }

  lemma RowCut(es: seq<Entry>, kids: seq<B.Kid>, ht: nat, j: nat)
    requires Row(es, kids, ht) && j <= |es|
    ensures |kids| == |es| && Row(es[..j], kids[..j], ht) && Row(es[j..], kids[j..], ht)
    ensures Objects(es[..j]) !! Objects(es[j..]) && Objects(es) == Objects(es[..j]) + Objects(es[j..])
    ensures Nodes(es) == Nodes(es[..j]) + Nodes(es[j..])
  {
    hide Objects, Nodes;
    var a, b := es[..j], es[j..];
    assert es == a + b;
    ObjectsConcat(a, b);
    assert forall i :: 0 <= i < |b| ==> b[i] == es[j + i];
    RowApart(es, kids, ht, j);
  }

  lemma RowApart(es: seq<Entry>, kids: seq<B.Kid>, ht: nat, j: nat)
    requires Row(es, kids, ht) && j <= |es|
    ensures Objects(es[..j]) !! Objects(es[j..])
  {
    hide Objects, Nodes;
    var a, b := es[..j], es[j..];
    assert forall i :: 0 <= i < |b| ==> b[i] == es[j + i];
    assert Row(a, kids[..j], ht) && Row(b, kids[j..], ht);
    forall o | o in Objects(a) ensures o !in Objects(b) {
      var i := Owner(a, kids[..j], ht, o);
      forall k | 0 <= k < |b| ensures o !in b[k].next.repr {
        assert es[i].next.repr !! es[j + k].next.repr;
      }
      NoOwner(b, kids[j..], ht, o);
    }
  }

  lemma NoOwner(es: seq<Entry>, kids: seq<B.Kid>, ht: nat, o: object)
    requires Row(es, kids, ht) && forall k :: 0 <= k < |es| ==> o !in es[k].next.repr
    ensures o !in Objects(es)
  {
    if o in Objects(es) {
      var i := Owner(es, kids, ht, o);
    }
  }

  lemma RowJoin(a: seq<Entry>, k: seq<B.Kid>, b: seq<Entry>, l: seq<B.Kid>, ht: nat)
    requires Row(a, k, ht) && Row(b, l, ht) && Objects(a) !! Objects(b)
    ensures Row(a + b, k + l, ht) && Objects(a + b) == Objects(a) + Objects(b)
    ensures Nodes(a + b) == Nodes(a) + Nodes(b)
  {
    hide Objects;
    ObjectsConcat(a, b);
    var es := a + b;
    forall i | 0 <= i < |es| ensures es[i] == (if i < |a| then a[i] else b[i - |a|]) {
    }
    forall i, j | 0 <= i < j < |es| ensures es[i].next.repr !! es[j].next.repr {
      if i < |a| <= j {
        Owned(a, i);
        Owned(b, j - |a|);
      }
    }
  }

  lemma RowOne(e: Entry, ht: nat)
    requires e.next != null && e.next.Valid(ht)
    ensures Row([e], [B.Kid(e.key, e.next.model)], ht) && Objects([e]) == e.next.repr && Nodes([e]) == {e.next}
  {
    assert [e][0] == e;
  }

  class Node {
    const children: array<Entry>
    var m: nat
    ghost var repr: set<object>
    ghost var model: B.Node

    /** The node and everything below it are separate objects and represent `model`. */
    ghost predicate Valid(ht: nat)
      reads this, repr
      decreases ht, 0
    {
      && this in repr && children in repr
      && children.Length == B.M && m <= B.M
      && if ht == 0 then model == B.Leaf(Pairs(children[..m]))
         else
           && model.Inner? && |model.kids| == m > 0
           && Nodes(children[..m]) <= repr
           && Objects(children[..m]) <= repr - {this, children}
           && Row(children[..m], model.kids, ht - 1)
    }

    /** initNode */
    constructor (m: nat)
      requires m <= B.M
      ensures this.m == m && repr == {this, children} && fresh(children) && children.Length == B.M
      ensures forall i :: 0 <= i < B.M ==> children[i] == Entry("", "", null)
    {
      this.m := m;
      children := new Entry[B.M](_ => Entry("", "", null));
      new;
      repr := {this, children};
    }

    /** The shifting loop at the end of `insert`. */
    method InsertEntry(j: nat, t: Entry)
      requires j <= m < B.M == children.Length
      modifies this`m, children
      ensures m == old(m) + 1
      ensures children[..m] == B.InsertAt(old(children[..m]), j, t)
    {
      ghost var was := children[..m];
      var i := m;
      while i > j
        invariant m == |was| && j <= i <= m
        invariant forall k :: 0 <= k < i ==> children[k] == was[k]
        invariant forall k :: i < k <= m ==> children[k] == was[k - 1]
      {
        children[i] := children[i - 1];
        i := i - 1;
      }
      children[j] := t;
      m := m + 1;
      assert forall k :: 0 <= k < m ==> children[k] == B.InsertAt(was, j, t)[k];
    }
  }

  /** The key scan of `insert` and `search`: the first slot from `j` on whose key is above `key`. */
  method ScanKeys(h: Node, key: string, from: nat) returns (j: nat)
    requires from <= h.m <= h.children.Length
    ensures j == B.Scan(Keys(h.children[..h.m]), key, from)
  {
    ghost var ks := Keys(h.children[..h.m]);
    j := from;
    while j < h.m && !B.Less(key, h.children[j].key)
      invariant from <= j <= h.m
      invariant B.Scan(ks, key, from) == B.Scan(ks, key, j)
    {
      assert ks[j] == h.children[j].key;
      j := j + 1;
    }
    assert j < h.m ==> ks[j] == h.children[j].key;
  }

  lemma PairsInsert(es: seq<Entry>, j: nat, t: Entry)
    requires j <= |es|
    ensures Pairs(B.InsertAt(es, j, t)) == B.InsertAt(Pairs(es), j, B.Pair(t.key, t.val))
  {
  }

  /** `insert` at a leaf, without the split. */
  method InsertLeaf(h: Node, key: string, val: string) returns (modParent: bool)
    requires h.Valid(0) && h.m < B.M
    modifies h.repr
    ensures h.Valid(0) && h.repr == old(h.repr) && h.m == old(h.m) + 1
    ensures modParent == B.GoesFirst(old(h.model).pairs, key)
    ensures h.model == B.Leaf(B.InsertAt(old(h.model).pairs, B.LeafSlot(old(h.model).pairs, key), B.Pair(key, val)))
  {
    hide B.Scan, B.Less, Row, Objects, Nodes;
    modParent := false;
    var j := 0;
    if h.m > 0 {
      if key != "" && B.Less(key, h.children[0].key) {
        modParent := true;
      } else {
        j := ScanKeys(h, key, 1);
        assert Keys(h.children[..h.m]) == B.PairKeys(h.model.pairs);
      }
    }
    ghost var was := h.children[..h.m];
    h.InsertEntry(j, Entry(key, val, null));
    PairsInsert(was, j, Entry(key, val, null));
    h.model := B.Leaf(Pairs(h.children[..h.m]));
  }

  /** The copying loop of `split`. */
  method MoveHalf(h: Node) returns (t: Node)
    requires h.children.Length == B.M == h.m
    modifies h`m
    ensures fresh(t) && fresh(t.children) && t.repr == {t, t.children} && t.children.Length == B.M
    ensures h.m == t.m == B.HALF
    ensures t.children[..B.HALF] == h.children[B.HALF..]
  {
    t := new Node(B.HALF);
    h.m := B.HALF;
    for j := 0 to B.HALF
      invariant forall k :: 0 <= k < j ==> t.children[k] == h.children[B.HALF + k]
      modifies t.children
    {
      t.children[j] := h.children[B.HALF + j];
    }
  }

  /** `split` of a leaf. */
  method SplitLeaf(h: Node) returns (t: Node)
    requires h.Valid(0) && h.m == B.M
    modifies h
    ensures h.Valid(0) && t.Valid(0) && fresh(t.repr) && h.repr <= old(h.repr) && h.repr !! t.repr
    ensures h.model == B.Leaf(old(h.model).pairs[..B.HALF]) && t.model == B.Leaf(old(h.model).pairs[B.HALF..])
  {
    t := MoveHalf(h);
    h.repr := {h, h.children};
    assert Pairs(h.children[..B.HALF]) == h.model.pairs[..B.HALF];
    assert Pairs(t.children[..B.HALF]) == h.model.pairs[B.HALF..];
    t.model := B.Leaf(h.model.pairs[B.HALF..]);
    h.model := B.Leaf(h.model.pairs[..B.HALF]);
  }

  /** `split` of an inner node. */
  method SplitInner(h: Node, ht: nat) returns (t: Node)
    requires ht > 0 && h.Valid(ht) && h.m == B.M
    modifies h
    ensures h.Valid(ht) && t.Valid(ht) && h.repr !! t.repr
    ensures h.repr <= old(h.repr) && fresh(t.repr - old(h.repr))
    ensures h.model == B.Inner(old(h.model).kids[..B.HALF]) && t.model == B.Inner(old(h.model).kids[B.HALF..])
  {
    hide Row, Objects, Nodes;
    ghost var es, kids := h.children[..], h.model.kids;
    assert es == h.children[..h.m];
    RowCut(es, kids, ht - 1, B.HALF);
    ghost var a, b := es[..B.HALF], es[B.HALF..];
    t := MoveHalf(h);
    t.repr := {t, t.children} + Objects(b);
    h.repr := {h, h.children} + Objects(a);
    t.model := B.Inner(kids[B.HALF..]);
    h.model := B.Inner(kids[..B.HALF]);
    assert h.children[..h.m] == a && t.children[..t.m] == b;
  }

  /** The key in slot 0 of a node, as the parent reads it. */
  lemma FrontKeyOf(t: Node, ht: nat)
    requires t.Valid(ht) && B.Width(t.model) > 0
    ensures t.m > 0 && t.children[0].key == B.FrontKey(t.model)
  {
    if ht > 0 {
      assert t.model.kids[0].sep == t.children[..t.m][0].key;
    }
  }

  /** A row with entry j replaced by one or two entries. */
  lemma RowRebuilt(left: seq<Entry>, kl: seq<B.Kid>, mid: seq<Entry>, km: seq<B.Kid>, right: seq<Entry>,
                   kr: seq<B.Kid>, ht: nat)
    requires Row(left, kl, ht) && Row(mid, km, ht) && Row(right, kr, ht)
    requires Objects(left) !! Objects(mid) && Objects(left) !! Objects(right) && Objects(mid) !! Objects(right)
    ensures Row(left + mid + right, kl + km + kr, ht)
    ensures Objects(left + mid + right) == Objects(left) + Objects(mid) + Objects(right)
  {
    hide Row, Objects;
    RowJoin(left, kl, mid, km, ht);
    RowJoin(left + mid, kl + km, right, kr, ht);
  }

  /** The objects that a changed inner node takes over: its row of entries, apart from the node itself. */
  ghost predicate Takes(h: Node, es: seq<Entry>, kids: seq<B.Kid>, ht: nat)
    reads Nodes(es), Objects(es)
  {
    |kids| == |es| && Row(es, kids, ht) && h !in Objects(es) && h.children !in Objects(es)
  }

  /** `h` now has the entries `es`: the ghost fields follow. */
  ghost method Settle(h: Node, ht: nat, es: seq<Entry>, kids: seq<B.Kid>)
    requires ht > 0 && h.children.Length == B.M && 0 < h.m <= B.M && h.children[..h.m] == es
    requires Takes(h, es, kids, ht - 1)
    modifies h`repr, h`model
    ensures h.Valid(ht) && h.repr == {h, h.children} + old(Objects(es)) && h.model == B.Inner(kids)
  {
    hide Row, Objects, Nodes;
    h.repr := {h, h.children} + Objects(es);
    h.model := B.Inner(kids);
  }

  /** A child and its two neighbouring rows. */
  lemma RowAround(es: seq<Entry>, kids: seq<B.Kid>, ht: nat, j: nat)
    requires Row(es, kids, ht) && j < |es|
    ensures |kids| == |es| && Row(es[..j], kids[..j], ht) && Row(es[j + 1..], kids[j + 1..], ht)
    ensures es[j].next != null && es[j].next.Valid(ht) && kids[j] == B.Kid(es[j].key, es[j].next.model)
    ensures Objects(es[..j]) !! Objects(es[j + 1..])
    ensures es[j].next.repr !! Objects(es[..j]) + Objects(es[j + 1..])
    ensures Objects(es) == Objects(es[..j]) + es[j].next.repr + Objects(es[j + 1..])
  {
    hide Row, Objects, Nodes;
    RowCut(es, kids, ht, j);
    var b, k := es[j..], kids[j..];
    RowHead(b, k, ht);
    RowCut(b, k, ht, 1);
    assert b[..1] == [es[j]] && b[1..] == es[j + 1..] && k[1..] == kids[j + 1..];
    RowOne(es[j], ht);
  }

  /** The kids that stand for a child and the node split off it. */
  ghost function MidKids(e: Entry, r: Node?): seq<B.Kid>
    requires e.next != null
    reads e.next, r
  {
    [B.Kid(e.key, e.next.model)] + if r == null then [] else [B.Kid(B.FrontKey(r.model), r.model)]
  }

  /** The row of a child that kept its place, and of the node split off it. */
  lemma RowMid(e: Entry, r: Node?, t: Entry, ht: nat)
    requires e.next != null && e.next.Valid(ht)
    requires r != null ==> t.next == r && r.Valid(ht) && r.repr !! e.next.repr && t.key == B.FrontKey(r.model)
    ensures var mid := if r == null then [e] else [e, t];
            Row(mid, MidKids(e, r), ht) && Objects(mid) == e.next.repr + if r == null then {} else r.repr
  {
    hide Row, Objects, Nodes, B.FrontKey;
    RowOne(e, ht);
    assert r == null ==> MidKids(e, r) == [B.Kid(e.key, e.next.model)];
    if r != null {
      RowOne(t, ht);
      RowJoin([e], [B.Kid(e.key, e.next.model)], [t], [B.Kid(t.key, r.model)], ht);
      assert [e] + [t] == [e, t];
    }
  }

  /** Entry j becomes `e`, and the node split off below it, if any, gets the next slot. */
  method Place(h: Node, j: nat, e: Entry, r: Node?, val: string) returns (t: Entry)
    requires h.children.Length == B.M && j < h.m < B.M
    requires r != null ==> r.m > 0 && r.children.Length == B.M && r.children != h.children
    modifies h`m, h.children
    ensures r != null ==> t == Entry(r.children[0].key, val, r)
    ensures 0 < h.m <= B.M
    ensures h.children[..h.m] ==
            old(h.children[..j]) + (if r == null then [e] else [e, t]) + old(h.children[j + 1..h.m])
  {
    h.children[j] := e;
    t := e;
    if r != null {
      t := Entry(r.children[0].key, val, r);
      h.InsertEntry(j + 1, t);
    }
  }

  /** The same, with rows of entries that do not reach `h`. */
  method PlaceApart(h: Node, j: nat, e: Entry, r: Node?, val: string, ht: nat,
                    ghost left: seq<Entry>, ghost kl: seq<B.Kid>, ghost right: seq<Entry>, ghost kr: seq<B.Kid>)
    returns (t: Entry)
    requires h.children.Length == B.M && j < h.m < B.M
    requires r != null ==> r.m > 0 && r.children.Length == B.M && r.children != h.children
    requires {h, h.children} !! Objects(left) + Objects(right) && Row(left, kl, ht) && Row(right, kr, ht)
    modifies h`m, h.children
    ensures r != null ==> t == Entry(r.children[0].key, val, r)
    ensures 0 < h.m <= B.M
    ensures h.children[..h.m] ==
            old(h.children[..j]) + (if r == null then [e] else [e, t]) + old(h.children[j + 1..h.m])
    ensures Row(left, kl, ht) && Row(right, kr, ht)
    ensures Objects(left) == old(Objects(left)) && Objects(right) == old(Objects(right))
  {
    hide Row;
    t := Place(h, j, e, r, val);
  }

  /** What the child, the node split off it and the other children must keep apart. */
  ghost predicate Apart(h: Node, e: Entry, r: Node?, left: seq<Entry>, right: seq<Entry>)
    reads e.next, r, Nodes(left), Nodes(right)
  {
    var mine := {h, h.children};
    && e.next != null && Objects(left) !! Objects(right)
    && e.next.repr !! Objects(left) + Objects(right) + mine
    && mine !! Objects(left) + Objects(right)
    && (r != null ==> r.repr !! Objects(left) + Objects(right) + e.next.repr + mine)
  }

  /** After the insertion below child j. */
  method Absorb(h: Node, ht: nat, j: nat, e: Entry, r: Node?, val: string,
                ghost left: seq<Entry>, ghost kl: seq<B.Kid>, ghost right: seq<Entry>, ghost kr: seq<B.Kid>)
    requires ht > 0 && h.children.Length == B.M && |left| == j < h.m < B.M
    requires h.children[..j] == left && h.children[j + 1..h.m] == right
    requires |kl| == |left| && Row(left, kl, ht - 1) && |kr| == |right| && Row(right, kr, ht - 1)
    requires Apart(h, e, r, left, right) && e.next.Valid(ht - 1)
    requires r != null ==> r.Valid(ht - 1) && B.Width(r.model) > 0
    modifies h, h.children
    ensures h.Valid(ht) && h.model == B.Inner(kl + MidKids(e, r) + kr)
    ensures h.repr == {h, h.children} +
                      old(Objects(left) + (e.next.repr + if r == null then {} else r.repr) + Objects(right))
  {
    hide Row, Objects, Nodes, B.FrontKey;
    if r != null { FrontKeyOf(r, ht - 1); }
    var t := PlaceApart(h, j, e, r, val, ht - 1, left, kl, right, kr);
    ghost var mid := if r == null then [e] else [e, t];
    RowMid(e, r, t, ht - 1);
    RowRebuilt(left, kl, mid, MidKids(e, r), right, kr, ht - 1);
    Settle(h, ht, left + mid + right, kl + MidKids(e, r) + kr);
  }

  /** `insert` below, with rows of entries that do not reach `c`. */
  method InsertApart(c: Node, key: string, val: string, ht: nat, ghost left: seq<Entry>, ghost kl: seq<B.Kid>,
                     ghost right: seq<Entry>, ghost kr: seq<B.Kid>) returns (r: Node?, modParent: bool)
    requires c.Valid(ht) && B.Shaped(c.model, ht)
    requires c.repr !! Objects(left) + Objects(right) && Row(left, kl, ht) && Row(right, kr, ht)
    modifies c.repr
    ensures c.Valid(ht) && fresh(c.repr - old(c.repr))
    ensures r != null ==> r.Valid(ht) && r.repr !! c.repr && fresh(r.repr - old(c.repr))
    ensures B.Inserted(c.model, if r == null then None else Some(r.model), modParent)
         == B.Insert(old(c.model), key, val)
    ensures Row(left, kl, ht) && Row(right, kr, ht)
    ensures Objects(left) == old(Objects(left)) && Objects(right) == old(Objects(right))
    decreases ht, 3
  {
    hide Row, B.Insert;
    r, modParent := Insert(c, key, val, ht);
  }

  /** What the child at slot j and its neighbours are to the node. */
  ghost predicate Around(h: Node, ht: nat, j: nat, left: seq<Entry>, right: seq<Entry>)
    requires ht > 0 && h.model.Inner? && j < h.m <= h.children.Length
    reads h, h.children, h.children[j].next, Nodes(left), Objects(left), Nodes(right), Objects(right)
    reads if h.children[j].next == null then {} else h.children[j].next.repr
  {
    var e, kids := h.children[j], h.model.kids;
    && |left| == j && |right| == h.m - j - 1 && |kids| == h.m && h.children.Length == B.M
    && h.children[..j] == left && h.children[j + 1..h.m] == right
    && Row(left, kids[..j], ht - 1) && Row(right, kids[j + 1..], ht - 1)
    && Apart(h, e, null, left, right) && e.next.Valid(ht - 1) && kids[j] == B.Kid(e.key, e.next.model)
  }

  /** The routing of `insert` and `search`: which child to descend into. */
  method RouteSlot(h: Node, key: string, ht: nat) returns (j: nat, ghost left: seq<Entry>, ghost right: seq<Entry>)
    requires ht > 0 && h.Valid(ht)
    ensures j == B.Route(h.model.kids, key) && Around(h, ht, j, left, right)
    ensures {h, h.children} + Objects(left) + h.children[j].next.repr + Objects(right) <= h.repr
  {
    hide Row, Objects, Nodes, B.Scan;
    ghost var es, kids := h.children[..h.m], h.model.kids;
    RowKeys(es, kids, ht - 1);
    j := ScanKeys(h, key, 1);
    j := j - 1;
    RowAround(es, kids, ht - 1, j);
    left, right := es[..j], es[j + 1..];
  }

  /** `insert` at an inner node, without the split. */
  method Descend(h: Node, key: string, val: string, ht: nat) returns (modParent: bool)
    requires ht > 0 && h.Valid(ht) && B.Shaped(h.model, ht)
    modifies h.repr
    ensures h.Valid(ht) && fresh(h.repr - old(h.repr))
    ensures h.model == B.Inner(B.Grow(old(h.model).kids, key, val).0)
    ensures modParent == B.Grow(old(h.model).kids, key, val).1
    decreases ht, 0
  {
    hide Row, Objects, Nodes, B.Route, B.Insert, B.FrontKey, B.Grow, B.Shaped, Node.Valid;
    ghost var kids := Kids(h, ht);
    var j, left, right := RouteSlot(h, key, ht);
    KidInserted(kids, j, key, val, ht);
    var e := h.children[j];
    var r, mod := InsertApart(e.next, key, val, ht - 1, left, kids[..j], right, kids[j + 1..]);
    if mod { e := e.(key := key); }
    modParent := mod && r == null;
    Grown(kids, j, key, val, e, r, mod);
    Absorb(h, ht, j, e, r, val, left, kids[..j], right, kids[j + 1..]);
  }

  ghost function Kids(h: Node, ht: nat): (kids: seq<B.Kid>)
    requires ht > 0 && h.Valid(ht)
    reads h, h.repr
    ensures h.model == B.Inner(kids) && kids != []
  {
    h.model.kids
  }

  lemma KidInserted(kids: seq<B.Kid>, j: nat, key: string, val: string, ht: nat)
    requires ht > 0 && B.Shaped(B.Inner(kids), ht) && j < |kids|
    ensures |kids| < B.M && B.Shaped(kids[j].child, ht - 1)
    ensures var right := B.Insert(kids[j].child, key, val).right; right.Some? ==> B.Width(right.value) > 0
  {
    hide B.Insert;
    B.InsertWellInserted(kids[j].child, key, val, ht - 1);
  }

  /** What the child handed back is what the value model puts in its place. */
  lemma Grown(kids: seq<B.Kid>, j: nat, key: string, val: string, e: Entry, r: Node?, mod: bool)
    requires kids != [] && j == B.Route(kids, key) && e.next != null
    requires B.Inserted(e.next.model, if r == null then None else Some(r.model), mod)
          == B.Insert(kids[j].child, key, val)
    requires e.key == if mod then key else kids[j].sep
    ensures B.Grow(kids, key, val) == (kids[..j] + MidKids(e, r) + kids[j + 1..], mod && r == null)
  {
    hide B.Insert, B.FrontKey, B.Route, B.Grow;
    B.GrowParts(kids, key, val);
    var k := B.Kid(e.key, e.next.model);
    assert MidKids(e, r) == if r == null then [k] else [k, B.Kid(B.FrontKey(r.model), r.model)];
  }

  /** `insert`: updates h in place; `right` is the node split off, or null. */
  method Insert(h: Node, key: string, val: string, ht: nat) returns (right: Node?, modParent: bool)
    requires h.Valid(ht) && B.Shaped(h.model, ht)
    modifies h.repr
    ensures h.Valid(ht) && fresh(h.repr - old(h.repr))
    ensures right != null ==> right.Valid(ht) && right.repr !! h.repr && fresh(right.repr - old(h.repr))
    ensures B.Inserted(h.model, if right == null then None else Some(right.model), modParent)
         == B.Insert(old(h.model), key, val)
    decreases ht, 2
  {
    hide B.Insert, B.Shaped, Node.Valid;
    if ht == 0 {
      right, modParent := InsertAtLeaf(h, key, val);
    } else {
      right, modParent := InsertAtInner(h, key, val, ht);
    }
  }

  method InsertAtLeaf(h: Node, key: string, val: string) returns (right: Node?, modParent: bool)
    requires h.Valid(0) && B.Shaped(h.model, 0)
    modifies h.repr
    ensures h.Valid(0) && h.repr <= old(h.repr)
    ensures right != null ==> right.Valid(0) && right.repr !! h.repr && fresh(right.repr)
    ensures B.Inserted(h.model, if right == null then None else Some(right.model), modParent)
         == B.Insert(old(h.model), key, val)
  {
    hide B.LeafSlot, B.GoesFirst, B.InsertAt;
    right := null;
    modParent := InsertLeaf(h, key, val);
    if h.m == B.M {
      right := SplitLeaf(h);
    }
  }

  method InsertAtInner(h: Node, key: string, val: string, ht: nat) returns (right: Node?, modParent: bool)
    requires ht > 0 && h.Valid(ht) && B.Shaped(h.model, ht)
    modifies h.repr
    ensures h.Valid(ht) && fresh(h.repr - old(h.repr))
    ensures right != null ==> right.Valid(ht) && right.repr !! h.repr && fresh(right.repr - old(h.repr))
    ensures B.Inserted(h.model, if right == null then None else Some(right.model), modParent)
         == B.Insert(old(h.model), key, val)
    decreases ht, 1
  {
    hide Row, Objects, Nodes, B.Grow, B.Insert;
    right := null;
    B.GrowThenSplit(h.model.kids, key, val);
    modParent := Descend(h, key, val, ht);
    if h.m == B.M {
      right := SplitInner(h, ht);
      modParent := false;
    }
  }

  lemma RowKeys(es: seq<Entry>, kids: seq<B.Kid>, ht: nat)
    requires Row(es, kids, ht)
    ensures Keys(es) == B.Labels(kids)
  {
  }

  lemma RowHead(es: seq<Entry>, kids: seq<B.Kid>, ht: nat)
    requires Row(es, kids, ht) && es != []
    ensures es[0].next != null && es[0].next.Valid(ht) && es[0].next.repr <= Objects(es)
    ensures kids[0] == B.Kid(es[0].key, es[0].next.model)
  {
  }

  /** The root's slot 0 is relabelled. */
  method Relabel(h: Node, key: string, ht: nat)
    requires h.Valid(ht) && 0 < h.m < B.M
    modifies h, h.children
    ensures h.Valid(ht) && h.repr <= old(h.repr) && h.m == old(h.m)
    ensures h.model == B.Relabel(old(h.model), key)
  {
    hide Row, Objects, Nodes;
    var e := h.children[0].(key := key);
    if ht == 0 {
      ghost var ps := h.model.pairs;
      h.children[0] := e;
      assert Pairs(h.children[..h.m]) == ps[0 := ps[0].(key := key)];
      h.model := B.Leaf(Pairs(h.children[..h.m]));
    } else {
      ghost var es, kids := h.children[..h.m], h.model.kids;
      RowAround(es, kids, ht - 1, 0);
      assert es[..0] == [] && kids[..0] == [];
      Absorb(h, ht, 0, e, null, "", [], [], es[1..], kids[1..]);
      assert [] + MidKids(e, null) + kids[1..] == kids[0 := kids[0].(sep := key)];
    }
  }

  /** The new root over a root that was split: two entries. */
  method Crown(left: Node, right: Node, ht: nat) returns (t: Node)
    requires left.Valid(ht) && right.Valid(ht) && left.repr !! right.repr
    requires B.Width(left.model) > 0 && B.Width(right.model) > 0
    ensures t.Valid(ht + 1) && fresh(t.repr - left.repr - right.repr)
    ensures t.model == B.Inner([B.Kid(B.FrontKey(left.model), left.model), B.Kid(B.FrontKey(right.model), right.model)])
  {
    hide Row, Objects, Nodes, B.FrontKey;
    FrontKeyOf(left, ht);
    FrontKeyOf(right, ht);
    t := new Node(2);
    var e, f := Entry(left.children[0].key, "", left), Entry(right.children[0].key, "", right);
    t.children[0] := e;
    t.children[1] := f;
    assert t.children[..2] == [e, f];
    RowMid(e, right, f, ht);
    Settle(t, ht + 1, [e, f], MidKids(e, right));
  }

  /** `search`, which changes nothing; keys are compared as values. */
  method Search(h: Node, key: string, ht: nat) returns (found: Option<string>)
    requires h.Valid(ht)
    ensures found == B.Search(h.model, key)
    decreases ht
  {
    hide Row, Objects, Nodes, B.Scan;
    if ht == 0 {
      found := FindInLeaf(h, key);
    } else {
      var j, _, _ := RouteSlot(h, key, ht);
      found := Search(h.children[j].next, key, ht - 1);
    }
  }

  method FindInLeaf(h: Node, key: string) returns (found: Option<string>)
    requires h.Valid(0)
    ensures found == B.Find(h.model.pairs, key)
  {
    ghost var ps := h.model.pairs;
    var j := 0;
    while j < h.m
      invariant 0 <= j <= h.m && B.Find(ps, key) == B.Find(ps[j..], key)
    {
      assert ps[j..][1..] == ps[j + 1..];
      if h.children[j].key == key {
        return Some(h.children[j].val);
      }
      j := j + 1;
    }
    return None;
  }

  /** btree_t */
  class Tree {
    var root: Node
    var height: nat
    var n: nat

    ghost predicate Valid()
      reads this, root, root.repr
    {
      this !in root.repr && root.Valid(height) && B.Valid(Model())
    }

    ghost function Model(): B.Tree
      reads this, root
    {
      B.Tree(root.model, height, n)
    }

    /** initBtree */
    constructor ()
      ensures Valid() && fresh(root.repr) && Model() == B.EMPTY
    {
      root := new Node(0);
      height, n := 0, 0;
      new;
      root.model := B.Leaf([]);
    }

    /** `put`; the absent key is the null pointer. */
    method Put(key: Option<string>, val: string)
      requires Valid()
      modifies this, root.repr
      ensures Valid() && fresh(root.repr - old(root.repr))
      ensures Model() == B.Put(old(Model()), key, val)
      ensures key.None? ==> Model() == old(Model())
    {
      hide B.Insert, B.Relabel, B.FrontKey, B.Valid, B.Width, B.Shaped, Row, Objects, Nodes, Node.Valid;
      if key.None? { return; }
      PutValid(Model(), key.value, val);
      var right := InsertAtRoot(root, key.value, val, height);
      n := n + 1;
      if right != null {
        root := Crown(root, right, height);
        height := height + 1;
      }
    }
  }

  /** `insert` at the root, and the new label of its slot 0. */
  method InsertAtRoot(h: Node, key: string, val: string, ht: nat) returns (right: Node?)
    requires h.Valid(ht) && B.Shaped(h.model, ht)
    modifies h.repr
    ensures h.Valid(ht) && fresh(h.repr - old(h.repr)) && B.Width(h.model) > 0
    ensures var u := B.Insert(old(h.model), key, val);
            && h.model == (if u.modParent then B.Relabel(u.left, key) else u.left)
            && (right == null <==> u.right.None?) && (right != null ==> right.model == u.right.value)
    ensures right != null ==> right.Valid(ht) && right.repr !! h.repr && fresh(right.repr - old(h.repr))
    ensures right != null ==> B.Width(right.model) > 0
  {
    hide B.Insert, B.Relabel, B.Width, Row, Objects, Nodes, B.Shaped;
    InsertedWidths(h.model, key, val, ht);
    var mod;
    right, mod := Insert(h, key, val, ht);
    RootWidth(h, ht);
    if mod {
      Relabel(h, key, ht);
      RootWidth(h, ht);
    }
  }

  lemma PutValid(t: B.Tree, key: string, val: string)
    requires B.Valid(t)
    ensures B.Shaped(t.root, t.height) && B.Valid(B.Put(t, Some(key), val))
  {
    hide B.Put, B.Shaped;
    B.PutAdds(t, key, val);
  }

  lemma InsertedWidths(node: B.Node, key: string, val: string, ht: nat)
    requires B.Shaped(node, ht)
    ensures var u := B.Insert(node, key, val);
            0 < B.Width(u.left) < B.M && (u.right.Some? ==> B.Width(u.right.value) > 0)
  {
    hide B.Insert;
    B.InsertWellInserted(node, key, val, ht);
  }

  lemma RootWidth(h: Node, ht: nat)
    requires h.Valid(ht)
    ensures h.m == B.Width(h.model)
  {
  }
}
