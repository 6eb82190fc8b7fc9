/**
 The address phase of projects/filesystems-check/xcheck.c: every address of every inode in use is
 checked against the data region, the bitmap and the addresses seen before.
 */
module Xcheck {
  import opened Wrappers
  import opened Disk

  const FSSIZE: nat := 1000
  const NBMAP: nat := FSSIZE / 8 + BSIZE
  const ROOTINO: nat := 1
  const T_DIR: int := 1
  const T_FILE: int := 2
  const T_DEV: int := 3

  /** The addresses of an inode: direct ones, the indirect block, and its entries. */
  const SLOTS: nat := NDIRECT + 1 + NINDIRECT

  datatype Error = BadInode | BadDirect | BadIndirect | MarkedFree | DirectTwice | IndirectTwice

  type Addresses = a: seq<Uint> | |a| == NDIRECT + 1 witness seq(NDIRECT + 1, _ => 0)

  datatype Dinode = Dinode(kind: int, addrs: Addresses)

  /** `FSSIZE - sb.nblocks` as the unsigned number that check_address receives. */
  function DataStart(nblocks: Uint): Uint { (FSSIZE - nblocks) % WORD }

  // ---------------------------------------------------------------- bitmaps

  /** 0x1 << k */
  function Mask(k: nat): bv8
    requires k < 8
  {
    if k == 0 then 1 else if k == 1 then 2 else if k == 2 then 4 else if k == 3 then 8
    else if k == 4 then 16 else if k == 5 then 32 else if k == 6 then 64 else 128
  }

  lemma MaskIsShift(k: nat)
    requires k < 8
    ensures Mask(k) == (1 as bv8) << k
  {
  }

  predicate Bit(bytes: seq<bv8>, i: nat) {
    i / 8 < |bytes| && bytes[i / 8] & Mask(i % 8) != 0
  }

  function WithBit(bytes: seq<bv8>, a: nat): seq<bv8>
    requires a / 8 < |bytes|
  {
    bytes[a / 8 := bytes[a / 8] | Mask(a % 8)]
  }

  lemma OrSetsOneBit(x: bv8, k: nat, l: nat)
    requires k < 8 && l < 8
    ensures (x | Mask(k)) & Mask(l) != 0 <==> x & Mask(l) != 0 || k == l
  {
  }

  /** The bitmap holds exactly the numbers of the set. */
  ghost predicate Holds(bytes: seq<bv8>, marked: set<nat>) {
    |bytes| == NBMAP && forall i: nat :: Bit(bytes, i) <==> i in marked
  }

  lemma MarkBit(bytes: seq<bv8>, marked: set<nat>, a: nat)
    requires Holds(bytes, marked) && a / 8 < |bytes|
    ensures Holds(WithBit(bytes, a), marked + {a})
  {
    hide Mask;
    var bytes' := WithBit(bytes, a);
    forall i: nat ensures Bit(bytes', i) <==> i in marked + {a} {
      assert Bit(bytes, i) <==> i in marked;
      if i / 8 == a / 8 {
        OrSetsOneBit(bytes[a / 8], a % 8, i % 8);
        assert i % 8 == a % 8 <==> i == a;
      }
    }
  }

  // ---------------------------------------------------------------- what is checked, in order

  /** One call of check_inode_type or check_address. */
  datatype Check = Kind(kind: int) | Address(addr: Uint, direct: bool)

  datatype Outcome = Passed(marked: set<nat>) | Exit(error: Error)

  function CheckOne(c: Check, start: Uint, bmap: seq<bv8>, marked: set<nat>): Outcome {
    match c
    case Kind(kind) =>
      if kind != 0 && kind != T_DIR && kind != T_FILE && kind != T_DEV then Exit(BadInode) else Passed(marked)
    case Address(addr, direct) =>
      if (addr < start && addr != 0) || addr >= FSSIZE then Exit(if direct then BadDirect else BadIndirect)
      else if addr == 0 then Passed(marked)
      else if !Bit(bmap, addr) then Exit(MarkedFree)
      else if addr in marked then Exit(if direct then DirectTwice else IndirectTwice)
      else Passed(marked + {addr as nat})
  }

  function CheckAll(cs: seq<Check>, start: Uint, bmap: seq<bv8>, marked: set<nat>): Outcome {
    if cs == [] then Passed(marked)
    else
      var r := CheckAll(cs[..|cs| - 1], start, bmap, marked);
      if r.Exit? then r else CheckOne(cs[|cs| - 1], start, bmap, r.marked)
  }

  function Addressed(addrs: seq<Uint>, direct: bool): (cs: seq<Check>)
    ensures |cs| == |addrs|
  {
    seq(|addrs|, i requires 0 <= i < |addrs| => Address(addrs[i], direct))
  }

  function Words(b: Block): (ws: seq<Uint>)
    ensures |ws| == NINDIRECT
  {
    seq(NINDIRECT, k requires 0 <= k < NINDIRECT => Word(b, k))
  }

  /**
   The checks of one inode. The indirect block is scanned even if its address is 0: block 0 of the
   image is then read in its place.
   */
  function InodeChecks(ino: Dinode, image: seq<Block>): seq<Check> {
    if ino.kind == 0 then [Kind(0)]
    else
      [Kind(ino.kind)] + Addressed(ino.addrs[..NDIRECT], true) + [Address(ino.addrs[NDIRECT], false)]
      + if ino.addrs[NDIRECT] < |image| then Addressed(Words(image[ino.addrs[NDIRECT]]), false) else []
  }

  /** The checks of the inodes from ROOTINO on, up to inode n. */
  function Checks(inodes: seq<Dinode>, image: seq<Block>, n: nat): seq<Check>
    requires n <= |inodes|
  {
    if n <= ROOTINO then [] else Checks(inodes, image, n - 1) + InodeChecks(inodes[n - 1], image)
  }

  // ---------------------------------------------------------------- acceptance

  /** The addresses visited. */
  ghost function Visited(cs: seq<Check>): set<nat> {
    set i | 0 <= i < |cs| && cs[i].Address? && cs[i].addr != 0 :: cs[i].addr as nat
  }

  predicate Fits(c: Check, start: Uint, bmap: seq<bv8>) {
    match c
    case Kind(kind) => kind == 0 || kind == T_DIR || kind == T_FILE || kind == T_DEV
    case Address(addr, _) => addr == 0 || (start <= addr < FSSIZE && Bit(bmap, addr))
  }

  predicate Apart(c: Check, d: Check) {
    c.Address? && d.Address? && c.addr == d.addr ==> c.addr == 0
  }

  ghost predicate AllFit(cs: seq<Check>, start: Uint, bmap: seq<bv8>) {
    forall i :: 0 <= i < |cs| ==> Fits(cs[i], start, bmap)
  }

  ghost predicate AllApart(cs: seq<Check>) {
    forall i, j :: 0 <= i < j < |cs| ==> Apart(cs[i], cs[j])
  }

  /**
   The checks pass exactly if every kind is legal and all addresses but 0 are in range, set in the bitmap,
   pairwise different and new; what is marked then is exactly what was visited.
   */
  lemma {:induction false} PassedIff(cs: seq<Check>, start: Uint, bmap: seq<bv8>, marked: set<nat>)
    ensures CheckAll(cs, start, bmap, marked).Passed? <==>
            AllFit(cs, start, bmap) && AllApart(cs) && Visited(cs) !! marked
    ensures CheckAll(cs, start, bmap, marked).Passed? ==>
              CheckAll(cs, start, bmap, marked).marked == marked + Visited(cs)
  {
    if cs != [] {
      var front, c := cs[..|cs| - 1], cs[|cs| - 1];
      PassedIff(front, start, bmap, marked);
      assert cs == front + [c];
      VisitedOneMore(front, c);
      FitOneMore(front, c, start, bmap);
      ApartOneMore(front, c);
    }
  }

  lemma VisitedOneMore(cs: seq<Check>, c: Check)
    ensures Visited(cs + [c]) == Visited(cs) + if c.Address? && c.addr != 0 then {c.addr as nat} else {}
  {
    var ds := cs + [c];
    assert forall i :: 0 <= i < |cs| ==> ds[i] == cs[i];
    assert ds[|cs|] == c;
    forall a: nat ensures a in Visited(ds) <==> a in Visited(cs) || (c.Address? && c.addr != 0 && a == c.addr) {
      if a in Visited(ds) {
        var i :| 0 <= i < |ds| && ds[i].Address? && ds[i].addr != 0 && a == ds[i].addr;
        assert i < |cs| ==> cs[i] == ds[i];
      }
    }
  }

  lemma FitOneMore(cs: seq<Check>, c: Check, start: Uint, bmap: seq<bv8>)
    ensures AllFit(cs + [c], start, bmap) <==> AllFit(cs, start, bmap) && Fits(c, start, bmap)
  {
    var ds := cs + [c];
    assert forall i :: 0 <= i < |cs| ==> ds[i] == cs[i];
    assert ds[|cs|] == c;
  }

  lemma ApartOneMore(cs: seq<Check>, c: Check)
    ensures AllApart(cs + [c]) <==> AllApart(cs) && (c.Address? && c.addr != 0 ==> c.addr as nat !in Visited(cs))
  {
    var ds := cs + [c];
    assert forall i :: 0 <= i < |cs| ==> ds[i] == cs[i];
    assert ds[|cs|] == c;
    if AllApart(ds) {
      forall i, j | 0 <= i < j < |cs| ensures Apart(cs[i], cs[j]) { assert Apart(ds[i], ds[j]); }
      forall i | 0 <= i < |cs| ensures Apart(cs[i], c) { assert Apart(ds[i], ds[|cs|]); }
    }
  }

  /** An exit comes from the first check that fails, with that check's error. */
  lemma {:induction false} ExitIsFirst(cs: seq<Check>, start: Uint, bmap: seq<bv8>, marked: set<nat>) returns (k: nat)
    requires CheckAll(cs, start, bmap, marked).Exit?
    ensures k < |cs| && CheckAll(cs[..k], start, bmap, marked).Passed?
    ensures CheckAll(cs, start, bmap, marked) ==
            CheckOne(cs[k], start, bmap, CheckAll(cs[..k], start, bmap, marked).marked)
  {
    var front := cs[..|cs| - 1];
    if CheckAll(front, start, bmap, marked).Passed? {
      k := |cs| - 1;
    } else {
      k := ExitIsFirst(front, start, bmap, marked);
      assert front[..k] == cs[..k];
    }
  }

  /** What each error says about check k. */
  ghost predicate Explains(error: Error, cs: seq<Check>, k: nat, start: Uint, bmap: seq<bv8>)
    requires k < |cs|
  {
    var c := cs[k];
    match error
    case BadInode => c.Kind? && !(0 <= c.kind <= 3)
    case BadDirect => c.Address? && c.direct && Outside(c.addr, start)
    case BadIndirect => c.Address? && !c.direct && Outside(c.addr, start)
    case MarkedFree => c.Address? && c.addr != 0 && !Outside(c.addr, start) && !Bit(bmap, c.addr)
    case DirectTwice => c.Address? && c.direct && Repeated(cs, k, start, bmap)
    case IndirectTwice => c.Address? && !c.direct && Repeated(cs, k, start, bmap)
  }

  /** Neither 0 nor in the data region. */
  predicate Outside(a: Uint, start: Uint) { a != 0 && !(start <= a < FSSIZE) }

  /** A good address that an earlier check has seen. */
  ghost predicate Repeated(cs: seq<Check>, k: nat, start: Uint, bmap: seq<bv8>)
    requires k < |cs| && cs[k].Address?
  {
    var a := cs[k].addr;
    && a != 0 && !Outside(a, start) && Bit(bmap, a)
    && exists j :: 0 <= j < k && cs[j].Address? && cs[j].addr == a
  }

  /** Every exit is explained by the first check that fails: all before it pass, and it has the fault reported. */
  lemma ExitExplained(cs: seq<Check>, start: Uint, bmap: seq<bv8>) returns (k: nat)
    requires CheckAll(cs, start, bmap, {}).Exit?
    ensures k < |cs| && Explains(CheckAll(cs, start, bmap, {}).error, cs, k, start, bmap)
    ensures AllFit(cs[..k], start, bmap) && AllApart(cs[..k])
  {
    hide CheckAll, Bit;
    k := ExitIsFirst(cs, start, bmap, {});
    PassedIff(cs[..k], start, bmap, {});
    var c := cs[k];
    if c.Address? && c.addr as nat in Visited(cs[..k]) {
      var j :| 0 <= j < k && cs[..k][j].Address? && cs[..k][j].addr != 0 && c.addr as nat == cs[..k][j].addr as nat;
      assert cs[j] == cs[..k][j];
    }
  }

  lemma {:induction false} CheckConcat(a: seq<Check>, b: seq<Check>, start: Uint, bmap: seq<bv8>, marked: set<nat>)
    ensures CheckAll(a + b, start, bmap, marked) ==
            var r := CheckAll(a, start, bmap, marked); if r.Exit? then r else CheckAll(b, start, bmap, r.marked)
  {
    if b == [] {
      assert a + b == a;
    } else {
      var front := b[..|b| - 1];
      assert (a + b)[..|a + b| - 1] == a + front;
      CheckConcat(a, front, start, bmap, marked);
    }
  }

  // ---------------------------------------------------------------- what acceptance says about the image

  /**
   The addresses of an inode: direct ones, the indirect block, and the entries of the block read as indirect block.
   */
  function Slot(ino: Dinode, image: seq<Block>, s: nat): Uint
    requires s < SLOTS
  {
    if s <= NDIRECT then ino.addrs[s]
    else if ino.addrs[NDIRECT] < |image| then Word(image[ino.addrs[NDIRECT]], s - NDIRECT - 1)
    else 0
  }

  predicate InUse(inodes: seq<Dinode>, i: nat) {
    ROOTINO <= i < |inodes| && inodes[i].kind != 0
  }

  function Accepts(inodes: seq<Dinode>, image: seq<Block>, start: Uint, bmap: seq<bv8>): Outcome {
    CheckAll(Checks(inodes, image, |inodes|), start, bmap, {})
  }

  lemma {:induction false} ChecksPrefix(inodes: seq<Dinode>, image: seq<Block>, m: nat, n: nat)
    requires m <= n <= |inodes|
    ensures |Checks(inodes, image, m)| <= |Checks(inodes, image, n)|
    ensures Checks(inodes, image, n)[..|Checks(inodes, image, m)|] == Checks(inodes, image, m)
  {
    hide InodeChecks;
    if m < n { ChecksPrefix(inodes, image, m, n - 1); }
  }

  /** Where the check of slot s of inode i stands. */
  ghost function Place(inodes: seq<Dinode>, image: seq<Block>, i: nat, s: nat): nat
    requires InUse(inodes, i)
  {
    |Checks(inodes, image, i)| + 1 + s
  }

  lemma SlotChecked(inodes: seq<Dinode>, image: seq<Block>, i: nat, s: nat)
    requires InUse(inodes, i) && s < SLOTS
    requires s <= NDIRECT || inodes[i].addrs[NDIRECT] < |image|
    ensures var k := Place(inodes, image, i, s);
            k < |Checks(inodes, image, i + 1)| <= |Checks(inodes, image, |inodes|)|
            && Checks(inodes, image, |inodes|)[k] == Address(Slot(inodes[i], image, s), s < NDIRECT)
  {
    hide Checks, InodeChecks, Slot;
    InodeSlot(inodes[i], image, s);
    ChecksPrefix(inodes, image, i + 1, |inodes|);
    OneInode(inodes, image, i);
    var all, part := Checks(inodes, image, |inodes|), Checks(inodes, image, i + 1);
    var k := Place(inodes, image, i, s);
    assert all[k] == all[..|part|][k];
  }

  lemma OneInode(inodes: seq<Dinode>, image: seq<Block>, i: nat)
    requires ROOTINO <= i < |inodes|
    ensures Checks(inodes, image, i + 1) == Checks(inodes, image, i) + InodeChecks(inodes[i], image)
  {
  }

  lemma InodeSlot(ino: Dinode, image: seq<Block>, s: nat)
    requires ino.kind != 0 && s < SLOTS && (s <= NDIRECT || ino.addrs[NDIRECT] < |image|)
    ensures 1 + s < |InodeChecks(ino, image)|
    ensures InodeChecks(ino, image)[1 + s] == Address(Slot(ino, image, s), s < NDIRECT)
  {
    hide Word;
  }

  /**
   On an accepted image every address of every inode in use is in the data region and set in the bitmap, and no two
   are the same.
   */
  lemma OwnedOnce(inodes: seq<Dinode>, image: seq<Block>, start: Uint, bmap: seq<bv8>, i: nat, s: nat, j: nat, t: nat)
    requires |image| == FSSIZE && Accepts(inodes, image, start, bmap).Passed?
    requires InUse(inodes, i) && s < SLOTS && InUse(inodes, j) && t < SLOTS
    ensures var a := Slot(inodes[i], image, s);
            a != 0 ==>
              && start <= a < FSSIZE && Bit(bmap, a) && a as nat in Accepts(inodes, image, start, bmap).marked
              && ((i, s) != (j, t) ==> a != Slot(inodes[j], image, t))
  {
    hide Checks, InodeChecks, Slot, CheckAll, Bit;
    IndirectInRange(inodes, image, start, bmap, i);
    IndirectInRange(inodes, image, start, bmap, j);
    SlotChecked(inodes, image, i, s);
    SlotChecked(inodes, image, j, t);
    var cs := Checks(inodes, image, |inodes|);
    PassedIff(cs, start, bmap, {});
    var k, l := Place(inodes, image, i, s), Place(inodes, image, j, t);
    assert Fits(cs[k], start, bmap);
    if i < j { ChecksPrefix(inodes, image, i + 1, j); }
    if j < i { ChecksPrefix(inodes, image, j + 1, i); }
    if k < l { assert Apart(cs[k], cs[l]); } else if l < k { assert Apart(cs[l], cs[k]); }
  }

  lemma IndirectInRange(inodes: seq<Dinode>, image: seq<Block>, start: Uint, bmap: seq<bv8>, i: nat)
    requires |image| == FSSIZE && Accepts(inodes, image, start, bmap).Passed? && InUse(inodes, i)
    ensures inodes[i].addrs[NDIRECT] < FSSIZE
  {
    hide Checks, InodeChecks, CheckAll, Bit;
    SlotChecked(inodes, image, i, NDIRECT);
    var cs := Checks(inodes, image, |inodes|);
    PassedIff(cs, start, bmap, {});
    assert Fits(cs[Place(inodes, image, i, NDIRECT)], start, bmap);
  }

  /** The addresses that belong to an inode: without an indirect block it has only its direct ones. */
  function RealSlot(ino: Dinode, image: seq<Block>, s: nat): Uint
    requires s < SLOTS
  {
    if s > NDIRECT && ino.addrs[NDIRECT] == 0 then 0 else Slot(ino, image, s)
  }

  /** The addresses that are visited, or the ones that belong to the inode. */
  function SlotOf(owned: bool, ino: Dinode, image: seq<Block>, s: nat): Uint
    requires s < SLOTS
  {
    if owned then RealSlot(ino, image, s) else Slot(ino, image, s)
  }

  ghost predicate LegalKinds(inodes: seq<Dinode>) {
    forall i :: ROOTINO <= i < |inodes| ==> Fits(Kind(inodes[i].kind), 0, [])
  }

  /** Slot s of inode i, if in use, is 0, or in the data region and set in the bitmap. */
  predicate SlotFits(owned: bool, inodes: seq<Dinode>, image: seq<Block>, start: Uint, bmap: seq<bv8>, i: nat, s: nat) {
    InUse(inodes, i) && s < SLOTS ==> Fits(Address(SlotOf(owned, inodes[i], image, s), s < NDIRECT), start, bmap)
  }

  /** Slot s of inode i and slot t of inode j, if in use and not the same, share no address but 0. */
  predicate TwoApart(owned: bool, inodes: seq<Dinode>, image: seq<Block>, i: nat, s: nat, j: nat, t: nat) {
    InUse(inodes, i) && s < SLOTS && InUse(inodes, j) && t < SLOTS && (i, s) != (j, t) ==>
      Apart(Address(SlotOf(owned, inodes[i], image, s), true), Address(SlotOf(owned, inodes[j], image, t), true))
  }

  ghost predicate SlotsFit(owned: bool, inodes: seq<Dinode>, image: seq<Block>, start: Uint, bmap: seq<bv8>) {
    forall i: nat, s: nat :: SlotFits(owned, inodes, image, start, bmap, i, s)
  }

  ghost predicate SlotsApart(owned: bool, inodes: seq<Dinode>, image: seq<Block>) {
    forall i: nat, s: nat, j: nat, t: nat :: TwoApart(owned, inodes, image, i, s, j, t)
  }

  ghost predicate Clean(owned: bool, inodes: seq<Dinode>, image: seq<Block>, start: Uint, bmap: seq<bv8>) {
    LegalKinds(inodes) && SlotsFit(owned, inodes, image, start, bmap) && SlotsApart(owned, inodes, image)
  }

  /** Which inode check k is about: its kind, or one of its slots. */
  lemma {:induction false} CheckedSlot(inodes: seq<Dinode>, image: seq<Block>, n: nat, k: nat) returns (i: nat, s: nat)
    requires n <= |inodes| && k < |Checks(inodes, image, n)|
    ensures ROOTINO <= i < n
    ensures var c := Checks(inodes, image, n)[k];
            if k == |Checks(inodes, image, i)| then c == Kind(inodes[i].kind)
            else InUse(inodes, i) && s < SLOTS && k == Place(inodes, image, i, s) &&
                 c == Address(Slot(inodes[i], image, s), s < NDIRECT)
  {
    hide InodeChecks, Slot;
    s := 0;
    var before := |Checks(inodes, image, n - 1)|;
    if k < before {
      i, s := CheckedSlot(inodes, image, n - 1, k);
    } else {
      i := n - 1;
      s := InodeCheck(inodes[i], image, k - before);
    }
  }

  lemma InodeCheck(ino: Dinode, image: seq<Block>, k: nat) returns (s: nat)
    requires k < |InodeChecks(ino, image)|
    ensures if k == 0 then InodeChecks(ino, image)[k] == Kind(ino.kind)
            else ino.kind != 0 && s < SLOTS && k == 1 + s &&
                 InodeChecks(ino, image)[k] == Address(Slot(ino, image, s), s < NDIRECT)
  {
    hide InodeChecks, Slot;
    s := 0;
    if k == 0 {
      KindFirst(ino, image);
    } else {
      s := k - 1;
      ChecksOfInode(ino, image);
      InodeSlot(ino, image, s);
    }
  }

  lemma ChecksOfInode(ino: Dinode, image: seq<Block>)
    ensures |InodeChecks(ino, image)| ==
            if ino.kind == 0 then 1
            else 2 + NDIRECT + if ino.addrs[NDIRECT] < |image| then NINDIRECT else 0
  {
    hide Word;
  }

  /** The kind of every inode is checked. */
  lemma KindChecked(inodes: seq<Dinode>, image: seq<Block>, i: nat)
    requires ROOTINO <= i < |inodes|
    ensures var k := |Checks(inodes, image, i)|;
            k < |Checks(inodes, image, |inodes|)| && Checks(inodes, image, |inodes|)[k] == Kind(inodes[i].kind)
  {
    hide Checks, InodeChecks;
    ChecksPrefix(inodes, image, i + 1, |inodes|);
    OneInode(inodes, image, i);
    KindFirst(inodes[i], image);
    var all, part := Checks(inodes, image, |inodes|), Checks(inodes, image, i + 1);
    assert all[|Checks(inodes, image, i)|] == all[..|part|][|Checks(inodes, image, i)|];
  }

  lemma KindFirst(ino: Dinode, image: seq<Block>)
    ensures InodeChecks(ino, image) != [] && InodeChecks(ino, image)[0] == Kind(ino.kind)
  {
  }

  /** A clean image is accepted. */
  lemma CleanAccepted(inodes: seq<Dinode>, image: seq<Block>, start: Uint, bmap: seq<bv8>)
    requires Clean(false, inodes, image, start, bmap)
    ensures Accepts(inodes, image, start, bmap).Passed?
  {
    hide Checks, Slot, CheckAll, Bit;
    var cs := Checks(inodes, image, |inodes|);
    forall k | 0 <= k < |cs| ensures Fits(cs[k], start, bmap) {
      var i, s := CheckedSlot(inodes, image, |inodes|, k);
      assert SlotFits(false, inodes, image, start, bmap, i, s);
    }
    forall k, l | 0 <= k < l < |cs| ensures Apart(cs[k], cs[l]) {
      var i, s := CheckedSlot(inodes, image, |inodes|, k);
      var j, t := CheckedSlot(inodes, image, |inodes|, l);
      assert TwoApart(false, inodes, image, i, s, j, t);
    }
    PassedIff(cs, start, bmap, {});
  }

  /** An accepted image is clean. */
  lemma AcceptedClean(inodes: seq<Dinode>, image: seq<Block>, start: Uint, bmap: seq<bv8>)
    requires |image| == FSSIZE && Accepts(inodes, image, start, bmap).Passed?
    ensures Clean(false, inodes, image, start, bmap)
  {
    hide Checks, Slot, CheckAll, Bit, Accepts;
    forall i | ROOTINO <= i < |inodes|
      ensures Fits(Kind(inodes[i].kind), 0, [])
    {
      KindLegal(inodes, image, start, bmap, i);
    }
    forall i: nat, s: nat ensures SlotFits(false, inodes, image, start, bmap, i, s) {
      if InUse(inodes, i) && s < SLOTS { OwnedOnce(inodes, image, start, bmap, i, s, i, s); }
    }
    forall i: nat, s: nat, j: nat, t: nat ensures TwoApart(false, inodes, image, i, s, j, t) {
      if InUse(inodes, i) && s < SLOTS && InUse(inodes, j) && t < SLOTS {
        OwnedOnce(inodes, image, start, bmap, i, s, j, t);
      }
    }
  }

  lemma KindLegal(inodes: seq<Dinode>, image: seq<Block>, start: Uint, bmap: seq<bv8>, i: nat)
    requires Accepts(inodes, image, start, bmap).Passed? && ROOTINO <= i < |inodes|
    ensures Fits(Kind(inodes[i].kind), 0, [])
  {
    hide Checks, CheckAll, Bit;
    KindChecked(inodes, image, i);
    var cs := Checks(inodes, image, |inodes|);
    PassedIff(cs, start, bmap, {});
    assert Fits(cs[|Checks(inodes, image, i)|], start, bmap);
  }

  /**
   The address phase accepts an image exactly if all kinds are legal and all addresses visited are clean, and
   then marks exactly those that are not 0.
   */
  lemma AcceptsIff(inodes: seq<Dinode>, image: seq<Block>, start: Uint, bmap: seq<bv8>)
    requires |image| == FSSIZE
    ensures Accepts(inodes, image, start, bmap).Passed? <==> Clean(false, inodes, image, start, bmap)
    ensures Accepts(inodes, image, start, bmap).Passed? ==> forall a: nat ::
              a in Accepts(inodes, image, start, bmap).marked <==> a != 0 && Visits(inodes, image, a)
  {
    hide Clean, Accepts, Visits;
    if Clean(false, inodes, image, start, bmap) { CleanAccepted(inodes, image, start, bmap); }
    if Accepts(inodes, image, start, bmap).Passed? {
      AcceptedClean(inodes, image, start, bmap);
      forall a: nat ensures a in Accepts(inodes, image, start, bmap).marked <==> a != 0 && Visits(inodes, image, a) {
        MarkedIffVisited(inodes, image, start, bmap, a);
      }
    }
  }

  /** Some inode in use has the address. */
  ghost predicate Visits(inodes: seq<Dinode>, image: seq<Block>, a: nat) {
    exists i: nat, s: nat :: InUse(inodes, i) && s < SLOTS && Slot(inodes[i], image, s) == a
  }

  lemma MarkedIffVisited(inodes: seq<Dinode>, image: seq<Block>, start: Uint, bmap: seq<bv8>, a: nat)
    requires |image| == FSSIZE && Accepts(inodes, image, start, bmap).Passed?
    ensures a in Accepts(inodes, image, start, bmap).marked <==> a != 0 && Visits(inodes, image, a)
  {
    hide Checks, Slot, CheckAll, Bit;
    var cs := Checks(inodes, image, |inodes|);
    PassedIff(cs, start, bmap, {});
    if a in Visited(cs) {
      var k :| 0 <= k < |cs| && cs[k].Address? && cs[k].addr != 0 && a == cs[k].addr;
      var i, s := CheckedSlot(inodes, image, |inodes|, k);
    }
    if a != 0 && Visits(inodes, image, a) {
      var i: nat, s: nat :| InUse(inodes, i) && s < SLOTS && Slot(inodes[i], image, s) == a;
      OwnedOnce(inodes, image, start, bmap, i, s, i, s);
    }
  }

  // ---------------------------------------------------------------- acceptance in terms of the superblock

  /** Address 0, or one of the last nblocks of the 1000 blocks of an image, marked as used in the bitmap. */
  predicate GoodAddress(a: Uint, nblocks: Uint, bmap: seq<bv8>) {
    a == 0 || (nblocks <= 1000 && 1000 - nblocks <= a < 1000 && Bit(bmap, a))
  }

  predicate GoodSlot(inodes: seq<Dinode>, image: seq<Block>, nblocks: Uint, bmap: seq<bv8>, i: nat, s: nat) {
    1 <= i < |inodes| && inodes[i].kind != 0 && s < SLOTS ==> GoodAddress(Slot(inodes[i], image, s), nblocks, bmap)
  }

  predicate OwnSlot(inodes: seq<Dinode>, image: seq<Block>, i: nat, s: nat, j: nat, t: nat) {
    && 1 <= i < |inodes| && inodes[i].kind != 0 && s < SLOTS
    && 1 <= j < |inodes| && inodes[j].kind != 0 && t < SLOTS
    && (i != j || s != t) && Slot(inodes[i], image, s) == Slot(inodes[j], image, t)
    ==> Slot(inodes[i], image, s) == 0
  }

  /** All kinds are legal, and the addresses of the inodes in use are good and occur once. */
  ghost predicate Sound(inodes: seq<Dinode>, image: seq<Block>, nblocks: Uint, bmap: seq<bv8>) {
    && (forall i :: 1 <= i < |inodes| ==> 0 <= inodes[i].kind <= 3)
    && (forall i: nat, s: nat :: GoodSlot(inodes, image, nblocks, bmap, i, s))
    && (forall i: nat, s: nat, j: nat, t: nat :: OwnSlot(inodes, image, i, s, j, t))
  }

  lemma AcceptsSound(inodes: seq<Dinode>, image: seq<Block>, nblocks: Uint, bmap: seq<bv8>)
    requires |image| == FSSIZE
    ensures Accepts(inodes, image, DataStart(nblocks), bmap).Passed? <==> Sound(inodes, image, nblocks, bmap)
  {
    hide Accepts, Slot, Bit;
    var start := DataStart(nblocks);
    AcceptsIff(inodes, image, start, bmap);
    forall i: nat, s: nat
      ensures GoodSlot(inodes, image, nblocks, bmap, i, s) <==> SlotFits(false, inodes, image, start, bmap, i, s)
    {
    }
    forall i: nat, s: nat, j: nat, t: nat
      ensures OwnSlot(inodes, image, i, s, j, t) <==> TwoApart(false, inodes, image, i, s, j, t)
    {
    }
    assert LegalKinds(inodes) <==> forall i :: 1 <= i < |inodes| ==> 0 <= inodes[i].kind <= 3 by {
      assert forall i :: 1 <= i < |inodes| ==> (Fits(Kind(inodes[i].kind), 0, []) <==> 0 <= inodes[i].kind <= 3);
    }
  }

  // ---------------------------------------------------------------- block 0

  ghost predicate Blank(b: Block) { forall k :: 0 <= k < NINDIRECT ==> Word(b, k) == 0 }

  /** Two inodes without an indirect block share every nonzero word of block 0. */
  lemma BlockZeroBlank(inodes: seq<Dinode>, image: seq<Block>, start: Uint, bmap: seq<bv8>, i: nat, j: nat, k: nat)
    requires |image| == FSSIZE && Accepts(inodes, image, start, bmap).Passed?
    requires InUse(inodes, i) && InUse(inodes, j) && i != j && inodes[i].addrs[NDIRECT] == inodes[j].addrs[NDIRECT] == 0
    requires k < NINDIRECT
    ensures Word(image[0], k) == 0
  {
    hide Word, Accepts;
    var s := NDIRECT + 1 + k;
    OwnedOnce(inodes, image, start, bmap, i, s, j, s);
  }

  /**
   Block 0 is scanned in place of a missing indirect block. So with two inodes that have none, an image is
   accepted exactly if block 0 is blank and the addresses that belong to its inodes are clean.
   */
  lemma BlockZeroIff(inodes: seq<Dinode>, image: seq<Block>, start: Uint, bmap: seq<bv8>, i: nat, j: nat)
    requires |image| == FSSIZE
    requires InUse(inodes, i) && InUse(inodes, j) && i != j && inodes[i].addrs[NDIRECT] == inodes[j].addrs[NDIRECT] == 0
    ensures Accepts(inodes, image, start, bmap).Passed? <==>
            Blank(image[0]) && Clean(true, inodes, image, start, bmap)
  {
    hide Accepts, Clean, Word;
    AcceptsIff(inodes, image, start, bmap);
    if Accepts(inodes, image, start, bmap).Passed? {
      forall k | 0 <= k < NINDIRECT
        ensures Word(image[0], k) == 0
      {
        BlockZeroBlank(inodes, image, start, bmap, i, j, k);
      }
    }
    if Blank(image[0]) { BlankIsHarmless(inodes, image, start, bmap); }
  }

  /** Two empty files, and an image in which every byte is one. */
  function TwoEmptyFiles(): seq<Dinode> { seq(3, _ => Dinode(T_FILE, seq(NDIRECT + 1, _ => 0))) }

  function AllOnes(): seq<Block> { seq(FSSIZE, _ => seq(BSIZE, _ => 1)) }

  /** Nothing is wrong with the addresses of these files, and yet the image is rejected. */
  lemma CleanButRejected(bmap: seq<bv8>)
    ensures Clean(true, TwoEmptyFiles(), AllOnes(), 100, bmap)
    ensures !Accepts(TwoEmptyFiles(), AllOnes(), 100, bmap).Passed?
  {
    var inodes, image := TwoEmptyFiles(), AllOnes();
    NothingOwned(bmap);
    assert Word(image[0], 0) != 0 by { assert image[0][0..4] == [1, 1, 1, 1]; }
    BlockZeroIff(inodes, image, 100, bmap, 1, 2);
  }

  lemma NothingOwned(bmap: seq<bv8>)
    ensures Clean(true, TwoEmptyFiles(), AllOnes(), 100, bmap)
  {
    hide Word, Bit;
    var inodes, image := TwoEmptyFiles(), AllOnes();
    assert forall i: nat, s: nat :: i < |inodes| && s < SLOTS ==> SlotOf(true, inodes[i], image, s) == 0;
  }

  /** With block 0 blank, what is visited is what belongs to the inodes. */
  lemma BlankIsHarmless(inodes: seq<Dinode>, image: seq<Block>, start: Uint, bmap: seq<bv8>)
    requires |image| == FSSIZE && Blank(image[0])
    ensures Clean(false, inodes, image, start, bmap) <==> Clean(true, inodes, image, start, bmap)
  {
    hide Word, Bit;
    assert forall ino: Dinode, s: nat :: s < SLOTS ==> SlotOf(true, ino, image, s) == SlotOf(false, ino, image, s);
    forall i: nat, s: nat
      ensures SlotFits(true, inodes, image, start, bmap, i, s) == SlotFits(false, inodes, image, start, bmap, i, s)
    {
    }
    forall i: nat, s: nat, j: nat, t: nat
      ensures TwoApart(true, inodes, image, i, s, j, t) == TwoApart(false, inodes, image, i, s, j, t)
    {
    }
  }

  // ---------------------------------------------------------------- the loops

  /** `error` is the exit taken, if any; otherwise the bitmap holds what the model has marked. */
  ghost predicate Reports(error: Option<Error>, mark: seq<bv8>, r: Outcome) {
    match error
    case None => r.Passed? && Holds(mark, r.marked)
    case Some(e) => r == Exit(e)
  }

  method CheckInodeType(kind: int) returns (error: Option<Error>)
    ensures error == if Fits(Kind(kind), 0, []) then None else Some(BadInode)
  {
    if kind != 0 && kind != T_DIR && kind != T_FILE && kind != T_DEV {
      return Some(BadInode);
    }
    return None;
  }

  method CheckAddress(addr: Uint, direct: bool, start: Uint, bmap: seq<bv8>, mark: array<bv8>, ghost marked: set<nat>)
    returns (error: Option<Error>)
    requires |bmap| == NBMAP && Holds(mark[..], marked)
    modifies mark
    ensures Reports(error, mark[..], CheckOne(Address(addr, direct), start, bmap, marked))
  {
    hide Mask, Holds, Bit, WithBit;
    if (addr < start && addr != 0) || addr >= FSSIZE {
      return if direct then Some(BadDirect) else Some(BadIndirect);
    }
    if addr == 0 {
      return None;
    }
    HoldsBit(mark[..], marked, addr);
    if !Bit(bmap, addr) {
      return Some(MarkedFree);
    }
    if Bit(mark[..], addr) {
      return if direct then Some(DirectTwice) else Some(IndirectTwice);
    }
    MarkBit(mark[..], marked, addr);
    SetBit(mark, addr);
    return None;
  }

  /** bmap_mark[index / 8] |= b */
  method SetBit(mark: array<bv8>, index: nat)
    requires index / 8 < mark.Length
    modifies mark
    ensures mark[..] == WithBit(old(mark[..]), index)
  {
    hide Mask;
    ghost var was := mark[..];
    mark[index / 8] := mark[index / 8] | Mask(index % 8);
    assert mark[..] == was[index / 8 := was[index / 8] | Mask(index % 8)];
  }

  lemma HoldsBit(bytes: seq<bv8>, marked: set<nat>, i: nat)
    requires Holds(bytes, marked)
    ensures |bytes| == NBMAP && (Bit(bytes, i) <==> i in marked)
  {
  }

  /** A loop of check_address over a row of addresses. */
  method CheckAddresses(addrs: seq<Uint>, direct: bool, start: Uint, bmap: seq<bv8>, mark: array<bv8>,
                        ghost marked: set<nat>)
    returns (error: Option<Error>)
    requires |bmap| == NBMAP && Holds(mark[..], marked)
    modifies mark
    ensures Reports(error, mark[..], CheckAll(Addressed(addrs, direct), start, bmap, marked))
  {
    hide Holds, CheckOne;
    ghost var cs := Addressed(addrs, direct);
    ghost var m := marked;
    for j := 0 to |addrs|
      invariant CheckAll(cs[..j], start, bmap, marked) == Passed(m) && Holds(mark[..], m)
    {
      error := CheckAddress(addrs[j], direct, start, bmap, mark, m);
      assert cs[..j + 1][..j] == cs[..j];
      if error.Some? {
        ExitStays(cs, j + 1, start, bmap, marked);
        return;
      }
      m := CheckAll(cs[..j + 1], start, bmap, marked).marked;
    }
    assert cs[..|addrs|] == cs;
    return None;
  }

  lemma ExitStays(cs: seq<Check>, k: nat, start: Uint, bmap: seq<bv8>, marked: set<nat>)
    requires k <= |cs| && CheckAll(cs[..k], start, bmap, marked).Exit?
    ensures CheckAll(cs, start, bmap, marked) == CheckAll(cs[..k], start, bmap, marked)
  {
    assert cs == cs[..k] + cs[k..];
    CheckConcat(cs[..k], cs[k..], start, bmap, marked);
  }

  method CheckInode(ino: Dinode, image: seq<Block>, start: Uint, bmap: seq<bv8>, mark: array<bv8>,
                    ghost marked: set<nat>)
    returns (error: Option<Error>)
    requires |image| == FSSIZE && |bmap| == NBMAP && Holds(mark[..], marked)
    modifies mark
    ensures Reports(error, mark[..], CheckAll(InodeChecks(ino, image), start, bmap, marked))
  {
    hide Holds, CheckAll, Word;
    ghost var kind := [Kind(ino.kind)];
    CheckSingle(Kind(ino.kind), start, bmap, marked);
    error := CheckInodeType(ino.kind);
    if ino.kind == 0 {
      return;
    }
    ghost var direct := Addressed(ino.addrs[..NDIRECT], true);
    ghost var pointer := Address(ino.addrs[NDIRECT], false);
    ghost var rest := if ino.addrs[NDIRECT] < |image| then Addressed(Words(image[ino.addrs[NDIRECT]]), false) else [];
    InParts(kind, direct, pointer, rest, start, bmap, marked);
    if error.Some? {
      return;
    }
    error := CheckAddresses(ino.addrs[..NDIRECT], true, start, bmap, mark, marked);
    if error.Some? {
      return;
    }
    ghost var m := CheckAll(direct, start, bmap, marked).marked;
    error := CheckAddress(ino.addrs[NDIRECT], false, start, bmap, mark, m);
    if error.Some? {
      return;
    }
    m := CheckOne(pointer, start, bmap, m).marked;
    var indirect := Words(image[ino.addrs[NDIRECT]]);
    error := CheckAddresses(indirect, false, start, bmap, mark, m);
  }

  lemma CheckSingle(c: Check, start: Uint, bmap: seq<bv8>, marked: set<nat>)
    ensures CheckAll([c], start, bmap, marked) == CheckOne(c, start, bmap, marked)
  {
    assert [c][..0] == [];
  }

  /** The checks of an inode one after the other. */
  lemma InParts(kind: seq<Check>, direct: seq<Check>, pointer: Check, rest: seq<Check>, start: Uint, bmap: seq<bv8>,
                marked: set<nat>)
    ensures CheckAll(kind + direct + [pointer] + rest, start, bmap, marked) ==
            var a := CheckAll(kind, start, bmap, marked);
            if a.Exit? then a else
            var b := CheckAll(direct, start, bmap, a.marked);
            if b.Exit? then b else
            var c := CheckOne(pointer, start, bmap, b.marked);
            if c.Exit? then c else CheckAll(rest, start, bmap, c.marked)
  {
    hide CheckAll, CheckOne;
    CheckConcat(kind + direct + [pointer], rest, start, bmap, marked);
    CheckConcat(kind + direct, [pointer], start, bmap, marked);
    CheckConcat(kind, direct, start, bmap, marked);
    var b := CheckAll(kind + direct, start, bmap, marked);
    if b.Passed? { CheckSingle(pointer, start, bmap, b.marked); }
  }

  /** The address phase of `main`. */
  method CheckImage(inodes: seq<Dinode>, image: seq<Block>, nblocks: Uint, bmap: seq<bv8>)
    returns (error: Option<Error>, mark: array<bv8>)
    requires |image| == FSSIZE && |bmap| == NBMAP
    ensures Reports(error, mark[..], Accepts(inodes, image, DataStart(nblocks), bmap))
    ensures error.None? <==> Sound(inodes, image, nblocks, bmap)
    ensures error.None? ==> forall a: nat :: Bit(mark[..], a) <==> a != 0 && Visits(inodes, image, a)
  {
    hide CheckAll, InodeChecks;
    var start := DataStart(nblocks);
    mark := new bv8[NBMAP](_ => 0);
    NothingMarked(mark[..]);
    ghost var marked: set<nat> := {};
    NoChecks(start, bmap);
    var i := ROOTINO;
    while i < |inodes|
      invariant ROOTINO <= i && (i <= |inodes| || |inodes| < ROOTINO == i)
      invariant i <= |inodes| ==> CheckAll(Checks(inodes, image, i), start, bmap, {}) == Passed(marked)
      invariant Holds(mark[..], marked) && (|inodes| < ROOTINO ==> marked == {})
    {
      CheckConcat(Checks(inodes, image, i), InodeChecks(inodes[i], image), start, bmap, {});
      error := CheckInode(inodes[i], image, start, bmap, mark, marked);
      if error.Some? {
        ChecksPrefix(inodes, image, i + 1, |inodes|);
        ExitStays(Checks(inodes, image, |inodes|), |Checks(inodes, image, i + 1)|, start, bmap, {});
        ReportMeans(error, mark[..], inodes, image, nblocks, bmap);
        return;
      }
      marked := CheckAll(InodeChecks(inodes[i], image), start, bmap, marked).marked;
      i := i + 1;
    }
    error := None;
    ReportMeans(error, mark[..], inodes, image, nblocks, bmap);
  }

  /** What a report of the whole image says. */
  lemma ReportMeans(error: Option<Error>, mark: seq<bv8>, inodes: seq<Dinode>, image: seq<Block>, nblocks: Uint,
                    bmap: seq<bv8>)
    requires |image| == FSSIZE && Reports(error, mark, Accepts(inodes, image, DataStart(nblocks), bmap))
    ensures error.None? <==> Sound(inodes, image, nblocks, bmap)
    ensures error.None? ==> forall a: nat :: Bit(mark, a) <==> a != 0 && Visits(inodes, image, a)
  {
    hide Accepts, Sound, Visits, Bit;
    AcceptsSound(inodes, image, nblocks, bmap);
    AcceptsIff(inodes, image, DataStart(nblocks), bmap);
  }

  lemma NoChecks(start: Uint, bmap: seq<bv8>)
    ensures CheckAll([], start, bmap, {}) == Passed({})
  {
  }

  lemma NothingMarked(mark: seq<bv8>)
    requires |mark| == NBMAP && forall i :: 0 <= i < NBMAP ==> mark[i] == 0
    ensures Holds(mark, {})
  {
    forall i: nat ensures !Bit(mark, i) { }
  }
}
