/**
 `iappend` of projects/filesystems-check/xcheck_contest_3.c: appending bytes to a file of an xv6
 image through its direct and indirect block addresses.
 */
module Iappend {
  import opened Disk

  predicate IsZero(b: Block) { forall i :: 0 <= i < BSIZE ==> b[i] == 0 }

  datatype Inode = Inode(addrs: seq<Uint>, size: nat)

  /** The image, the inode being appended to, and data_end_block, the next block to hand out. */
  datatype Volume = Volume(disk: seq<Block>, ino: Inode, next: nat)

  // ---------------------------------------------------------------- words in blocks

  /** The four bytes of a word, in the order `xint` stores them. */
  function Bytes(x: Uint): (b: seq<Byte>)
    ensures |b| == 4
  {
    [x % 256, x / 256 % 256, x / 256 / 256 % 256, x / 256 / 256 / 256]
  }

  function SetWord(b: Block, k: nat, x: Uint): Block
    requires k < NINDIRECT
  {
    b[..4 * k] + Bytes(x) + b[4 * k + 4..]
  }

  lemma XintIsIdentity(x: Uint)
    ensures Value(Bytes(x)) == x
  {
    var a: int := x / 256;
    var b: int := a / 256;
    var c: int := b / 256;
    assert x == 256 * a + x % 256 && a == 256 * b + a % 256 && b == 256 * c + b % 256;
  }

  /** The first of the four bytes counts least. */
  lemma LowByteFirst(a: Byte, b: Byte)
    ensures Value([a, b, 0, 0]) == a as int + 256 * (b as int)
  {
  }

  /** `xint`: on a little-endian machine the word itself. */
  function Xint(x: Uint): (y: Uint)
    ensures y == x
  {
    XintIsIdentity(x);
    Value(Bytes(x))
  }

  lemma SetWordElsewhere(b: Block, k: nat, x: Uint, j: nat)
    requires k < NINDIRECT && j + 4 <= BSIZE && (j + 4 <= 4 * k || j >= 4 * k + 4)
    ensures SetWord(b, k, x)[j..j + 4] == b[j..j + 4]
  {
  }

  lemma SetWordReads(b: Block, k: nat, x: Uint, j: nat)
    requires k < NINDIRECT && j < NINDIRECT
    ensures Word(SetWord(b, k, x), j) == if j == k then x else Word(b, j)
  {
    var c := SetWord(b, k, x);
    if j == k {
      assert c[4 * k..4 * k + 4] == Bytes(x);
      assert Xint(x) == x;
    } else {
      SetWordElsewhere(b, k, x, 4 * j);
    }
  }

  // ---------------------------------------------------------------- addresses

  /** The address slots of a file: its data blocks 0 .. MAXFILE - 1, and in slot MAXFILE the indirect block. */
  function Addr(v: Volume, s: nat): nat {
    var a := v.ino.addrs;
    if |a| != NDIRECT + 1 then 0
    else if s == MAXFILE then a[NDIRECT]
    else if s < NDIRECT then a[s]
    else if s < MAXFILE && 0 < a[NDIRECT] < |v.disk| then Word(v.disk[a[NDIRECT]], s - NDIRECT)
    else 0
  }

  ghost predicate AddrsApart(v: Volume, s: nat, t: nat) {
    s != t && Addr(v, s) != 0 ==> Addr(v, s) != Addr(v, t)
  }

  /** Block b belongs to the file. */
  ghost predicate Owns(v: Volume, b: nat) {
    b != 0 && exists s :: 0 <= s <= MAXFILE && Addr(v, s) == b
  }

  /** No block is owned twice, and everything from `next` on is unowned and zero. */
  ghost predicate Ok(v: Volume) {
    && |v.ino.addrs| == NDIRECT + 1 && 1 <= v.next <= |v.disk| <= WORD
    && (forall s :: 0 <= s <= MAXFILE ==> Addr(v, s) < v.next)
    && (forall s, t :: 0 <= s <= MAXFILE && 0 <= t <= MAXFILE ==> AddrsApart(v, s, t))
    && (forall b :: v.next <= b < |v.disk| ==> IsZero(v.disk[b]))
  }

  /** The byte at a file position; a block without an address is read from block 0. */
  function ReadByte(v: Volume, pos: nat): Byte {
    var a := Addr(v, pos / BSIZE);
    if a < |v.disk| then v.disk[a][pos % BSIZE] else 0
  }

  function Content(v: Volume): (bytes: seq<Byte>)
    ensures |bytes| == v.ino.size
  {
    seq(v.ino.size, pos requires 0 <= pos => ReadByte(v, pos))
  }

  // ---------------------------------------------------------------- the two halves of a round

  /** Whether the indirect block has to be allocated first. */
  predicate NeedsIndirect(v: Volume, fbn: nat) {
    fbn >= NDIRECT && |v.ino.addrs| == NDIRECT + 1 && v.ino.addrs[NDIRECT] == 0
  }

  function TakeIndirect(v: Volume): Volume
    requires |v.ino.addrs| == NDIRECT + 1 && v.next < WORD
  {
    v.(ino := v.ino.(addrs := v.ino.addrs[NDIRECT := v.next]), next := v.next + 1)
  }

  /** Data block fbn gets the next block of the image. */
  function TakeData(v: Volume, fbn: nat): Volume
    requires fbn < MAXFILE && |v.ino.addrs| == NDIRECT + 1 && v.next < WORD
    requires fbn >= NDIRECT ==> v.ino.addrs[NDIRECT] < |v.disk|
  {
    if fbn < NDIRECT then v.(ino := v.ino.(addrs := v.ino.addrs[fbn := v.next]), next := v.next + 1)
    else
      var i := v.ino.addrs[NDIRECT];
      v.(disk := v.disk[i := SetWord(v.disk[i], fbn - NDIRECT, v.next)], next := v.next + 1)
  }

  function Overwrite(b: Block, at: nat, data: seq<Byte>): Block
    requires at + |data| <= BSIZE
  {
    b[..at] + data + b[at + |data|..]
  }

  function Fill(v: Volume, fbn: nat, at: nat, data: seq<Byte>): Volume
    requires at + |data| <= BSIZE && Addr(v, fbn) < |v.disk|
  {
    v.(disk := v.disk[Addr(v, fbn) := Overwrite(v.disk[Addr(v, fbn)], at, data)])
  }

  lemma TakeIndirectAddrs(v: Volume, s: nat)
    requires Ok(v) && v.next < |v.disk| && v.ino.addrs[NDIRECT] == 0 && s <= MAXFILE
    ensures Addr(TakeIndirect(v), s) == if s == MAXFILE then v.next else Addr(v, s)
  {
  }

  lemma TakeIndirectOk(v: Volume)
    requires Ok(v) && v.next < |v.disk| && v.ino.addrs[NDIRECT] == 0
    ensures Ok(TakeIndirect(v))
  {
    hide Addr;
    var v' := TakeIndirect(v);
    forall s | 0 <= s <= MAXFILE ensures Addr(v', s) < v'.next { TakeIndirectAddrs(v, s); }
    forall s, t | 0 <= s <= MAXFILE && 0 <= t <= MAXFILE ensures AddrsApart(v', s, t) {
      TakeIndirectAddrs(v, s);
      TakeIndirectAddrs(v, t);
      assert AddrsApart(v, s, t);
    }
  }

  /** Taking a block for slot fbn changes that address alone, wherever `next` points. */
  lemma TakeDataAddrs(v: Volume, fbn: nat, s: nat)
    requires |v.ino.addrs| == NDIRECT + 1 && v.ino.addrs[NDIRECT] < |v.disk| && v.next < |v.disk| <= WORD
    requires fbn < MAXFILE && s <= MAXFILE && !NeedsIndirect(v, fbn)
    ensures Addr(TakeData(v, fbn), s) == if s == fbn then v.next else Addr(v, s)
  {
    if fbn >= NDIRECT && NDIRECT <= s < MAXFILE {
      SetWordReads(v.disk[v.ino.addrs[NDIRECT]], fbn - NDIRECT, v.next, s - NDIRECT);
    }
  }

  /** Without assuming where `next` points: the addresses stay apart exactly if the file does not own that block yet. */
  lemma ApartIffNextUnowned(v: Volume, fbn: nat)
    requires |v.ino.addrs| == NDIRECT + 1 && v.ino.addrs[NDIRECT] < |v.disk| && 0 < v.next < |v.disk| <= WORD
    requires fbn < MAXFILE && !NeedsIndirect(v, fbn) && Addr(v, fbn) == 0
    requires forall s, t :: 0 <= s <= MAXFILE && 0 <= t <= MAXFILE ==> AddrsApart(v, s, t)
    ensures (forall s, t :: 0 <= s <= MAXFILE && 0 <= t <= MAXFILE ==> AddrsApart(TakeData(v, fbn), s, t)) <==>
            !Owns(v, v.next)
  {
    hide Addr, TakeData;
    var v' := TakeData(v, fbn);
    if Owns(v, v.next) {
      var s :| 0 <= s <= MAXFILE && Addr(v, s) == v.next;
      TakeDataAddrs(v, fbn, s);
      TakeDataAddrs(v, fbn, fbn);
      assert !AddrsApart(v', s, fbn);
    } else {
      forall s, t | 0 <= s <= MAXFILE && 0 <= t <= MAXFILE ensures AddrsApart(v', s, t) {
        TakeDataAddrs(v, fbn, s);
        TakeDataAddrs(v, fbn, t);
        assert AddrsApart(v, s, t);
      }
    }
  }

  /** The same for the block handed out as indirect block; it starts without entries if it is blank. */
  lemma ApartIffNextUnownedIndirect(v: Volume)
    requires |v.ino.addrs| == NDIRECT + 1 && v.ino.addrs[NDIRECT] == 0 && 0 < v.next < |v.disk| <= WORD
    requires forall s, t :: 0 <= s <= MAXFILE && 0 <= t <= MAXFILE ==> AddrsApart(v, s, t)
    requires forall k :: 0 <= k < NINDIRECT ==> Word(v.disk[v.next], k) == 0
    ensures (forall s, t :: 0 <= s <= MAXFILE && 0 <= t <= MAXFILE ==> AddrsApart(TakeIndirect(v), s, t)) <==>
            !Owns(v, v.next)
  {
    hide Addr, TakeIndirect;
    var v' := TakeIndirect(v);
    forall s | 0 <= s <= MAXFILE ensures Addr(v', s) == if s == MAXFILE then v.next else Addr(v, s) {
      TakenIndirectAddr(v, s);
    }
    if Owns(v, v.next) {
      var s :| 0 <= s <= MAXFILE && Addr(v, s) == v.next;
      TakenIndirectAddr(v, s);
      assert s == MAXFILE || !AddrsApart(v', s, MAXFILE);
    } else {
      forall s, t | 0 <= s <= MAXFILE && 0 <= t <= MAXFILE ensures AddrsApart(v', s, t) {
        assert AddrsApart(v, s, t);
      }
    }
  }

  lemma TakenIndirectAddr(v: Volume, s: nat)
    requires |v.ino.addrs| == NDIRECT + 1 && v.ino.addrs[NDIRECT] == 0 && 0 < v.next < |v.disk| <= WORD
    requires forall k :: 0 <= k < NINDIRECT ==> Word(v.disk[v.next], k) == 0
    requires s <= MAXFILE
    ensures Addr(TakeIndirect(v), s) == if s == MAXFILE then v.next else Addr(v, s)
    ensures s == MAXFILE ==> Addr(v, s) == 0
  {
    hide Word;
  }

  lemma TakeDataOk(v: Volume, fbn: nat)
    requires Ok(v) && v.next < |v.disk| && fbn < MAXFILE && !NeedsIndirect(v, fbn)
    ensures v.ino.addrs[NDIRECT] < v.next && Ok(TakeData(v, fbn))
  {
    hide Addr, SetWord;
    IndirectSlot(v);
    TakeDataAddrs(v, fbn, fbn);
    var v' := TakeData(v, fbn);
    forall s | 0 <= s <= MAXFILE ensures Addr(v', s) < v'.next { TakeDataAddrs(v, fbn, s); }
    forall s, t | 0 <= s <= MAXFILE && 0 <= t <= MAXFILE ensures AddrsApart(v', s, t) {
      TakeDataAddrs(v, fbn, s);
      TakeDataAddrs(v, fbn, t);
      assert AddrsApart(v, s, t);
    }
  }

  /** Writing a data block moves no address. */
  lemma FillAddrs(v: Volume, fbn: nat, at: nat, data: seq<Byte>, s: nat)
    requires Ok(v) && fbn < MAXFILE && Addr(v, fbn) != 0 && at + |data| <= BSIZE && s <= MAXFILE
    ensures Addr(v, fbn) < |v.disk| && Addr(Fill(v, fbn, at, data), s) == Addr(v, s)
  {
    assert Addr(v, fbn) < v.next;
    assert AddrsApart(v, fbn, MAXFILE);
  }

  lemma FillOk(v: Volume, fbn: nat, at: nat, data: seq<Byte>)
    requires Ok(v) && fbn < MAXFILE && Addr(v, fbn) != 0 && at + |data| <= BSIZE
    ensures Addr(v, fbn) < |v.disk| && Ok(Fill(v, fbn, at, data))
  {
    hide Addr, Overwrite;
    FillAddrs(v, fbn, at, data, fbn);
    var v' := Fill(v, fbn, at, data);
    forall s | 0 <= s <= MAXFILE ensures Addr(v', s) < v'.next {
      FillAddrs(v, fbn, at, data, s);
      assert Addr(v, s) < v.next;
    }
    forall s, t | 0 <= s <= MAXFILE && 0 <= t <= MAXFILE ensures AddrsApart(v', s, t) {
      FillAddrs(v, fbn, at, data, s);
      FillAddrs(v, fbn, at, data, t);
      assert AddrsApart(v, s, t);
    }
  }

  // ---------------------------------------------------------------- one round of the loop

  /** How many blocks a round takes. */
  function Wanted(v: Volume, fbn: nat): nat {
    (if NeedsIndirect(v, fbn) then 1 else 0) + (if Addr(v, fbn) == 0 then 1 else 0)
  }

  function WithIndirect(v: Volume, fbn: nat): Volume
    requires Ok(v) && fbn < MAXFILE && v.next + Wanted(v, fbn) <= |v.disk|
  {
    if NeedsIndirect(v, fbn) then TakeIndirect(v) else v
  }

  /** Data block fbn has an address. */
  function Locate(v: Volume, fbn: nat): Volume
    requires Ok(v) && fbn < MAXFILE && v.next + Wanted(v, fbn) <= |v.disk|
  {
    var w := WithIndirect(v, fbn);
    WithIndirectFacts(v, fbn);
    if Addr(w, fbn) == 0 then TakeData(w, fbn) else w
  }

  lemma WithIndirectFacts(v: Volume, fbn: nat)
    requires Ok(v) && fbn < MAXFILE && v.next + Wanted(v, fbn) <= |v.disk|
    ensures var w := WithIndirect(v, fbn);
            && Ok(w) && !NeedsIndirect(w, fbn) && w.ino.addrs[NDIRECT] < |w.disk| && w.disk == v.disk
            && w.next + (if Addr(w, fbn) == 0 then 1 else 0) == v.next + Wanted(v, fbn)
            && forall s :: 0 <= s < MAXFILE ==> Addr(w, s) == Addr(v, s)
  {
    hide Addr;
    var w := WithIndirect(v, fbn);
    if NeedsIndirect(v, fbn) {
      TakeIndirectOk(v);
      forall s | 0 <= s < MAXFILE ensures Addr(w, s) == Addr(v, s) { TakeIndirectAddrs(v, s); }
    }
    IndirectSlot(w);
  }

  lemma IndirectSlot(v: Volume)
    requires Ok(v)
    ensures Addr(v, MAXFILE) == v.ino.addrs[NDIRECT] < v.next
  {
    assert Addr(v, MAXFILE) < v.next;
  }

  /** An address that was set stays, a new one is fresh. */
  ghost predicate AddrGrows(v: Volume, v': Volume, s: nat) {
    Addr(v', s) == Addr(v, s) || (Addr(v, s) == 0 && v.next <= Addr(v', s) < v'.next)
  }

  /** Only blocks that end up in the file are written, and the file grows by fresh blocks only. */
  ghost predicate Grows(v: Volume, v': Volume) {
    && v.next <= v'.next && |v'.disk| == |v.disk|
    && (forall s :: 0 <= s <= MAXFILE ==> AddrGrows(v, v', s))
    && (forall b :: 0 <= b < |v.disk| && !Owns(v', b) ==> v'.disk[b] == v.disk[b])
  }

  lemma GrowsTransitive(u: Volume, v: Volume, w: Volume)
    requires Grows(u, v) && Grows(v, w) && u.next >= 1
    ensures Grows(u, w)
  {
    hide Addr;
    forall s | 0 <= s <= MAXFILE ensures AddrGrows(u, w, s) { assert AddrGrows(u, v, s) && AddrGrows(v, w, s); }
    forall b | 0 <= b < |u.disk| && !Owns(w, b) ensures w.disk[b] == u.disk[b] {
      if Owns(v, b) { OwnsStays(v, w, b); }
    }
  }

  lemma OwnsStays(v: Volume, w: Volume, b: nat)
    requires Grows(v, w) && Owns(v, b)
    ensures Owns(w, b)
  {
    hide Addr;
    var s :| 0 <= s <= MAXFILE && Addr(v, s) == b;
    assert AddrGrows(v, w, s);
  }

  lemma TakeIndirectGrows(v: Volume)
    requires Ok(v) && v.next < |v.disk| && v.ino.addrs[NDIRECT] == 0
    ensures Grows(v, TakeIndirect(v))
  {
    hide Addr;
    IndirectSlot(v);
    forall s | 0 <= s <= MAXFILE ensures AddrGrows(v, TakeIndirect(v), s) { TakeIndirectAddrs(v, s); }
  }

  lemma TakeDataGrows(v: Volume, fbn: nat)
    requires Ok(v) && v.next < |v.disk| && fbn < MAXFILE && !NeedsIndirect(v, fbn) && Addr(v, fbn) == 0
    ensures v.ino.addrs[NDIRECT] < v.next && Grows(v, TakeData(v, fbn))
  {
    hide Addr, SetWord;
    IndirectSlot(v);
    TakeDataAddrs(v, fbn, MAXFILE);
    var v' := TakeData(v, fbn);
    assert Addr(v', MAXFILE) == v.ino.addrs[NDIRECT];
    forall s | 0 <= s <= MAXFILE ensures AddrGrows(v, v', s) { TakeDataAddrs(v, fbn, s); }
  }

  lemma FillGrows(v: Volume, fbn: nat, at: nat, data: seq<Byte>)
    requires Ok(v) && fbn < MAXFILE && Addr(v, fbn) != 0 && at + |data| <= BSIZE
    ensures Addr(v, fbn) < |v.disk| && Grows(v, Fill(v, fbn, at, data))
  {
    hide Addr, Overwrite;
    FillAddrs(v, fbn, at, data, fbn);
    var v' := Fill(v, fbn, at, data);
    forall s | 0 <= s <= MAXFILE ensures AddrGrows(v, v', s) { FillAddrs(v, fbn, at, data, s); }
  }

  lemma GrowsSame(v: Volume)
    ensures Grows(v, v)
  {
  }

  lemma LocateOk(v: Volume, fbn: nat)
    requires Ok(v) && fbn < MAXFILE && v.next + Wanted(v, fbn) <= |v.disk|
    ensures var v' := Locate(v, fbn);
            && Ok(v') && Grows(v, v') && v'.next == v.next + Wanted(v, fbn) && v'.ino.size == v.ino.size
            && 0 < Addr(v', fbn) < |v'.disk| && !NeedsIndirect(v', fbn)
  {
    hide Addr, Grows, Ok;
    WithIndirectFacts(v, fbn);
    var w := WithIndirect(v, fbn);
    NextPositive(v);
    NextPositive(w);
    if NeedsIndirect(v, fbn) { TakeIndirectGrows(v); } else { GrowsSame(v); }
    if Addr(w, fbn) == 0 {
      TakeDataOk(w, fbn);
      TakeDataGrows(w, fbn);
      TakeDataAddrs(w, fbn, fbn);
      TakeDataAddrs(w, fbn, MAXFILE);
      GrowsTransitive(v, w, Locate(v, fbn));
    }
    InRange(Locate(v, fbn), fbn);
  }

  lemma NextPositive(v: Volume)
    requires Ok(v)
    ensures 1 <= v.next <= |v.disk| <= WORD && |v.ino.addrs| == NDIRECT + 1
  {
  }

  lemma InRange(v: Volume, s: nat)
    requires Ok(v) && s <= MAXFILE
    ensures Addr(v, s) < v.next <= |v.disk|
  {
  }

  lemma LocateAddrs(v: Volume, fbn: nat, s: nat)
    requires Ok(v) && fbn < MAXFILE && v.next + Wanted(v, fbn) <= |v.disk| && s < MAXFILE
    requires s != fbn || Addr(v, s) != 0
    ensures Addr(Locate(v, fbn), s) == Addr(v, s)
  {
    hide Addr, Ok;
    WithIndirectFacts(v, fbn);
    var w := WithIndirect(v, fbn);
    NextPositive(w);
    if Addr(w, fbn) == 0 { TakeDataAddrs(w, fbn, s); }
  }

  /** Locating a block changes no byte of the data blocks the file already had. */
  lemma LocateKeepsData(v: Volume, fbn: nat, s: nat)
    requires Ok(v) && fbn < MAXFILE && v.next + Wanted(v, fbn) <= |v.disk| && s < MAXFILE
    requires s != fbn || Addr(v, s) != 0
    ensures Addr(v, s) < |v.disk| == |Locate(v, fbn).disk| && Locate(v, fbn).disk[Addr(v, s)] == v.disk[Addr(v, s)]
  {
    hide Addr, SetWord;
    WithIndirectFacts(v, fbn);
    var w := WithIndirect(v, fbn);
    InRange(v, s);
    IndirectSlot(w);
    assert AddrsApart(w, MAXFILE, s);
  }

  /** If both are missing, the indirect block is handed out before the data block. */
  lemma IndirectFirst(v: Volume, fbn: nat)
    requires Ok(v) && fbn < MAXFILE && v.next + Wanted(v, fbn) <= |v.disk| && NeedsIndirect(v, fbn)
    ensures var w := Locate(v, fbn); Addr(w, MAXFILE) == v.next && Addr(w, fbn) == v.next + 1
  {
    hide Addr, Ok;
    WithIndirectFacts(v, fbn);
    var w := WithIndirect(v, fbn);
    NextPositive(v);
    NextPositive(w);
    NoEntryYet(v, fbn);
    TakeIndirectAddrs(v, MAXFILE);
    TakeDataAddrs(w, fbn, fbn);
    TakeDataAddrs(w, fbn, MAXFILE);
  }

  lemma NoEntryYet(v: Volume, fbn: nat)
    requires NeedsIndirect(v, fbn) && fbn < MAXFILE
    ensures Addr(v, fbn) == 0
  {
  }

  /** A data block that is allocated on the way is blank. */
  lemma LocateFresh(v: Volume, fbn: nat)
    requires Ok(v) && fbn < MAXFILE && v.next + Wanted(v, fbn) <= |v.disk| && Addr(v, fbn) == 0
    ensures var w := Locate(v, fbn); Addr(w, fbn) < |w.disk| && IsZero(w.disk[Addr(w, fbn)])
  {
    hide Addr, SetWord, IsZero;
    WithIndirectFacts(v, fbn);
    var w := WithIndirect(v, fbn);
    TakeDataAddrs(w, fbn, fbn);
    IndirectSlot(w);
  }

  function Round(v: Volume, off: nat, chunk: seq<Byte>): Volume
    requires Ok(v) && off / BSIZE < MAXFILE && v.next + Wanted(v, off / BSIZE) <= |v.disk|
    requires off % BSIZE + |chunk| <= BSIZE
  {
    LocateOk(v, off / BSIZE);
    Fill(Locate(v, off / BSIZE), off / BSIZE, off % BSIZE, chunk)
  }

  lemma RoundIs(v: Volume, off: nat, chunk: seq<Byte>)
    requires Ok(v) && off / BSIZE < MAXFILE && v.next + Wanted(v, off / BSIZE) <= |v.disk|
    requires off % BSIZE + |chunk| <= BSIZE
    ensures var w := Locate(v, off / BSIZE);
            && Addr(w, off / BSIZE) < |w.disk|
            && Round(v, off, chunk) == Fill(w, off / BSIZE, off - off / BSIZE * BSIZE, chunk)
  {
    LocateOk(v, off / BSIZE);
  }

  lemma RoundOk(v: Volume, off: nat, chunk: seq<Byte>)
    requires Ok(v) && off / BSIZE < MAXFILE && v.next + Wanted(v, off / BSIZE) <= |v.disk|
    requires off % BSIZE + |chunk| <= BSIZE
    ensures var v' := Round(v, off, chunk);
            && Ok(v') && Grows(v, v') && v'.next == v.next + Wanted(v, off / BSIZE)
            && !NeedsIndirect(v', off / BSIZE) && Addr(v', off / BSIZE) != 0
  {
    hide Addr, Ok, Grows, Locate;
    var fbn := off / BSIZE;
    LocateOk(v, fbn);
    var w := Locate(v, fbn);
    FillOk(w, fbn, off % BSIZE, chunk);
    FillGrows(w, fbn, off % BSIZE, chunk);
    FillAddrs(w, fbn, off % BSIZE, chunk, fbn);
    NextPositive(v);
    GrowsTransitive(v, w, Round(v, off, chunk));
  }

  /** The block at `off` is partly used but has no address: its bytes were read from block 0. */
  predicate Hole(v: Volume, off: nat) {
    off % BSIZE != 0 && Addr(v, off / BSIZE) == 0
  }

  /** A round writes its chunk at `off` and leaves every earlier byte as it was, except that it blanks a hole. */
  lemma RoundReads(v: Volume, off: nat, chunk: seq<Byte>, pos: nat)
    requires Ok(v) && off / BSIZE < MAXFILE && v.next + Wanted(v, off / BSIZE) <= |v.disk|
    requires off % BSIZE + |chunk| <= BSIZE && pos < off + |chunk|
    ensures ReadByte(Round(v, off, chunk), pos) ==
            if pos >= off then chunk[pos - off]
            else if pos / BSIZE == off / BSIZE && Addr(v, off / BSIZE) == 0 then 0
            else ReadByte(v, pos)
  {
    hide Addr, Ok, Grows, Locate;
    var fbn, g := off / BSIZE, pos / BSIZE;
    LocateOk(v, fbn);
    var w := Locate(v, fbn);
    SameOrEarlier(pos, off, |chunk|);
    FillAddrs(w, fbn, off % BSIZE, chunk, g);
    InRange(w, g);
    if g == fbn && Addr(v, fbn) == 0 {
      LocateFresh(v, fbn);
    } else if g == fbn {
      LocateAddrs(v, fbn, g);
      LocateKeepsData(v, fbn, g);
    } else {
      LocateAddrs(v, fbn, g);
      LocateKeepsData(v, fbn, g);
      Apart(w, fbn, g);
    }
  }

  lemma Apart(v: Volume, s: nat, t: nat)
    requires Ok(v) && s <= MAXFILE && t <= MAXFILE && s != t && Addr(v, s) != 0
    ensures Addr(v, s) != Addr(v, t)
  {
    assert AddrsApart(v, s, t);
  }

  lemma SameOrEarlier(pos: nat, off: nat, n: nat)
    requires off % BSIZE + n <= BSIZE && pos < off + n
    ensures pos / BSIZE <= off / BSIZE
    ensures pos / BSIZE == off / BSIZE ==> pos - off == pos % BSIZE - off % BSIZE
    ensures pos / BSIZE < off / BSIZE ==> pos < off
  {
  }

  // ---------------------------------------------------------------- the whole append

  /** The data blocks from `first` up to `end` that have no address yet. */
  function MissingData(v: Volume, first: nat, end: nat): nat
    decreases end - first
  {
    if first >= end then 0 else (if Addr(v, first) == 0 then 1 else 0) + MissingData(v, first + 1, end)
  }

  /** The block after the last one an append touches. */
  function End(off: nat, n: nat): nat { (off + n + BSIZE - 1) / BSIZE }

  /** All blocks that an append has to allocate: data blocks without address, and the indirect block. */
  function Missing(v: Volume, off: nat, n: nat): nat {
    if n == 0 then 0
    else MissingData(v, off / BSIZE, End(off, n)) + if NeedsIndirect(v, End(off, n) - 1) then 1 else 0
  }

  /** How many bytes the next round writes. */
  function ChunkSize(off: nat, n: nat): (n1: nat)
    ensures n1 <= n && off % BSIZE + n1 <= BSIZE && (n > 0 ==> n1 > 0)
  {
    if n < (off / BSIZE + 1) * BSIZE - off then n else (off / BSIZE + 1) * BSIZE - off
  }

  /** What appending at `off` may assume: room in the file and in the image. */
  ghost predicate CanAppend(v: Volume, off: nat, n: nat) {
    Ok(v) && off + n <= MAXFILE * BSIZE && v.next + Missing(v, off, n) <= |v.disk|
  }

  lemma {:induction false} SameMissing(v: Volume, v': Volume, first: nat, end: nat)
    requires forall s :: first <= s < end ==> Addr(v', s) == Addr(v, s)
    ensures MissingData(v', first, end) == MissingData(v, first, end)
    decreases end - first
  {
    hide Addr;
    if first < end { SameMissing(v, v', first + 1, end); }
  }

  lemma RoundAddrs(v: Volume, off: nat, chunk: seq<Byte>, s: nat)
    requires Ok(v) && off / BSIZE < MAXFILE && v.next + Wanted(v, off / BSIZE) <= |v.disk|
    requires off % BSIZE + |chunk| <= BSIZE && s < MAXFILE && s != off / BSIZE
    ensures Addr(Round(v, off, chunk), s) == Addr(v, s)
  {
    hide Addr, Ok, Grows, Locate;
    var fbn := off / BSIZE;
    LocateOk(v, fbn);
    LocateAddrs(v, fbn, s);
    FillAddrs(Locate(v, fbn), fbn, off % BSIZE, chunk, s);
  }

  /** The room for the first round. */
  lemma RoomForRound(v: Volume, off: nat, n: nat)
    requires CanAppend(v, off, n) && n > 0
    ensures off / BSIZE < MAXFILE && Wanted(v, off / BSIZE) <= Missing(v, off, n)
    ensures v.next + Wanted(v, off / BSIZE) <= |v.disk|
  {
    hide Addr, Ok;
    Blocks(off, n);
    assert NeedsIndirect(v, off / BSIZE) ==> NeedsIndirect(v, End(off, n) - 1);
  }

  lemma Blocks(off: nat, n: nat)
    requires n > 0
    ensures off / BSIZE < End(off, n)
    ensures off + n <= MAXFILE * BSIZE ==> End(off, n) <= MAXFILE
    ensures var n1 := ChunkSize(off, n);
            n1 < n ==>
              (off + n1) % BSIZE == 0 && (off + n1) / BSIZE == off / BSIZE + 1 && End(off + n1, n - n1) == End(off, n)
  {
  }

  /** After a round exactly the rest is still missing. */
  lemma RoundMissing(v: Volume, off: nat, data: seq<Byte>)
    requires CanAppend(v, off, |data|) && data != []
    ensures var n1 := ChunkSize(off, |data|);
            && off / BSIZE < MAXFILE && v.next + Wanted(v, off / BSIZE) <= |v.disk|
            && var v' := Round(v, off, data[..n1]);
               Missing(v, off, |data|) == Wanted(v, off / BSIZE) + Missing(v', off + n1, |data| - n1)
  {
    hide Addr, Ok, Grows, Round, ChunkSize, End;
    var n, n1, fbn := |data|, ChunkSize(off, |data|), off / BSIZE;
    RoomForRound(v, off, n);
    Blocks(off, n);
    NextPositive(v);
    var end := End(off, n);
    var v' := Round(v, off, data[..n1]);
    RoundOk(v, off, data[..n1]);
    NextPositive(v');
    IndirectKept(v, off, data[..n1]);
    forall s | fbn + 1 <= s < end ensures Addr(v', s) == Addr(v, s) { RoundAddrs(v, off, data[..n1], s); }
    SameMissing(v, v', fbn + 1, end);
    if n1 == n { LastBlock(off, n); }
  }

  lemma LastBlock(off: nat, n: nat)
    requires n > 0 && ChunkSize(off, n) == n
    ensures End(off, n) == off / BSIZE + 1
  {
  }

  lemma IndirectKept(v: Volume, off: nat, chunk: seq<Byte>)
    requires Ok(v) && off / BSIZE < MAXFILE && v.next + Wanted(v, off / BSIZE) <= |v.disk|
    requires off % BSIZE + |chunk| <= BSIZE
    ensures var v' := Round(v, off, chunk);
            && |v'.ino.addrs| == NDIRECT + 1
            && v'.ino.addrs[NDIRECT] == if NeedsIndirect(v, off / BSIZE) then v.next else v.ino.addrs[NDIRECT]
  {
    hide Addr, SetWord, Overwrite;
    WithIndirectFacts(v, off / BSIZE);
  }

  /** `iappend` from file position `off` on. */
  function Append(v: Volume, off: nat, data: seq<Byte>): Volume
    requires CanAppend(v, off, |data|)
    decreases |data|
  {
    if data == [] then v.(ino := v.ino.(size := off))
    else
      var n1 := ChunkSize(off, |data|);
      RoomForRound(v, off, |data|);
      RoundCanAppend(v, off, data);
      Append(Round(v, off, data[..n1]), off + n1, data[n1..])
  }

  lemma RoundCanAppend(v: Volume, off: nat, data: seq<Byte>)
    requires CanAppend(v, off, |data|) && data != []
    ensures var n1 := ChunkSize(off, |data|);
            && off / BSIZE < MAXFILE && v.next + Wanted(v, off / BSIZE) <= |v.disk|
            && CanAppend(Round(v, off, data[..n1]), off + n1, |data| - n1)
  {
    hide Addr, Ok, Grows, Round, ChunkSize, End, Missing;
    var n1 := ChunkSize(off, |data|);
    RoundMissing(v, off, data);
    RoundOk(v, off, data[..n1]);
    Blocks(off, |data|);
    GrowsFacts(v, Round(v, off, data[..n1]));
  }

  lemma GrowsFacts(v: Volume, v': Volume)
    requires Grows(v, v')
    ensures |v'.disk| == |v.disk|
  {
  }

  /** The append allocates exactly what was missing, writes only to its own blocks, and keeps all addresses apart. */
  lemma {:induction false} AppendOk(v: Volume, off: nat, data: seq<Byte>)
    requires CanAppend(v, off, |data|)
    ensures var v' := Append(v, off, data);
            && Ok(v') && Grows(v, v') && v'.next == v.next + Missing(v, off, |data|)
            && v'.ino.size == off + |data|
    decreases |data|
  {
    hide Addr, Round, ChunkSize, Missing;
    if data == [] {
      SizeOnly(v, off);
    } else {
      var n1 := ChunkSize(off, |data|);
      RoundCanAppend(v, off, data);
      RoundMissing(v, off, data);
      RoundOk(v, off, data[..n1]);
      AppendOk(Round(v, off, data[..n1]), off + n1, data[n1..]);
      GrowsTransitive(v, Round(v, off, data[..n1]), Append(v, off, data));
    }
  }

  lemma SizeOnly(v: Volume, size: nat)
    requires Ok(v)
    ensures var v' := v.(ino := v.ino.(size := size));
            && Ok(v') && Grows(v, v') && Missing(v, size, 0) == 0
            && forall pos: nat :: ReadByte(v', pos) == ReadByte(v, pos)
  {
    var v' := v.(ino := v.ino.(size := size));
    assert forall s :: Addr(v', s) == Addr(v, s);
    forall s, t | 0 <= s <= MAXFILE && 0 <= t <= MAXFILE ensures AddrsApart(v', s, t) { assert AddrsApart(v, s, t); }
  }

  lemma {:induction false} AppendReads(v: Volume, off: nat, data: seq<Byte>, pos: nat)
    requires CanAppend(v, off, |data|) && pos < off + |data|
    ensures ReadByte(Append(v, off, data), pos) ==
            if pos >= off then data[pos - off]
            else if data != [] && Hole(v, off) && pos / BSIZE == off / BSIZE then 0
            else ReadByte(v, pos)
    decreases |data|
  {
    hide Addr, Round, ChunkSize, Missing, ReadByte, Ok;
    if data == [] {
      SizeOnly(v, off);
    } else {
      var n1 := ChunkSize(off, |data|);
      RoundCanAppend(v, off, data);
      AppendReads(Round(v, off, data[..n1]), off + n1, data[n1..], pos);
      if pos < off + n1 { RoundReads(v, off, data[..n1], pos); }
      Blocks(off, |data|);
      EarlierInBlock(pos, off);
    }
  }

  /** A position before `off` in its block exists only if `off` is not on a block boundary. */
  lemma EarlierInBlock(pos: nat, off: nat)
    ensures pos < off && pos / BSIZE == off / BSIZE ==> off % BSIZE != 0 && pos % BSIZE < off % BSIZE
  {
  }

  /**
   Read-back: the file afterwards is the file before followed by the new bytes, exactly if nothing is
   written, or the block at the end of the file has an address, or the part of block 0 that was read
   in its place is blank.
   */
  lemma ReadBack(v: Volume, data: seq<Byte>)
    requires CanAppend(v, v.ino.size, |data|)
    ensures 0 < |v.disk|
    ensures Content(Append(v, v.ino.size, data)) == Content(v) + data <==>
            (data != [] && Hole(v, v.ino.size) ==> forall k :: 0 <= k < v.ino.size % BSIZE ==> v.disk[0][k] == 0)
  {
    hide Append, ReadByte, Missing;
    var off, v' := v.ino.size, Append(v, v.ino.size, data);
    AppendOk(v, off, data);
    if data != [] && Hole(v, off) && exists k :: 0 <= k < off % BSIZE && v.disk[0][k] != 0 {
      var k :| 0 <= k < off % BSIZE && v.disk[0][k] != 0;
      var pos := off - off % BSIZE + k;
      InBlock(off, k);
      AppendReads(v, off, data, pos);
      HoleRead(v, pos);
      assert Content(v')[pos] != (Content(v) + data)[pos];
    } else {
      forall pos | 0 <= pos < |Content(v')| ensures Content(v')[pos] == (Content(v) + data)[pos] {
        AppendReads(v, off, data, pos);
        EarlierInBlock(pos, off);
        if Addr(v, pos / BSIZE) == 0 { HoleRead(v, pos); }
      }
    }
  }

  lemma InBlock(off: nat, k: nat)
    requires k < off % BSIZE
    ensures var pos := off - off % BSIZE + k; 0 <= pos < off && pos / BSIZE == off / BSIZE && pos % BSIZE == k
  {
  }

  lemma HoleRead(v: Volume, pos: nat)
    requires Addr(v, pos / BSIZE) == 0 && |v.disk| > 0
    ensures ReadByte(v, pos) == v.disk[0][pos % BSIZE]
  {
  }

  /** A file of one byte without any address, in an image whose block 0 is not blank. */
  function UnaddressedByte(): Volume {
    Volume([Filled(1), Filled(0)], Inode(seq(NDIRECT + 1, _ => 0), 1), 1)
  }

  function Filled(x: Byte): Block { seq(BSIZE, _ => x) }

  /** Appending to it loses the byte that was there. */
  lemma HoleLosesByte()
    ensures var v := UnaddressedByte();
            && v.ino.size == 1 && CanAppend(v, 1, 1) && Hole(v, 1)
            && Content(Append(v, 1, [7])) != Content(v) + [7]
  {
    var v := UnaddressedByte();
    assert forall s :: 0 <= s <= MAXFILE ==> Addr(v, s) == 0;
    assert Ok(v);
    assert End(1, 1) == 1 && MissingData(v, 0, 1) == 1 && !NeedsIndirect(v, 0);
    assert v.disk[0][0] == 1;
    ReadBack(v, [7]);
  }

  /** A block that neither belonged to the file nor is handed out by the append keeps its contents. */
  lemma OthersUntouched(v: Volume, data: seq<Byte>, b: nat)
    requires CanAppend(v, v.ino.size, |data|)
    requires b < |v.disk| && !Owns(v, b) && (b < v.next || b >= v.next + Missing(v, v.ino.size, |data|))
    ensures var v' := Append(v, v.ino.size, data);
            |v'.disk| == |v.disk| && v'.disk[b] == v.disk[b]
  {
    hide Append, Addr, Missing;
    AppendOk(v, v.ino.size, data);
    var v' := Append(v, v.ino.size, data);
    if Owns(v', b) { OwnedOrNew(v, v', b); }
  }

  lemma OwnedOrNew(v: Volume, v': Volume, b: nat)
    requires Grows(v, v') && Owns(v', b)
    ensures Owns(v, b) || v.next <= b < v'.next
  {
    hide Addr;
    var s :| 0 <= s <= MAXFILE && Addr(v', s) == b;
    assert AddrGrows(v, v', s);
  }

  // ---------------------------------------------------------------- the loop

  class Image {
    const blocks: array<Block>
    const inodes: array<Inode>
    var dataEndBlock: nat

    constructor (image: seq<Block>, inodes: seq<Inode>, dataEndBlock: nat)
      ensures fresh(this.blocks) && fresh(this.inodes) && this.blocks[..] == image && this.inodes[..] == inodes
      ensures this.dataEndBlock == dataEndBlock
    {
      blocks := new Block[|image|](i requires 0 <= i < |image| => image[i]);
      this.inodes := new Inode[|inodes|](i requires 0 <= i < |inodes| => inodes[i]);
      this.dataEndBlock := dataEndBlock;
    }

    ghost function View(din: Inode): Volume
      reads this, blocks
    {
      Volume(blocks[..], din, dataEndBlock)
    }

    /** The address of data block fbn, allocated on the way if there is none. */
    method LocateBlock(d: Inode, fbn: nat) returns (din: Inode, x: nat)
      requires Ok(View(d)) && fbn < MAXFILE && dataEndBlock + Wanted(View(d), fbn) <= blocks.Length
      modifies this`dataEndBlock, blocks
      ensures View(din) == Locate(old(View(d)), fbn) && x == Addr(View(din), fbn)
    {
      hide SetWord, Word, AddrsApart, IsZero;
      ghost var v := View(d);
      din := d;
      WithIndirectFacts(v, fbn);
      if fbn < NDIRECT {
        if Xint(din.addrs[fbn]) == 0 {
          din := din.(addrs := din.addrs[fbn := Xint(dataEndBlock)]);
          dataEndBlock := dataEndBlock + 1;
        }
        x := Xint(din.addrs[fbn]);
      } else {
        if Xint(din.addrs[NDIRECT]) == 0 {
          din := din.(addrs := din.addrs[NDIRECT := Xint(dataEndBlock)]);
          dataEndBlock := dataEndBlock + 1;
        }
        assert View(din) == WithIndirect(v, fbn);
        var indirect := blocks[din.addrs[NDIRECT]];
        if Word(indirect, fbn - NDIRECT) == 0 {
          indirect := SetWord(indirect, fbn - NDIRECT, Xint(dataEndBlock));
          dataEndBlock := dataEndBlock + 1;
          blocks[din.addrs[NDIRECT]] := indirect;
          SetWordReads(v.disk[din.addrs[NDIRECT]], fbn - NDIRECT, dataEndBlock - 1, fbn - NDIRECT);
        }
        x := Xint(Word(indirect, fbn - NDIRECT));
      }
    }

    method AppendTo(inum: nat, data: seq<Byte>)
      requires inum < inodes.Length && CanAppend(View(inodes[inum]), inodes[inum].size, |data|)
      modifies this`dataEndBlock, blocks, inodes
      ensures View(inodes[inum]) == Append(old(View(inodes[inum])), old(inodes[inum].size), data)
      ensures inodes[..] == old(inodes[..])[inum := inodes[inum]]
    {
      hide Addr, Round, ChunkSize, Missing, Ok, Locate;
      var din, p := inodes[inum], 0;
      var off: nat := din.size;
      while p < |data|
        invariant 0 <= p <= |data| && CanAppend(View(din), off, |data| - p)
        invariant Append(View(din), off, data[p..]) == Append(old(View(inodes[inum])), old(inodes[inum].size), data)
        invariant inodes[..] == old(inodes[..])
      {
        ghost var v := View(din);
        RoomForRound(v, off, |data| - p);
        var n1 := ChunkSize(off, |data| - p);
        din := RunRound(din, off, data[p..p + n1]);
        RoundCanAppend(v, off, data[p..]);
        assert data[p..][..n1] == data[p..p + n1] && data[p..][n1..] == data[p + n1..];
        off := off + n1;
        p := p + n1;
      }
      din := din.(size := Xint(off));
      inodes[inum] := din;
    }

    /** One round of the loop; the assertion is the source's own. */
    method RunRound(d: Inode, off: nat, chunk: seq<Byte>) returns (din: Inode)
      requires Ok(View(d)) && off / BSIZE < MAXFILE && off % BSIZE + |chunk| <= BSIZE
      requires dataEndBlock + Wanted(View(d), off / BSIZE) <= blocks.Length
      modifies this`dataEndBlock, blocks
      ensures View(din) == Round(old(View(d)), off, chunk)
    {
      hide Addr, Round, Ok, Locate;
      ghost var v := View(d);
      var fbn := off / BSIZE;
      assert fbn < MAXFILE;
      var x;
      din, x := LocateBlock(d, fbn);
      LocateOk(v, fbn);
      RoundIs(v, off, chunk);
      WriteAt(x, off - fbn * BSIZE, chunk);
    }

    /** rsect, bcopy into the buffer, wsect. */
    method WriteAt(x: nat, at: nat, data: seq<Byte>)
      requires x < blocks.Length && at + |data| <= BSIZE
      modifies blocks
      ensures blocks[..] == old(blocks[..])[x := Overwrite(old(blocks[x]), at, data)]
    {
      var buf := blocks[x];
      buf := buf[..at] + data + buf[at + |data|..];
      blocks[x] := buf;
    }
  }
}
