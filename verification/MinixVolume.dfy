/**
 A MINIX volume as Linux 0.11 sees it: the zone bitmap, the blocks, and the inodes whose nine
 zone numbers root a tree of direct, indirect and double indirect blocks.

 A place that holds a zone number is a slot. Ownership, allocation and release are stated
 about slots; which block holds a slot follows from the tree itself.
 */
module MinixVolume {

  const BLOCK_SIZE := 1024
  const BITS_PER_MAP := 8192
  const PER_BLOCK := 512
  const MAX_BLOCKS := 7 + 512 + 512 * 512

  type Byte = x: int | 0 <= x < 256

  type Block = s: seq<Byte> | |s| == BLOCK_SIZE witness seq(BLOCK_SIZE, _ => 0)

  function ZeroBlock(): (b: Block)
    ensures forall i :: 0 <= i < BLOCK_SIZE ==> b[i] == 0
  {
    seq(BLOCK_SIZE, _ => 0)
  }

  /** `hasBlocks`: a regular file or a directory. Other inodes use their zones for other things
      and own no blocks. */
  datatype Inode = Inode(hasBlocks: bool, zone: seq<nat>, size: nat)

  /** One volume, with its superblock's numbers; `zmap` are the bitmap blocks that are present. */
  datatype Volume = Volume(first: nat, nzones: nat, zmap: seq<seq<bool>>,
                           blocks: seq<Block>, inodes: seq<Inode>)

  // ---------------------------------------------------------------- bitmap

  /** What the superblock guarantees: bit 0 stands for no block and is always set, and the
      bitmap has a bit for every block of the data zone. */
  predicate Shaped(v: Volume) {
    && 1 <= v.first <= v.nzones < 0x10000
    && 1 <= |v.zmap| <= 8
    && (forall i :: 0 <= i < |v.zmap| ==> |v.zmap[i]| == BITS_PER_MAP)
    && v.nzones - v.first < BITS_PER_MAP * |v.zmap|
    && v.zmap[0][0]
    && v.nzones <= |v.blocks|
    && (forall i :: 0 <= i < |v.inodes| ==> |v.inodes[i].zone| == 9)
  }

  predicate InZone(v: Volume, b: int) {
    v.first <= b < v.nzones
  }

  /** The number of the bit that stands for a block. */
  function BitOf(v: Volume, b: nat): nat
    requires InZone(v, b)
  {
    b - v.first + 1
  }

  predicate Bit(zmap: seq<seq<bool>>, k: nat)
    requires forall i :: 0 <= i < |zmap| ==> |zmap[i]| == BITS_PER_MAP
    requires k < BITS_PER_MAP * |zmap|
  {
    zmap[k / BITS_PER_MAP][k % BITS_PER_MAP]
  }

  predicate Used(v: Volume, b: nat)
    requires Shaped(v) && InZone(v, b)
  {
    Bit(v.zmap, BitOf(v, b))
  }

  function SetBit(zmap: seq<seq<bool>>, k: nat, on: bool): (z: seq<seq<bool>>)
    requires forall i :: 0 <= i < |zmap| ==> |zmap[i]| == BITS_PER_MAP
    requires k < BITS_PER_MAP * |zmap|
    ensures |z| == |zmap| && forall i :: 0 <= i < |z| ==> |z[i]| == BITS_PER_MAP
  {
    zmap[k / BITS_PER_MAP := zmap[k / BITS_PER_MAP][k % BITS_PER_MAP := on]]
  }

  lemma BitAfterSet(zmap: seq<seq<bool>>, k: nat, on: bool, j: nat)
    requires forall i :: 0 <= i < |zmap| ==> |zmap[i]| == BITS_PER_MAP
    requires k < BITS_PER_MAP * |zmap| && j < BITS_PER_MAP * |zmap|
    ensures Bit(SetBit(zmap, k, on), j) == if j == k then on else Bit(zmap, j)
  {
  }

  // ---------------------------------------------------------------- slots

  datatype Slot =
    | Direct(i: nat)
    | Ind
    | IndEntry(k: nat)
    | Dind
    | DindEntry(k: nat)
    | DindLeaf(k: nat, l: nat)
  {
    predicate Valid() {
      match this
      case Direct(i) => i < 7
      case IndEntry(k) => k < PER_BLOCK
      case DindEntry(k) => k < PER_BLOCK
      case DindLeaf(k, l) => k < PER_BLOCK && l < PER_BLOCK
      case _ => true
    }
    predicate InInode() {
      Direct? || Ind? || Dind?
    }
    /** Data blocks hang off these slots, the others lead to blocks of zone numbers. */
    predicate IsData() {
      Direct? || IndEntry? || DindLeaf?
    }
    function Parent(): Slot
      requires !InInode()
    {
      match this
      case IndEntry(_) => Ind
      case DindEntry(_) => Dind
      case DindLeaf(k, _) => DindEntry(k)
    }
    function Index(): nat {
      match this
      case Direct(i) => i
      case Ind => 7
      case Dind => 8
      case IndEntry(k) => k
      case DindEntry(k) => k
      case DindLeaf(_, l) => l
    }
    function Depth(): nat {
      if InInode() then 0 else if DindLeaf? then 2 else 1
    }
  }

  /** The slot of a file's block number. */
  function SlotOf(n: nat): (s: Slot)
    requires n < MAX_BLOCKS
    ensures s.Valid() && s.IsData()
  {
    if n < 7 then Direct(n)
    else if n - 7 < 512 then IndEntry(n - 7)
    else DindLeaf((n - 519) / 512, (n - 519) % 512)
  }

  lemma SlotOfInjective(m: nat, n: nat)
    requires m < MAX_BLOCKS && n < MAX_BLOCKS && SlotOf(m) == SlotOf(n)
    ensures m == n
  {
  }

  /** A zone number is two bytes, low byte first. */
  function Entry(b: Block, k: nat): nat
    requires k < PER_BLOCK
  {
    (b[2 * k] as int) + 256 * (b[2 * k + 1] as int)
  }

  function WithEntry(b: Block, k: nat, x: nat): (r: Block)
    requires k < PER_BLOCK && x < 0x10000
    ensures Entry(r, k) == x
    ensures forall j :: 0 <= j < PER_BLOCK && j != k ==> Entry(r, j) == Entry(b, j)
  {
    b[2 * k := x % 256][2 * k + 1 := x / 256]
  }

  function EntryAt(blocks: seq<Block>, b: nat, k: nat): nat
    requires k < PER_BLOCK
  {
    if 0 < b < |blocks| then Entry(blocks[b], k) else 0
  }

  /** The zone number in a slot; a slot below an empty slot is empty. */
  function Ptr(v: Volume, ino: nat, s: Slot): nat
    requires Shaped(v) && ino < |v.inodes| && s.Valid()
    decreases s.Depth()
  {
    if s.InInode() then v.inodes[ino].zone[s.Index()]
    else EntryAt(v.blocks, Ptr(v, ino, s.Parent()), s.Index())
  }

  predicate Owns(v: Volume, ino: nat, s: Slot, b: nat)
    requires Shaped(v)
  {
    && ino < |v.inodes| && v.inodes[ino].hasBlocks && s.Valid()
    && b != 0 && Ptr(v, ino, s) == b
  }

  ghost predicate OwnedBy(v: Volume, ino: nat, b: nat)
    requires Shaped(v)
  {
    exists s: Slot :: Owns(v, ino, s, b)
  }

  /** The ownership invariant: what a slot holds is a block of the data zone marked as used, no
      block is held twice, and every block marked as used is held. */
  ghost predicate Sound(v: Volume)
    ensures Sound(v) ==> Shaped(v)
  {
    && Shaped(v)
    && (forall ino: nat, s: Slot, b: nat :: Owns(v, ino, s, b) ==> InZone(v, b) && Used(v, b))
    && (forall ino: nat, s: Slot, ino': nat, s': Slot, b: nat ::
          Owns(v, ino, s, b) && Owns(v, ino', s', b) ==> ino == ino' && s == s')
    && (forall b: nat :: InZone(v, b) && Used(v, b) ==> exists ino: nat :: OwnedBy(v, ino, b))
  }

  /** Where the number of a file's block is found: in the inode, in its indirect block, or in the
      block that its double indirect block leads to; each number is two bytes, low byte first. */
  lemma PtrOfBlock(v: Volume, ino: nat, n: nat)
    requires Shaped(v) && ino < |v.inodes| && n < MAX_BLOCKS
    ensures |v.inodes[ino].zone| == 9
    ensures
      var z := v.inodes[ino].zone;
      var b := Ptr(v, ino, SlotOf(n));
      && (n < 7 ==> b == z[n])
      && (7 <= n < 519 ==> b == EntryAt(v.blocks, z[7], n - 7))
      && (519 <= n ==> b == EntryAt(v.blocks, EntryAt(v.blocks, z[8], (n - 519) / 512), (n - 519) % 512))
  {
    hide EntryAt;
    if 519 <= n {
      var k := (n - 519) / 512;
      assert SlotOf(n) == DindLeaf(k, (n - 519) % 512) && DindLeaf(k, (n - 519) % 512).Parent() == DindEntry(k);
      assert DindEntry(k).Parent() == Dind && Ptr(v, ino, Dind) == v.inodes[ino].zone[8];
      assert Ptr(v, ino, DindEntry(k)) == EntryAt(v.blocks, v.inodes[ino].zone[8], k);
    } else if 7 <= n {
      assert SlotOf(n) == IndEntry(n - 7) && IndEntry(n - 7).Parent() == Ind;
      assert Ptr(v, ino, Ind) == v.inodes[ino].zone[7];
    }
  }

  /** The bytes of the k-th number in a block of numbers. */
  lemma EntryBytes(blocks: seq<Block>, p: nat, k: nat)
    requires k < PER_BLOCK
    ensures p == 0 || p >= |blocks| ==> EntryAt(blocks, p, k) == 0
    ensures 0 < p < |blocks| ==>
      EntryAt(blocks, p, k) % 256 == blocks[p][2 * k] && EntryAt(blocks, p, k) / 256 == blocks[p][2 * k + 1]
  {
  }

  // ---------------------------------------------------------------- contents

  function CellAt(v: Volume, b: nat, off: nat): Byte
    requires off < BLOCK_SIZE
  {
    if 0 < b < |v.blocks| then v.blocks[b][off] else 0
  }

  /** A file as its user sees it: a byte for every position, zero where there is no block. */
  function ByteAt(v: Volume, ino: nat, pos: nat): Byte
    requires Shaped(v) && ino < |v.inodes|
    requires pos / BLOCK_SIZE < MAX_BLOCKS
  {
    CellAt(v, Ptr(v, ino, SlotOf(pos / BLOCK_SIZE)), pos % BLOCK_SIZE)
  }

  lemma ZonesOf(v: Volume, ino: nat)
    requires Shaped(v) && ino < |v.inodes|
    ensures |v.inodes[ino].zone| == 9
  {
  }

  /** Nothing but zeros beyond the end of any file. */
  ghost predicate ZeroTails(v: Volume)
    requires Shaped(v)
  {
    forall ino: nat, pos: nat ::
      ino < |v.inodes| && v.inodes[ino].hasBlocks && v.inodes[ino].size <= pos && pos / BLOCK_SIZE < MAX_BLOCKS
      ==> ByteAt(v, ino, pos) == 0
  }

  /** A volume with nothing on it: every bit but bit 0 clear, every inode without blocks. */
  function Blank(first: nat, nzones: nat, inodes: nat): Volume
    requires 1 <= first <= nzones < 0x10000 && nzones - first < 8 * BITS_PER_MAP
  {
    Volume(first, nzones, seq(8, i => seq(BITS_PER_MAP, k => i == 0 && k == 0)),
           seq(nzones, _ => ZeroBlock()), seq(inodes, _ => Inode(true, seq(9, _ => 0), 0)))
  }

  lemma {:induction false} NoPtrs(v: Volume, ino: nat, s: Slot)
    requires Shaped(v) && ino < |v.inodes| && s.Valid()
    requires forall i :: 0 <= i < 9 ==> v.inodes[ino].zone[i] == 0
    ensures Ptr(v, ino, s) == 0
    decreases s.Depth()
  {
    if !s.InInode() {
      NoPtrs(v, ino, s.Parent());
    }
  }

  /** The invariants hold of a blank volume, and every file on it is empty. */
  lemma BlankIsSound(first: nat, nzones: nat, inodes: nat)
    requires 1 <= first <= nzones < 0x10000 && nzones - first < 8 * BITS_PER_MAP
    ensures Sound(Blank(first, nzones, inodes)) && ZeroTails(Blank(first, nzones, inodes))
  {
    var v := Blank(first, nzones, inodes);
    assert Shaped(v);
    forall ino: nat, s: Slot | ino < |v.inodes| && s.Valid() ensures Ptr(v, ino, s) == 0 {
      NoPtrs(v, ino, s);
    }
  }

  // ---------------------------------------------------------------- attaching a block

  /** The volume after a fresh block `b` was marked as used and zeroed. */
  function Allocated(v: Volume, b: nat): (v': Volume)
    requires Shaped(v) && InZone(v, b)
    ensures Shaped(v')
  {
    Volume(v.first, v.nzones, SetBit(v.zmap, BitOf(v, b), true), v.blocks[b := ZeroBlock()], v.inodes)
  }

  function WithZone(node: Inode, i: nat, b: nat): Inode
    requires i < |node.zone|
  {
    Inode(node.hasBlocks, node.zone[i := b], node.size)
  }

  function WithBlock(v: Volume, p: nat, k: nat, b: nat): Volume
    requires p < |v.blocks| && k < PER_BLOCK && b < 0x10000
  {
    Volume(v.first, v.nzones, v.zmap, v.blocks[p := WithEntry(v.blocks[p], k, b)], v.inodes)
  }

  /** Writing a zone number into a slot. */
  function WithSlot(v: Volume, ino: nat, s: Slot, b: nat): (v': Volume)
    requires Shaped(v) && ino < |v.inodes| && s.Valid() && b < 0x10000
    requires !s.InInode() ==> 0 < Ptr(v, ino, s.Parent()) < |v.blocks|
    ensures Shaped(v') && |v'.blocks| == |v.blocks| && |v'.inodes| == |v.inodes|
  {
    if s.InInode() then
      Volume(v.first, v.nzones, v.zmap, v.blocks, v.inodes[ino := WithZone(v.inodes[ino], s.Index(), b)])
    else
      WithBlock(v, Ptr(v, ino, s.Parent()), s.Index(), b)
  }

  /** A slot that a new block can be attached to. */
  ghost predicate CanAttach(v: Volume, ino: nat, s: Slot, b: nat) {
    && Sound(v)
    && ino < |v.inodes| && v.inodes[ino].hasBlocks && s.Valid() && Ptr(v, ino, s) == 0
    && (!s.InInode() ==> Ptr(v, ino, s.Parent()) != 0)
    && InZone(v, b) && !Used(v, b)
  }

  function Attach(v: Volume, ino: nat, s: Slot, b: nat): (v': Volume)
    requires CanAttach(v, ino, s, b)
    ensures Shaped(v') && |v'.blocks| == |v.blocks| && |v'.inodes| == |v.inodes|
  {
    ParentStays(v, ino, s, b);
    WithSlot(Allocated(v, b), ino, s, b)
  }

  /** A block that nobody owns cannot hold a slot. */
  lemma {:induction false} PtrOfAllocated(v: Volume, b: nat, ino: nat, s: Slot)
    requires Sound(v) && InZone(v, b) && !Used(v, b)
    requires ino < |v.inodes| && v.inodes[ino].hasBlocks && s.Valid()
    ensures Ptr(Allocated(v, b), ino, s) == Ptr(v, ino, s) != b
    decreases s.Depth()
  {
    assert !Owns(v, ino, s, b);
    if !s.InInode() {
      PtrOfAllocated(v, b, ino, s.Parent());
    }
  }

  lemma ParentStays(v: Volume, ino: nat, s: Slot, b: nat)
    requires CanAttach(v, ino, s, b)
    ensures !s.InInode() ==> Ptr(Allocated(v, b), ino, s.Parent()) == Ptr(v, ino, s.Parent()) != b
    ensures !s.InInode() ==> InZone(v, Ptr(v, ino, s.Parent()))
  {
    if !s.InInode() {
      PtrOfAllocated(v, b, ino, s.Parent());
      assert Owns(v, ino, s.Parent(), Ptr(v, ino, s.Parent()));
    }
  }

  /** A block that a slot holds is held by no other. */
  lemma HeldOnce(v: Volume, ino: nat, s: Slot, ino': nat, s': Slot)
    requires Sound(v) && ino < |v.inodes| && v.inodes[ino].hasBlocks && s.Valid()
    requires ino' < |v.inodes| && v.inodes[ino'].hasBlocks && s'.Valid()
    ensures Ptr(v, ino, s) != 0 ==> InZone(v, Ptr(v, ino, s)) && Used(v, Ptr(v, ino, s))
    ensures Ptr(v, ino, s) != 0 && Ptr(v, ino', s') == Ptr(v, ino, s) ==> ino' == ino && s' == s
  {
    assert Ptr(v, ino, s) != 0 ==> Owns(v, ino, s, Ptr(v, ino, s));
    assert Ptr(v, ino', s') != 0 ==> Owns(v, ino', s', Ptr(v, ino', s'));
  }

  /** The same slot of the same block is the same slot. */
  lemma SameSlot(v: Volume, ino: nat, s: Slot, ino': nat, s': Slot)
    requires Sound(v) && ino < |v.inodes| && v.inodes[ino].hasBlocks && s.Valid() && !s.InInode()
    requires ino' < |v.inodes| && v.inodes[ino'].hasBlocks && s'.Valid() && !s'.InInode()
    requires Ptr(v, ino, s.Parent()) == Ptr(v, ino', s'.Parent()) != 0
    ensures ino' == ino && (s'.Index() == s.Index() ==> s' == s)
  {
    HeldOnce(v, ino, s.Parent(), ino', s'.Parent());
  }

  /** Attaching a block changes one slot and no other, in any file. */
  lemma {:induction false} PtrOfAttach(v: Volume, ino: nat, s: Slot, b: nat, ino': nat, s': Slot)
    requires CanAttach(v, ino, s, b)
    requires ino' < |v.inodes| && v.inodes[ino'].hasBlocks && s'.Valid()
    ensures Ptr(Attach(v, ino, s, b), ino', s')
            == if ino' == ino && s' == s then b else Ptr(v, ino', s')
    decreases s'.Depth()
  {
    hide Sound, Used, Owns;
    ParentStays(v, ino, s, b);
    PtrOfAllocated(v, b, ino', s');
    if !s'.InInode() {
      PtrOfAttach(v, ino, s, b, ino', s'.Parent());
      PtrOfAllocated(v, b, ino', s'.Parent());
      HeldOnce(v, ino', s'.Parent(), ino', s'.Parent());
      if !s.InInode() && Ptr(v, ino, s.Parent()) == Ptr(v, ino', s'.Parent()) {
        SameSlot(v, ino, s, ino', s');
      }
    }
  }

  lemma UsedAfterAttach(v: Volume, ino: nat, s: Slot, b: nat, c: nat)
    requires CanAttach(v, ino, s, b) && InZone(v, c)
    ensures var v' := Attach(v, ino, s, b);
            v'.first == v.first && v'.nzones == v.nzones && (Used(v', c) <==> c == b || Used(v, c))
  {
    ParentStays(v, ino, s, b);
    BitAfterSet(v.zmap, BitOf(v, b), true, BitOf(v, c));
  }

  lemma OwnsAfterAttach(v: Volume, ino: nat, s: Slot, b: nat, ino': nat, s': Slot, c: nat)
    requires CanAttach(v, ino, s, b)
    ensures Owns(Attach(v, ino, s, b), ino', s', c)
            <==> Owns(v, ino', s', c) || (ino' == ino && s' == s && c == b)
  {
    ParentStays(v, ino, s, b);
    if ino' < |v.inodes| && v.inodes[ino'].hasBlocks && s'.Valid() {
      PtrOfAttach(v, ino, s, b, ino', s');
    }
  }

  /** Attaching a block keeps the ownership invariant. */
  lemma AttachSound(v: Volume, ino: nat, s: Slot, b: nat)
    requires CanAttach(v, ino, s, b)
    ensures Sound(Attach(v, ino, s, b))
  {
    var v' := Attach(v, ino, s, b);
    forall i: nat, t: Slot, c: nat | Owns(v', i, t, c) ensures InZone(v', c) && Used(v', c) {
      OwnsAfterAttach(v, ino, s, b, i, t, c);
      UsedAfterAttach(v, ino, s, b, c);
    }
    forall i: nat, t: Slot, j: nat, u: Slot, c: nat | Owns(v', i, t, c) && Owns(v', j, u, c)
      ensures i == j && t == u
    {
      OwnsAfterAttach(v, ino, s, b, i, t, c);
      OwnsAfterAttach(v, ino, s, b, j, u, c);
    }
    forall c: nat | InZone(v', c) && Used(v', c) ensures exists i: nat :: OwnedBy(v', i, c) {
      UsedAfterAttach(v, ino, s, b, c);
      if c == b {
        OwnsAfterAttach(v, ino, s, b, ino, s, b);
        assert OwnedBy(v', ino, c);
      } else {
        var i: nat :| OwnedBy(v, i, c);
        var t: Slot :| Owns(v, i, t, c);
        OwnsAfterAttach(v, ino, s, b, i, t, c);
        assert OwnedBy(v', i, c);
      }
    }
  }

  /** Attaching a block changes no byte of any file: the new block reads as the zeros that were
      read where there was no block. */
  lemma AttachKeepsBytes(v: Volume, ino: nat, s: Slot, b: nat, ino': nat, pos: nat)
    requires CanAttach(v, ino, s, b)
    requires ino' < |v.inodes| && v.inodes[ino'].hasBlocks && pos / BLOCK_SIZE < MAX_BLOCKS
    ensures ByteAt(Attach(v, ino, s, b), ino', pos) == ByteAt(v, ino', pos)
  {
    var t := SlotOf(pos / BLOCK_SIZE);
    ParentStays(v, ino, s, b);
    PtrOfAttach(v, ino, s, b, ino', t);
    PtrOfAllocated(v, b, ino', t);
    var c := Ptr(v, ino', t);
    if c != 0 {
      assert Owns(v, ino', t, c);
    }
    if !s.InInode() {
      assert Owns(v, ino, s.Parent(), Ptr(v, ino, s.Parent()));
    }
  }

  // ---------------------------------------------------------------- writing into a data block

  function WithBytes(b: Block, at: nat, data: seq<Byte>): (r: Block)
    requires at + |data| <= BLOCK_SIZE
    ensures forall i :: 0 <= i < BLOCK_SIZE ==>
      r[i] == if at <= i < at + |data| then data[i - at] else b[i]
  {
    b[..at] + data + b[at + |data|..]
  }

  function Overwritten(v: Volume, b: nat, at: nat, data: seq<Byte>): (v': Volume)
    requires Shaped(v) && b < |v.blocks| && at + |data| <= BLOCK_SIZE
    ensures Shaped(v')
  {
    Volume(v.first, v.nzones, v.zmap, v.blocks[b := WithBytes(v.blocks[b], at, data)], v.inodes)
  }

  /** Writing into a data block changes no slot: a block of zone numbers is not a data block. */
  lemma {:induction false} PtrOfOverwritten(v: Volume, ino: nat, s: Slot, b: nat, at: nat, data: seq<Byte>,
                                            ino': nat, s': Slot)
    requires Sound(v) && Owns(v, ino, s, b) && s.IsData() && at + |data| <= BLOCK_SIZE
    requires ino' < |v.inodes| && v.inodes[ino'].hasBlocks && s'.Valid()
    ensures Ptr(Overwritten(v, b, at, data), ino', s') == Ptr(v, ino', s')
    decreases s'.Depth()
  {
    if !s'.InInode() {
      PtrOfOverwritten(v, ino, s, b, at, data, ino', s'.Parent());
      var q := Ptr(v, ino', s'.Parent());
      assert q != 0 ==> Owns(v, ino', s'.Parent(), q);
    }
  }

  lemma OverwrittenSound(v: Volume, ino: nat, s: Slot, b: nat, at: nat, data: seq<Byte>)
    requires Sound(v) && Owns(v, ino, s, b) && s.IsData() && at + |data| <= BLOCK_SIZE
    ensures Sound(Overwritten(v, b, at, data))
  {
    var v' := Overwritten(v, b, at, data);
    forall i: nat, t: Slot, c: nat ensures Owns(v', i, t, c) <==> Owns(v, i, t, c) {
      if i < |v.inodes| && v.inodes[i].hasBlocks && t.Valid() {
        PtrOfOverwritten(v, ino, s, b, at, data, i, t);
      }
    }
    SameOwners(v, v');
  }

  /** The invariant speaks of the bitmap and of who owns what, and of nothing else. */
  lemma SameOwners(v: Volume, v': Volume)
    requires Sound(v) && Shaped(v')
    requires v'.first == v.first && v'.nzones == v.nzones && v'.zmap == v.zmap
    requires forall i: nat, t: Slot, c: nat :: Owns(v', i, t, c) <==> Owns(v, i, t, c)
    ensures Sound(v')
  {
    forall c: nat | InZone(v', c) && Used(v', c) ensures exists i: nat :: OwnedBy(v', i, c) {
      assert Used(v, c);
      var i: nat :| OwnedBy(v, i, c);
      var t: Slot :| Owns(v, i, t, c);
      assert Owns(v', i, t, c);
      assert OwnedBy(v', i, c);
    }
  }

  /** Writing into block `n` of a file changes those bytes of that block, and no other byte of
      any file. */
  lemma BytesOfOverwritten(v: Volume, ino: nat, n: nat, at: nat, data: seq<Byte>, ino': nat, pos: nat)
    requires Sound(v) && ino < |v.inodes| && v.inodes[ino].hasBlocks && n < MAX_BLOCKS
    requires 0 < Ptr(v, ino, SlotOf(n)) < |v.blocks| && at + |data| <= BLOCK_SIZE
    requires ino' < |v.inodes| && v.inodes[ino'].hasBlocks && pos / BLOCK_SIZE < MAX_BLOCKS
    ensures var off := pos % BLOCK_SIZE;
            ByteAt(Overwritten(v, Ptr(v, ino, SlotOf(n)), at, data), ino', pos)
            == if ino' == ino && pos / BLOCK_SIZE == n && at <= off < at + |data| then data[off - at]
               else ByteAt(v, ino', pos)
  {
    var b, m := Ptr(v, ino, SlotOf(n)), pos / BLOCK_SIZE;
    PtrOfOverwritten(v, ino, SlotOf(n), b, at, data, ino', SlotOf(m));
    CellOfOverwritten(v, b, at, data, Ptr(v, ino', SlotOf(m)), pos % BLOCK_SIZE);
    SameDataBlock(v, ino, n, ino', m);
  }

  lemma DataBlockInRange(v: Volume, ino: nat, n: nat)
    requires Sound(v) && ino < |v.inodes| && v.inodes[ino].hasBlocks && n < MAX_BLOCKS
    ensures Ptr(v, ino, SlotOf(n)) < |v.blocks|
  {
    assert Ptr(v, ino, SlotOf(n)) != 0 ==> Owns(v, ino, SlotOf(n), Ptr(v, ino, SlotOf(n)));
  }

  /** `x` is what the disk holds at a position of a file, found as the source finds it: the first
      seven block numbers are in the inode, the next 512 in the block that the eighth number names,
      and the others in blocks named by the block of the ninth; where there is none, it is zero. */
  ghost predicate OnDisk(v: Volume, ino: nat, pos: nat, x: Byte) {
    && pos / 1024 < 7 + 512 + 512 * 512 && ino < |v.inodes| && |v.inodes[ino].zone| == 9
    && var n, z := pos / 1024, v.inodes[ino].zone;
       var b := if n < 7 then z[n]
                else if n < 519 then EntryAt(v.blocks, z[7], n - 7)
                else EntryAt(v.blocks, EntryAt(v.blocks, z[8], (n - 519) / 512), (n - 519) % 512);
       b < |v.blocks| && x == if b == 0 then 0 else v.blocks[b][pos % 1024]
  }

  /** The bytes a file's user sees are those on disk. */
  lemma ByteIs(v: Volume, ino: nat, pos: nat)
    requires Sound(v) && ino < |v.inodes| && v.inodes[ino].hasBlocks && pos / BLOCK_SIZE < MAX_BLOCKS
    ensures OnDisk(v, ino, pos, ByteAt(v, ino, pos))
  {
    hide Sound, Ptr, EntryAt, SlotOf;
    PtrOfBlock(v, ino, pos / BLOCK_SIZE);
    DataBlockInRange(v, ino, pos / BLOCK_SIZE);
  }

  lemma CellOfOverwritten(v: Volume, b: nat, at: nat, data: seq<Byte>, c: nat, off: nat)
    requires Shaped(v) && 0 < b < |v.blocks| && at + |data| <= BLOCK_SIZE && off < BLOCK_SIZE
    ensures CellAt(Overwritten(v, b, at, data), c, off)
            == if c == b && at <= off < at + |data| then data[off - at] else CellAt(v, c, off)
  {
  }

  /** Bytes of one block have consecutive positions. */
  lemma InsideBlock(start: nat, n: nat, pos: nat)
    requires start % BLOCK_SIZE + n <= BLOCK_SIZE
    ensures start <= pos < start + n
            <==> pos / BLOCK_SIZE == start / BLOCK_SIZE
                 && start % BLOCK_SIZE <= pos % BLOCK_SIZE < start % BLOCK_SIZE + n
    ensures start <= pos < start + n ==> pos - start == pos % BLOCK_SIZE - start % BLOCK_SIZE
  {
    var q, r := start / BLOCK_SIZE, start % BLOCK_SIZE;
    var q', r' := pos / BLOCK_SIZE, pos % BLOCK_SIZE;
    assert start == BLOCK_SIZE * q + r && pos == BLOCK_SIZE * q' + r';
  }

  /** Different file blocks, of the same or of different files, are different disk blocks. */
  lemma SameDataBlock(v: Volume, ino: nat, n: nat, ino': nat, m: nat)
    requires Sound(v) && n < MAX_BLOCKS && m < MAX_BLOCKS
    requires ino < |v.inodes| && v.inodes[ino].hasBlocks && ino' < |v.inodes| && v.inodes[ino'].hasBlocks
    requires Ptr(v, ino, SlotOf(n)) != 0
    ensures Ptr(v, ino', SlotOf(m)) == Ptr(v, ino, SlotOf(n)) <==> ino' == ino && m == n
  {
    var b := Ptr(v, ino, SlotOf(n));
    assert Owns(v, ino, SlotOf(n), b);
    if Ptr(v, ino', SlotOf(m)) == b {
      assert Owns(v, ino', SlotOf(m), b);
      SlotOfInjective(m, n);
    }
  }

  /** The size of a file is no part of its block tree. */
  function Resized(v: Volume, ino: nat, size: nat): (v': Volume)
    requires Shaped(v) && ino < |v.inodes|
    ensures Shaped(v')
  {
    Volume(v.first, v.nzones, v.zmap, v.blocks,
           v.inodes[ino := Inode(v.inodes[ino].hasBlocks, v.inodes[ino].zone, size)])
  }

  lemma {:induction false} PtrOfResized(v: Volume, ino: nat, size: nat, ino': nat, s: Slot)
    requires Shaped(v) && ino < |v.inodes| && ino' < |v.inodes| && s.Valid()
    ensures Ptr(Resized(v, ino, size), ino', s) == Ptr(v, ino', s)
    decreases s.Depth()
  {
    if !s.InInode() {
      PtrOfResized(v, ino, size, ino', s.Parent());
    }
  }

  lemma ResizedSound(v: Volume, ino: nat, size: nat)
    requires Sound(v) && ino < |v.inodes|
    ensures Sound(Resized(v, ino, size))
    ensures forall ino': nat, pos: nat :: ino' < |v.inodes| && pos / BLOCK_SIZE < MAX_BLOCKS
              ==> ByteAt(Resized(v, ino, size), ino', pos) == ByteAt(v, ino', pos)
  {
    var v' := Resized(v, ino, size);
    forall i: nat, t: Slot | i < |v.inodes| && t.Valid() ensures Ptr(v', i, t) == Ptr(v, i, t) {
      PtrOfResized(v, ino, size, i, t);
    }
    SameOwners(v, v');
  }

  // ---------------------------------------------------------------- growing a file

  /** No block of the data zone is left. */
  ghost predicate Full(v: Volume)
    requires Shaped(v)
  {
    forall c: nat :: InZone(v, c) ==> Used(v, c)
  }

  /** What creating the block of one data slot `t` of one file may do: fill that slot and slots
      on the way to it, and nothing else; no file's bytes change. */
  ghost predicate Grown(v: Volume, v': Volume, ino: nat, t: Slot)
    ensures Grown(v, v', ino, t) ==> Sound(v) && Sound(v') && ino < |v.inodes| == |v'.inodes|
    ensures Grown(v, v', ino, t) ==> v'.inodes[ino].hasBlocks == v.inodes[ino].hasBlocks
  {
    && Sound(v) && Sound(v') && ino < |v.inodes|
    && v'.first == v.first && v'.nzones == v.nzones
    && |v'.blocks| == |v.blocks| && |v'.inodes| == |v.inodes|
    && (forall i: nat :: i < |v.inodes| && i != ino ==> v'.inodes[i] == v.inodes[i])
    && v'.inodes[ino].hasBlocks == v.inodes[ino].hasBlocks && v'.inodes[ino].size == v.inodes[ino].size
    && (forall i: nat, s: Slot, c: nat :: Owns(v, i, s, c) ==> Owns(v', i, s, c))
    && (forall i: nat, s: Slot, c: nat :: Owns(v', i, s, c)
          ==> Owns(v, i, s, c) || (i == ino && (s == t || !s.IsData()) && Ptr(v, i, s) == 0))
    && (forall i: nat, pos: nat ::
          i < |v.inodes| && v.inodes[i].hasBlocks && pos / BLOCK_SIZE < MAX_BLOCKS
          ==> ByteAt(v', i, pos) == ByteAt(v, i, pos))
  }

  lemma AttachGrows(v: Volume, ino: nat, s: Slot, b: nat, t: Slot)
    requires CanAttach(v, ino, s, b)
    requires s == t || !s.IsData()
    ensures Grown(v, Attach(v, ino, s, b), ino, t)
  {
    var v' := Attach(v, ino, s, b);
    AttachSound(v, ino, s, b);
    forall i: nat, u: Slot, c: nat
      ensures Owns(v', i, u, c) <==> Owns(v, i, u, c) || (i == ino && u == s && c == b)
    {
      OwnsAfterAttach(v, ino, s, b, i, u, c);
    }
    forall i: nat, pos: nat | i < |v.inodes| && v.inodes[i].hasBlocks && pos / BLOCK_SIZE < MAX_BLOCKS
      ensures ByteAt(v', i, pos) == ByteAt(v, i, pos)
    {
      AttachKeepsBytes(v, ino, s, b, i, pos);
    }
  }

  lemma GrownTwice(v: Volume, v': Volume, v'': Volume, ino: nat, t: Slot)
    requires Grown(v, v', ino, t) && Grown(v', v'', ino, t)
    ensures Grown(v, v'', ino, t)
  {
    forall i: nat, s: Slot, c: nat | Owns(v'', i, s, c) && !Owns(v, i, s, c)
      ensures i == ino && (s == t || !s.IsData()) && Ptr(v, i, s) == 0
    {
      assert Ptr(v, i, s) != 0 ==> Owns(v, i, s, Ptr(v, i, s));
    }
  }

  /** A search that found nothing may still have set bits that stand for no block. */
  lemma GrownByNothing(v: Volume, v': Volume, ino: nat, t: Slot)
    requires Sound(v) && Shaped(v') && ino < |v.inodes|
    requires v' == v.(zmap := v'.zmap)
    requires forall c: nat :: InZone(v, c) ==> (Used(v', c) <==> Used(v, c))
    ensures Grown(v, v', ino, t)
  {
    forall i: nat, s: Slot | i < |v.inodes| && s.Valid() ensures Ptr(v', i, s) == Ptr(v, i, s) {
      PtrIgnoresBitmap(v, v', i, s);
    }
    assert forall i: nat, s: Slot, c: nat :: Owns(v', i, s, c) <==> Owns(v, i, s, c);
    forall c: nat | InZone(v', c) && Used(v', c) ensures exists i: nat :: OwnedBy(v', i, c) {
      assert Used(v, c);
      var i: nat :| OwnedBy(v, i, c);
      var s: Slot :| Owns(v, i, s, c);
      assert Owns(v', i, s, c);
      assert OwnedBy(v', i, c);
    }
  }

  lemma {:induction false} PtrIgnoresBitmap(v: Volume, v': Volume, ino: nat, s: Slot)
    requires Shaped(v) && Shaped(v') && ino < |v.inodes| && s.Valid()
    requires v'.blocks == v.blocks && v'.inodes == v.inodes
    ensures Ptr(v', ino, s) == Ptr(v, ino, s)
    decreases s.Depth()
  {
    if !s.InInode() {
      PtrIgnoresBitmap(v, v', ino, s.Parent());
    }
  }

  /** Creating a block is a point update of the map from file blocks to disk blocks, at every
      level of the tree and across all files. */
  lemma GrownIsPointUpdate(v: Volume, v': Volume, ino: nat, n: nat, ino': nat, m: nat)
    requires n < MAX_BLOCKS && m < MAX_BLOCKS && Grown(v, v', ino, SlotOf(n))
    requires ino' < |v.inodes| && v.inodes[ino'].hasBlocks
    requires ino' != ino || m != n || Ptr(v, ino, SlotOf(n)) != 0
    ensures Ptr(v', ino', SlotOf(m)) == Ptr(v, ino', SlotOf(m))
  {
    var s := SlotOf(m);
    if ino' == ino && s == SlotOf(n) {
      SlotOfInjective(m, n);
    }
    var old_, new_ := Ptr(v, ino', s), Ptr(v', ino', s);
    if old_ != 0 {
      assert Owns(v, ino', s, old_);
    } else if new_ != 0 {
      assert Owns(v', ino', s, new_);
    }
  }

  /** Allocation only adds: what was used stays used, and what becomes used is owned by the file
      that grew. */
  lemma GrownUsesMore(v: Volume, v': Volume, ino: nat, t: Slot, c: nat)
    requires Grown(v, v', ino, t) && InZone(v, c)
    ensures Used(v, c) ==> Used(v', c)
    ensures Used(v', c) && !Used(v, c) ==> OwnedBy(v', ino, c)
  {
    if Used(v, c) {
      var i: nat :| OwnedBy(v, i, c);
      var s: Slot :| Owns(v, i, s, c);
      assert Owns(v', i, s, c);
    } else if Used(v', c) {
      var i: nat :| OwnedBy(v', i, c);
      var s: Slot :| Owns(v', i, s, c);
      assert i == ino;
    }
  }

  // ---------------------------------------------------------------- releasing a file

  /** The blocks that hang off an indirect block, and the block itself. */
  ghost predicate UnderInd(blocks: seq<Block>, p: nat, c: nat) {
    p != 0 && c != 0 && (c == p || exists k: nat :: k < PER_BLOCK && EntryAt(blocks, p, k) == c)
  }

  ghost predicate UnderDind(blocks: seq<Block>, p: nat, c: nat) {
    p != 0 && c != 0 && (c == p || exists k: nat :: k < PER_BLOCK && UnderInd(blocks, EntryAt(blocks, p, k), c))
  }

  lemma PtrsOf(v: Volume, ino: nat)
    requires Shaped(v) && ino < |v.inodes|
    ensures var z := v.inodes[ino].zone;
            && Ptr(v, ino, Ind) == z[7] && Ptr(v, ino, Dind) == z[8]
            && (forall i: nat :: i < 7 ==> Ptr(v, ino, Direct(i)) == z[i])
            && (forall k: nat :: k < PER_BLOCK ==> Ptr(v, ino, IndEntry(k)) == EntryAt(v.blocks, z[7], k))
            && (forall k: nat :: k < PER_BLOCK ==> Ptr(v, ino, DindEntry(k)) == EntryAt(v.blocks, z[8], k))
            && (forall k: nat, l: nat :: k < PER_BLOCK && l < PER_BLOCK
                  ==> Ptr(v, ino, DindLeaf(k, l)) == EntryAt(v.blocks, EntryAt(v.blocks, z[8], k), l))
  {
  }

  lemma PartsOwned(v: Volume, ino: nat, c: nat)
    requires Shaped(v) && ino < |v.inodes| && v.inodes[ino].hasBlocks
    ensures UnderInd(v.blocks, v.inodes[ino].zone[7], c) || UnderDind(v.blocks, v.inodes[ino].zone[8], c)
            ==> OwnedBy(v, ino, c)
  {
    var z := v.inodes[ino].zone;
    PtrsOf(v, ino);
    if UnderInd(v.blocks, z[7], c) {
      if c == z[7] {
        assert Owns(v, ino, Ind, c);
      } else {
        var k: nat :| k < PER_BLOCK && EntryAt(v.blocks, z[7], k) == c;
        assert Owns(v, ino, IndEntry(k), c);
      }
    } else if UnderDind(v.blocks, z[8], c) {
      if c == z[8] {
        assert Owns(v, ino, Dind, c);
      } else {
        var k: nat :| k < PER_BLOCK && UnderInd(v.blocks, EntryAt(v.blocks, z[8], k), c);
        if c == EntryAt(v.blocks, z[8], k) {
          assert Owns(v, ino, DindEntry(k), c);
        } else {
          var l: nat :| l < PER_BLOCK && EntryAt(v.blocks, EntryAt(v.blocks, z[8], k), l) == c;
          assert Owns(v, ino, DindLeaf(k, l), c);
        }
      }
    }
  }

  lemma OwnsPart(v: Volume, ino: nat, s: Slot, c: nat)
    requires Shaped(v) && Owns(v, ino, s, c)
    ensures var z := v.inodes[ino].zone;
            || (exists i: nat :: i < 7 && z[i] == c)
            || UnderInd(v.blocks, z[7], c) || UnderDind(v.blocks, z[8], c)
  {
    var z := v.inodes[ino].zone;
    PtrsOf(v, ino);
    match s
    case Direct(i) => assert z[i] == c;
    case DindEntry(k) => assert UnderInd(v.blocks, EntryAt(v.blocks, z[8], k), c);
    case DindLeaf(k, l) => assert UnderInd(v.blocks, EntryAt(v.blocks, z[8], k), c);
    case _ =>
  }

  /** A file's blocks, as truncate goes through them. */
  lemma OwnedByParts(v: Volume, ino: nat, c: nat)
    requires Shaped(v) && ino < |v.inodes| && v.inodes[ino].hasBlocks && c != 0
    ensures var z := v.inodes[ino].zone;
            OwnedBy(v, ino, c)
            <==> (exists i: nat :: i < 7 && z[i] == c)
                 || UnderInd(v.blocks, z[7], c) || UnderDind(v.blocks, z[8], c)
  {
    PartsOwned(v, ino, c);
    if i: nat :| i < 7 && v.inodes[ino].zone[i] == c {
      assert Owns(v, ino, Direct(i), c);
    }
    if s: Slot :| Owns(v, ino, s, c) {
      OwnsPart(v, ino, s, c);
    }
  }

  /** The inode of an empty file. */
  function Emptied(node: Inode): Inode {
    Inode(node.hasBlocks, seq(9, _ => 0), 0)
  }

  /** A file gave back exactly what it owned. */
  ghost predicate Released(v: Volume, v': Volume, ino: nat) {
    && Shaped(v) && Shaped(v') && ino < |v.inodes|
    && v' == Volume(v.first, v.nzones, v'.zmap, v.blocks, v.inodes[ino := Emptied(v.inodes[ino])])
    && (forall c: nat :: InZone(v, c) ==> (Used(v', c) <==> Used(v, c) && !OwnedBy(v, ino, c)))
  }

  lemma {:induction false} PtrOfReleased(v: Volume, v': Volume, ino: nat, ino': nat, s: Slot)
    requires Released(v, v', ino) && ino' < |v.inodes| && s.Valid()
    ensures Ptr(v', ino', s) == if ino' == ino then 0 else Ptr(v, ino', s)
    decreases s.Depth()
  {
    if !s.InInode() {
      PtrOfReleased(v, v', ino, ino', s.Parent());
    }
  }

  /** Releasing a file keeps the ownership invariant; the file reads as empty and every other
      file keeps its blocks and its bytes. */
  lemma ReleasedSound(v: Volume, v': Volume, ino: nat)
    requires Sound(v) && Released(v, v', ino) && v.inodes[ino].hasBlocks
    ensures Sound(v')
    ensures forall i: nat, s: Slot, c: nat :: Owns(v', i, s, c) <==> i != ino && Owns(v, i, s, c)
    ensures forall i: nat, pos: nat :: i < |v.inodes| && pos / BLOCK_SIZE < MAX_BLOCKS
              ==> ByteAt(v', i, pos) == if i == ino then 0 else ByteAt(v, i, pos)
  {
    forall i: nat, s: Slot | i < |v.inodes| && s.Valid()
      ensures Ptr(v', i, s) == if i == ino then 0 else Ptr(v, i, s)
    {
      PtrOfReleased(v, v', ino, i, s);
    }
    assert forall i: nat, s: Slot, c: nat :: Owns(v', i, s, c) <==> i != ino && Owns(v, i, s, c);
    forall i: nat, s: Slot, c: nat | Owns(v', i, s, c) ensures InZone(v', c) && Used(v', c) {
      assert Owns(v, i, s, c);
    }
    forall c: nat | InZone(v', c) && Used(v', c) ensures exists i: nat :: OwnedBy(v', i, c) {
      var i: nat :| OwnedBy(v, i, c);
      var s: Slot :| Owns(v, i, s, c);
      assert Owns(v', i, s, c);
      assert OwnedBy(v', i, c);
    }
  }

  // ---------------------------------------------------------------- writing a file

  function Max(a: nat, b: nat): nat {
    if a > b then a else b
  }

  /** A file is a zero-extended sequence of bytes with a size: writing `data` at `start` replaces
      exactly [start, start + |data|), extends the size to reach it, and touches no other file. */
  ghost predicate Wrote(v: Volume, v': Volume, ino: nat, start: nat, data: seq<Byte>)
    ensures Wrote(v, v', ino, start, data) ==> Sound(v) && Sound(v') && ino < |v.inodes| == |v'.inodes|
    ensures Wrote(v, v', ino, start, data) ==> v.inodes[ino].hasBlocks && v'.inodes[ino].hasBlocks
  {
    && Sound(v) && Sound(v') && ino < |v.inodes| == |v'.inodes| && v.inodes[ino].hasBlocks
    && start + |data| <= MAX_BLOCKS * BLOCK_SIZE
    && (forall i: nat :: i < |v.inodes| && i != ino ==> v'.inodes[i] == v.inodes[i])
    && v'.inodes[ino].hasBlocks
    && v'.inodes[ino].size
       == (if data == [] then v.inodes[ino].size else Max(v.inodes[ino].size, start + |data|))
    && (forall i: nat, pos: nat ::
          i < |v.inodes| && v.inodes[i].hasBlocks && pos / BLOCK_SIZE < MAX_BLOCKS
          ==> ByteAt(v', i, pos)
              == if i == ino && start <= pos < start + |data| then data[pos - start] else ByteAt(v, i, pos))
  }

  lemma WroteSize(v: Volume, v': Volume, ino: nat, start: nat, data: seq<Byte>)
    requires Wrote(v, v', ino, start, data)
    ensures v'.inodes[ino].size
            == if data == [] || start + |data| <= v.inodes[ino].size then v.inodes[ino].size else start + |data|
  {
  }

  lemma WroteNothing(v: Volume, ino: nat, start: nat)
    requires Sound(v) && ino < |v.inodes| && v.inodes[ino].hasBlocks && start <= MAX_BLOCKS * BLOCK_SIZE
    ensures Wrote(v, v, ino, start, [])
  {
  }

  lemma GrownWroteNothing(v: Volume, v': Volume, ino: nat, t: Slot, start: nat)
    requires Grown(v, v', ino, t) && v.inodes[ino].hasBlocks && start <= MAX_BLOCKS * BLOCK_SIZE
    ensures Wrote(v, v', ino, start, [])
  {
  }

  lemma WroteMore(v: Volume, v': Volume, v'': Volume, ino: nat, start: nat, data: seq<Byte>, more: seq<Byte>)
    requires Wrote(v, v', ino, start, data) && Wrote(v', v'', ino, start + |data|, more)
    ensures Wrote(v, v'', ino, start, data + more)
  {
    forall i: nat, pos: nat | i < |v.inodes| && v.inodes[i].hasBlocks && pos / BLOCK_SIZE < MAX_BLOCKS
      ensures ByteAt(v'', i, pos)
              == if i == ino && start <= pos < start + |data + more| then (data + more)[pos - start]
                 else ByteAt(v, i, pos)
    {
      assert v'.inodes[i].hasBlocks;
    }
  }

  /** Creating a block between two writes is not noticed. */
  /** The size only grows to cover what was written, so nothing but zeros stays beyond it. */
  lemma WroteKeepsZeroTails(v: Volume, v': Volume, ino: nat, start: nat, data: seq<Byte>)
    requires Wrote(v, v', ino, start, data) && ZeroTails(v)
    ensures ZeroTails(v')
  {
    forall i: nat, pos: nat | i < |v'.inodes| && v'.inodes[i].hasBlocks && v'.inodes[i].size <= pos
                              && pos / BLOCK_SIZE < MAX_BLOCKS
      ensures ByteAt(v', i, pos) == 0
    {
      assert v.inodes[i].hasBlocks && v.inodes[i].size <= pos;
    }
  }

  /** One block's worth of a write: the size first, then the bytes. */
  lemma ChunkWritten(v: Volume, ino: nat, pos: nat, data: seq<Byte>, size: nat)
    requires Sound(v) && ino < |v.inodes| && v.inodes[ino].hasBlocks
    requires pos / BLOCK_SIZE < MAX_BLOCKS && pos % BLOCK_SIZE + |data| <= BLOCK_SIZE && data != []
    requires 0 < Ptr(v, ino, SlotOf(pos / BLOCK_SIZE)) < |v.blocks|
    requires size == Max(v.inodes[ino].size, pos + |data|)
    ensures var v' := Resized(Overwritten(v, Ptr(v, ino, SlotOf(pos / BLOCK_SIZE)), pos % BLOCK_SIZE, data), ino, size);
            Wrote(v, v', ino, pos, data)
  {
    hide Sound, Ptr, SlotOf, ByteAt, Shaped;
    var n, at := pos / BLOCK_SIZE, pos % BLOCK_SIZE;
    var b := Ptr(v, ino, SlotOf(n));
    assert Owns(v, ino, SlotOf(n), b);
    OverwrittenSound(v, ino, SlotOf(n), b, at, data);
    var w := Overwritten(v, b, at, data);
    ResizedSound(w, ino, size);
    forall i: nat, p: nat | i < |v.inodes| && v.inodes[i].hasBlocks && p / BLOCK_SIZE < MAX_BLOCKS
      ensures ByteAt(w, i, p) == if i == ino && pos <= p < pos + |data| then data[p - pos] else ByteAt(v, i, p)
    {
      BytesOfOverwritten(v, ino, n, at, data, i, p);
      InsideBlock(pos, |data|, p);
    }
    EndInRange(pos, |data|);
  }

  lemma EndInRange(pos: nat, n: nat)
    requires pos / BLOCK_SIZE < MAX_BLOCKS && pos % BLOCK_SIZE + n <= BLOCK_SIZE
    ensures pos + n <= MAX_BLOCKS * BLOCK_SIZE
  {
  }
}
