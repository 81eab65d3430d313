/**
 The block allocator, the block map, reading, writing and truncating files, as Linux 0.11 does
 them: sequentially, with device I/O that succeeds. A block's contents are the same in the
 buffer cache and on the device.
 */
module MinixFs {
  import opened MinixVolume

  /** struct file: the position and the append flag of an open file. */
  class OpenFile {
    var pos: nat
    var append: bool
  }

  /** The first clear bit of a word, as `notl; bsfl` finds it, or the word's length. */
  function FirstClear(word: seq<bool>): (k: nat)
    ensures k <= |word| && (forall i :: 0 <= i < k ==> word[i])
    ensures k < |word| ==> !word[k]
  {
    if word == [] || !word[0] then 0 else 1 + FirstClear(word[1..])
  }

  /** find_first_zero: word by word through one block of the bitmap. */
  method FindFirstZero(bits: seq<bool>) returns (j: nat)
    requires |bits| == BITS_PER_MAP
    ensures j <= BITS_PER_MAP && (forall i :: 0 <= i < j ==> bits[i])
    ensures j < BITS_PER_MAP ==> !bits[j]
  {
    j := 0;
    while j < BITS_PER_MAP
      invariant j <= BITS_PER_MAP && j % 32 == 0
      invariant forall i :: 0 <= i < j ==> bits[i]
    {
      var word := bits[j..j + 32];
      var k := FirstClear(word);
      assert forall i :: j <= i < j + k ==> bits[i] == word[i - j];
      if k < 32 {
        return j + k;
      }
      j := j + 32;
    }
  }

  class Minix {
    const first: nat
    const nzones: nat
    var zmap: seq<seq<bool>>
    var blocks: seq<Block>
    var inodes: seq<Inode>

    ghost function View(): Volume
      reads this
    {
      Volume(first, nzones, zmap, blocks, inodes)
    }

    /** new_block: the first free block, zeroed. A failing search may set a bit that stands for
        no block, but never one that does. */
    method NewBlock() returns (b: nat)
      requires Shaped(View())
      modifies this`zmap, this`blocks
      ensures Shaped(View())
      ensures b == 0 ==> blocks == old(blocks) && Full(old(View())) && Full(View())
      ensures b != 0 ==> InZone(old(View()), b) && !Used(old(View()), b) && View() == Allocated(old(View()), b)
      ensures b != 0 ==> forall c: nat :: InZone(old(View()), c) && c < b ==> Used(old(View()), c)
    {
      ghost var v := View();
      var i, j := 0, BITS_PER_MAP;
      while i < 8
        invariant i <= 8 && View() == v
        invariant forall m :: 0 <= m < i && m < |zmap| ==> forall n :: 0 <= n < BITS_PER_MAP ==> zmap[m][n]
        invariant i < 8 || j >= BITS_PER_MAP || i >= |zmap|
      {
        if i < |zmap| {
          j := FindFirstZero(zmap[i]);
          if j < BITS_PER_MAP {
            break;
          }
        }
        i := i + 1;
      }
      if i >= 8 || i >= |zmap| || j >= BITS_PER_MAP {
        assert Full(v);
        return 0;
      }
      ghost var k := i * BITS_PER_MAP + j;
      assert k / BITS_PER_MAP == i && k % BITS_PER_MAP == j;
      assert forall n: nat :: n < k ==> Bit(zmap, n);
      assert k >= 1;
      zmap := zmap[i := zmap[i][j := true]];
      assert zmap == SetBit(v.zmap, k, true);
      b := j + i * BITS_PER_MAP + first - 1;
      forall c: nat | InZone(v, c)
        ensures Used(View(), c) <==> Used(v, c) || BitOf(v, c) == k
        ensures c < b ==> Used(v, c)
      {
        BitAfterSet(v.zmap, k, true, BitOf(v, c));
      }
      if b >= nzones {
        return 0;
      }
      blocks := blocks[b := ZeroBlock()];
    }

    /** free_block. A block outside the zone, or already free, is a panic. */
    method FreeBlock(b: nat)
      requires Shaped(View()) && InZone(View(), b) && Used(View(), b)
      modifies this`zmap
      ensures Shaped(View())
      ensures forall c: nat :: InZone(View(), c) ==> (Used(View(), c) <==> Used(old(View()), c) && c != b)
    {
      ghost var v := View();
      var k := b - (first - 1);
      zmap := zmap[k / BITS_PER_MAP := zmap[k / BITS_PER_MAP][k % BITS_PER_MAP := false]];
      assert zmap == SetBit(v.zmap, k, false);
      forall c: nat | InZone(v, c) ensures Used(View(), c) <==> Used(v, c) && c != b {
        BitAfterSet(v.zmap, k, false, BitOf(v, c));
      }
    }

    /** What _bmap does at every level: read a slot, in the inode or in the block `p`, and when
        creating, fill it if it is empty. */
    method FillSlot(ino: nat, s: Slot, p: nat, create: bool, ghost t: Slot) returns (b: nat)
      requires Sound(View()) && ino < |inodes| && inodes[ino].hasBlocks && s.Valid()
      requires !s.InInode() ==> p != 0 && p == Ptr(View(), ino, s.Parent())
      requires s == t || !s.IsData()
      modifies this`zmap, this`blocks, this`inodes
      ensures !create ==> View() == old(View())
      ensures Grown(old(View()), View(), ino, t)
      ensures b == Ptr(View(), ino, s)
      ensures create && b == 0 ==> Full(View())
    {
      hide Sound, Grown, Full, Ptr, CanAttach, Attach, Used;
      ghost var v := View();
      GrownByNothing(v, v, ino, t);
      SlotRead(v, ino, s, p);
      b := if s.InInode() then inodes[ino].zone[s.Index()] else Entry(blocks[p], s.Index());
      if create && b == 0 {
        b := NewBlock();
        if b != 0 {
          SlotFilled(v, ino, s, p, b, t);
          if s.InInode() {
            var node := inodes[ino];
            inodes := inodes[ino := Inode(node.hasBlocks, node.zone[s.Index() := b], node.size)];
          } else {
            blocks := blocks[p := WithEntry(blocks[p], s.Index(), b)];
          }
        } else {
          NothingFilled(v, View(), ino, s, t);
        }
      }
    }

    /** _bmap: bmap when `create` is false, create_block when it is true. A block number beyond
        the double indirect blocks is a panic. */
    method BlockMap(ino: nat, n: nat, create: bool) returns (b: nat)
      requires Sound(View()) && ino < |inodes| && inodes[ino].hasBlocks
      requires n < MAX_BLOCKS
      modifies this`zmap, this`blocks, this`inodes
      ensures !create ==> View() == old(View())
      ensures Grown(old(View()), View(), ino, SlotOf(n))
      ensures b == Ptr(View(), ino, SlotOf(n))
      ensures |inodes[ino].zone| == 9
      ensures n < 7 ==> b == inodes[ino].zone[n]
      ensures 7 <= n < 519 ==> b == EntryAt(blocks, inodes[ino].zone[7], n - 7)
      ensures 519 <= n ==>
        b == EntryAt(blocks, EntryAt(blocks, inodes[ino].zone[8], (n - 519) / 512), (n - 519) % 512)
      ensures create && b == 0 ==> Full(View())
    {
      hide Sound, Grown, Full, Ptr, EntryAt;
      ghost var t := SlotOf(n);
      ghost var v := View();
      if n < 7 {
        b := FillSlot(ino, Direct(n), 0, create, t);
        PtrOfBlock(View(), ino, n);
        return;
      }
      var m := n - 7;
      if m < PER_BLOCK {
        var p := FillSlot(ino, Ind, 0, create, t);
        BelowEmpty(View(), ino, t);
        PtrOfBlock(View(), ino, n);
        if p == 0 {
          return 0;
        }
        ghost var v1 := View();
        b := FillSlot(ino, IndEntry(m), p, create, t);
        GrownTwice(v, v1, View(), ino, t);
        PtrOfBlock(View(), ino, n);
        return;
      }
      m := m - PER_BLOCK;
      var p := FillSlot(ino, Dind, 0, create, t);
      BelowEmpty(View(), ino, t);
      PtrOfBlock(View(), ino, n);
      if p == 0 {
        return 0;
      }
      ghost var v1 := View();
      var q := FillSlot(ino, DindEntry(m / PER_BLOCK), p, create, t);
      GrownTwice(v, v1, View(), ino, t);
      BelowEmpty(View(), ino, t);
      PtrOfBlock(View(), ino, n);
      if q == 0 {
        return 0;
      }
      ghost var v2 := View();
      b := FillSlot(ino, DindLeaf(m / PER_BLOCK, m % PER_BLOCK), q, create, t);
      GrownTwice(v, v2, View(), ino, t);
      PtrOfBlock(View(), ino, n);
    }

    /** One round of file_read's loop: `chars` bytes of one block. */
    method ReadChunk(ino: nat, pos: nat, chars: nat) returns (data: seq<Byte>)
      requires Sound(View()) && ino < |inodes| && inodes[ino].hasBlocks
      requires pos / BLOCK_SIZE < MAX_BLOCKS && pos % BLOCK_SIZE + chars <= BLOCK_SIZE
      modifies this`zmap, this`blocks, this`inodes
      ensures View() == old(View()) && |data| == chars
      ensures forall i: nat :: i < chars ==>
        (pos + i) / BLOCK_SIZE < MAX_BLOCKS && data[i] == ByteAt(View(), ino, pos + i)
    {
      hide Sound, Grown, Full, Ptr, SlotOf, EntryAt;
      var nr := BlockMap(ino, pos / BLOCK_SIZE, false);
      var at := pos % BLOCK_SIZE;
      if nr != 0 {
        DataBlockInRange(View(), ino, pos / BLOCK_SIZE);
        data := blocks[nr][at..at + chars];
      } else {
        data := seq(chars, _ => 0);
      }
      forall i: nat | i < chars
        ensures (pos + i) / BLOCK_SIZE < MAX_BLOCKS && data[i] == ByteAt(View(), ino, pos + i)
      {
        InsideBlock(pos, chars, pos + i);
      }
    }

    /** file_read: `count` bytes from the file's position on, zeros where there is no block. It
        does not look at the file's size. */
    method FileRead(ino: nat, f: OpenFile, count: int) returns (n: int, buf: seq<Byte>)
      requires Sound(View()) && ino < |inodes| && inodes[ino].hasBlocks
      requires count > 0 ==> f.pos + count <= MAX_BLOCKS * BLOCK_SIZE
      requires f as object != this
      modifies f`pos, this`zmap, this`blocks, this`inodes
      ensures View() == old(View())
      ensures n == |buf| == (if count <= 0 then 0 else count)
      ensures f.pos == old(f.pos) + n
      ensures forall i :: 0 <= i < n ==> buf[i] == ByteAt(View(), ino, old(f.pos) + i)
      ensures forall i :: 0 <= i < n ==> OnDisk(View(), ino, old(f.pos) + i, buf[i])
    {
      hide Sound, Grown, Full, Ptr, SlotOf, EntryAt, ByteAt, CellAt, OnDisk;
      ghost var v, start := View(), f.pos;
      if count <= 0 {
        return 0, [];
      }
      buf := [];
      var left := count;
      while left != 0
        invariant 0 <= left <= count && |buf| == count - left
        invariant View() == v && f.pos == start + |buf|
        invariant forall i :: 0 <= i < |buf| ==> buf[i] == ByteAt(v, ino, start + i)
      {
        var pos := f.pos;
        var at := pos % BLOCK_SIZE;
        var chars := if BLOCK_SIZE - at < left then BLOCK_SIZE - at else left;
        var data := ReadChunk(ino, pos, chars);
        assert forall i :: |buf| <= i < |buf| + chars ==> (buf + data)[i] == data[i - |buf|];
        f.pos := f.pos + chars;
        left := left - chars;
        buf := buf + data;
      }
      n := count - left;
      DiskBytes(v, ino, start, buf);
    }

    /** One round of file_write's loop once the block is known: the size first, then the bytes. */
    method WriteChunk(ino: nat, block: nat, pos: nat, data: seq<Byte>)
      requires Sound(View()) && ino < |inodes| && inodes[ino].hasBlocks
      requires pos / BLOCK_SIZE < MAX_BLOCKS && pos % BLOCK_SIZE + |data| <= BLOCK_SIZE && data != []
      requires block == Ptr(View(), ino, SlotOf(pos / BLOCK_SIZE)) != 0
      modifies this`blocks, this`inodes
      ensures Wrote(old(View()), View(), ino, pos, data)
    {
      ghost var v := View();
      assert Owns(v, ino, SlotOf(pos / BLOCK_SIZE), block);
      if pos + |data| > inodes[ino].size {
        inodes := inodes[ino := Inode(inodes[ino].hasBlocks, inodes[ino].zone, pos + |data|)];
      }
      blocks := blocks[block := WithBytes(blocks[block], pos % BLOCK_SIZE, data)];
      ChunkWritten(v, ino, pos, data, inodes[ino].size);
      assert inodes == v.inodes[ino := Inode(v.inodes[ino].hasBlocks, v.inodes[ino].zone, inodes[ino].size)];
    }

    /** One round of file_write's loop, which ends it when no block can be had. */
    method WriteNext(ino: nat, pos: nat, data: seq<Byte>) returns (ok: bool)
      requires Sound(View()) && ino < |inodes| && inodes[ino].hasBlocks
      requires pos / BLOCK_SIZE < MAX_BLOCKS && pos % BLOCK_SIZE + |data| <= BLOCK_SIZE && data != []
      requires pos + |data| <= MAX_BLOCKS * BLOCK_SIZE
      modifies this`zmap, this`blocks, this`inodes
      ensures Wrote(old(View()), View(), ino, pos, if ok then data else [])
      ensures !ok ==> Full(View())
    {
      hide Sound, Grown, Wrote, Full, Ptr, SlotOf, EntryAt;
      ghost var v := View();
      var block := BlockMap(ino, pos / BLOCK_SIZE, true);
      ghost var v1 := View();
      GrownWroteNothing(v, v1, ino, SlotOf(pos / BLOCK_SIZE), pos);
      if block == 0 {
        return false;
      }
      WriteChunk(ino, block, pos, data);
      WroteMore(v, v1, View(), ino, pos, [], data);
      assert [] + data == data;
      return true;
    }

    /** file_write: the first `count` bytes of `buf`, at the file's position or at its end. It
        stops early only when the device is full, and then says how far it got. */
    method FileWrite(ino: nat, f: OpenFile, buf: seq<Byte>, count: int) returns (n: int)
      requires Sound(View()) && ino < |inodes| && inodes[ino].hasBlocks
      requires count <= |buf| && f as object != this
      requires count > 0 ==> (if f.append then inodes[ino].size else f.pos) + count <= MAX_BLOCKS * BLOCK_SIZE
      modifies f`pos, this`zmap, this`blocks, this`inodes
      ensures n == -1 || 0 < n <= count
      ensures var start := if f.append then old(inodes)[ino].size else old(f.pos);
              var done := if n == -1 then 0 else n;
              && f.pos == (if f.append then old(f.pos) else start + done)
              && (count > 0 ==> Wrote(old(View()), View(), ino, start, buf[..done]))
              && (count <= 0 ==> n == -1 && View() == old(View()))
              && (done < count ==> Full(View()))
              && |inodes| == |old(inodes)|
              && inodes[ino].size == (if start + done > old(inodes)[ino].size && done > 0 then start + done
                                      else old(inodes)[ino].size)
      ensures old(ZeroTails(View())) ==> ZeroTails(View())
    {
      hide Sound, Wrote, Full, ZeroTails, Shaped, ByteAt;
      ghost var v := View();
      var start := if f.append then inodes[ino].size else f.pos;
      var pos := start;
      var i := 0;
      if count > 0 {
        WroteNothing(v, ino, start);
        assert buf[..0] == [];
      }
      while i < count
        invariant 0 <= i && (count > 0 ==> i <= count) && (count <= 0 ==> i == 0 && View() == v)
        invariant pos == start + i
        invariant count > 0 ==> Wrote(v, View(), ino, start, buf[..i])
        invariant f.pos == old(f.pos) && f.append == old(f.append)
      {
        ghost var v0 := View();
        var at := pos % BLOCK_SIZE;
        var c := if BLOCK_SIZE - at > count - i then count - i else BLOCK_SIZE - at;
        RestOfBlock(pos, count - i);
        var ok := WriteNext(ino, pos, buf[i..i + c]);
        WroteMore(v, v0, View(), ino, start, buf[..i], if ok then buf[i..i + c] else []);
        if !ok {
          assert buf[..i] + [] == buf[..i];
          break;
        }
        assert buf[..i] + buf[i..i + c] == buf[..i + c];
        pos := pos + c;
        i := i + c;
      }
      if !f.append {
        f.pos := pos;
      }
      n := if i != 0 then i else -1;
      if count > 0 {
        WroteSize(v, View(), ino, start, buf[..i]);
        if ZeroTails(v) {
          WroteKeepsZeroTails(v, View(), ino, start, buf[..i]);
        }
      }
    }

    /** free_ind: the blocks that hang off an indirect block, then the block itself. */
    method FreeInd(p: nat)
      requires Shaped(View()) && IndReady(View(), p)
      modifies this`zmap
      ensures Shaped(View())
      ensures forall c: nat :: InZone(View(), c)
                ==> (Used(View(), c) <==> Used(old(View()), c) && !UnderInd(old(blocks), p, c))
    {
      if p == 0 {
        return;
      }
      ghost var v := View();
      assert UnderInd(v.blocks, p, p);
      for i := 0 to PER_BLOCK
        invariant Shaped(View()) && View() == v.(zmap := zmap)
        invariant forall c: nat :: InZone(v, c)
                    ==> (Used(View(), c) <==> Used(v, c) && !exists k: nat :: k < i && EntryAt(v.blocks, p, k) == c)
      {
        var e := Entry(blocks[p], i);
        assert e == EntryAt(v.blocks, p, i);
        if e != 0 {
          assert UnderInd(v.blocks, p, e);
          FreeBlock(e);
        }
      }
      FreeBlock(p);
    }

    /** free_dind. */
    method FreeDind(p: nat)
      requires Shaped(View()) && DindReady(View(), p)
      modifies this`zmap
      ensures Shaped(View())
      ensures forall c: nat :: InZone(View(), c)
                ==> (Used(View(), c) <==> Used(old(View()), c) && !UnderDind(old(blocks), p, c))
    {
      if p == 0 {
        return;
      }
      ghost var v := View();
      assert UnderDind(v.blocks, p, p);
      for i := 0 to PER_BLOCK
        invariant Shaped(View()) && View() == v.(zmap := zmap)
        invariant forall c: nat :: InZone(v, c)
                    ==> (Used(View(), c)
                         <==> Used(v, c) && !exists k: nat :: k < i && UnderInd(v.blocks, EntryAt(v.blocks, p, k), c))
      {
        var e := Entry(blocks[p], i);
        assert e == EntryAt(v.blocks, p, i);
        if e != 0 {
          assert IndReady(v, e);
          forall c: nat | UnderInd(blocks, e, c) ensures InZone(View(), c) && Used(View(), c) {
            assert UnderDind(blocks, p, c);
          }
          FreeInd(e);
        }
      }
      FreeBlock(p);
    }

    /** The first loop of truncate: the direct blocks. */
    method FreeDirect(ino: nat)
      requires Sound(View()) && ino < |inodes| && inodes[ino].hasBlocks
      modifies this`zmap, this`inodes
      ensures Shaped(View()) && View() == Volume(first, nzones, zmap, old(blocks), inodes)
      ensures |inodes| == |old(inodes)|
      ensures inodes == old(inodes)[ino := Inode(true, inodes[ino].zone, old(inodes)[ino].size)]
      ensures inodes[ino].zone == seq(7, _ => 0) + old(inodes)[ino].zone[7..]
      ensures forall c: nat :: InZone(View(), c)
                ==> (Used(View(), c) <==> Used(old(View()), c)
                                          && !exists k: nat :: k < 7 && old(inodes)[ino].zone[k] == c)
    {
      ghost var v := View();
      ghost var z := inodes[ino].zone;
      for i := 0 to 7
        invariant Shaped(View()) && View() == Volume(v.first, v.nzones, zmap, v.blocks, inodes)
        invariant |inodes| == |v.inodes|
        invariant inodes == v.inodes[ino := Inode(true, inodes[ino].zone, v.inodes[ino].size)]
        invariant |inodes[ino].zone| == 9
        invariant forall k :: 0 <= k < 9 ==> inodes[ino].zone[k] == if k < i then 0 else z[k]
        invariant forall c: nat :: InZone(v, c)
                    ==> (Used(View(), c) <==> Used(v, c) && !exists k: nat :: k < i && z[k] == c)
      {
        var b := inodes[ino].zone[i];
        if b != 0 {
          DirectOnce(v, ino, i);
          FreeBlock(b);
          inodes := inodes[ino := Inode(true, inodes[ino].zone[i := 0], inodes[ino].size)];
        }
      }
    }

    /** truncate: a regular file or a directory gives back every block it owns, and only those. */
    method Truncate(ino: nat)
      requires Sound(View()) && ino < |inodes|
      modifies this`zmap, this`inodes
      ensures !old(inodes)[ino].hasBlocks ==> View() == old(View())
      ensures old(inodes)[ino].hasBlocks ==> Released(old(View()), View(), ino) && Sound(View())
      ensures old(inodes)[ino].hasBlocks ==> inodes == old(inodes)[ino := Inode(true, seq(9, _ => 0), 0)]
    {
      hide UnderInd, UnderDind, Sound, IndReady, DindReady, Shaped;
      if !inodes[ino].hasBlocks {
        return;
      }
      ghost var v := View();
      ReadyToFree(v, ino);
      ZonesOf(v, ino);
      FreeDirect(ino);
      IndStaysReady(v, View(), inodes[ino].zone[7]);
      FreeInd(inodes[ino].zone[7]);
      DindStaysReady(v, View(), inodes[ino].zone[8]);
      FreeDind(inodes[ino].zone[8]);
      ghost var w := View();
      inodes := inodes[ino := Inode(true, inodes[ino].zone[7 := 0][8 := 0], 0)];
      assert inodes[ino].zone == seq(9, _ => 0);
      AllReleased(v, w, View(), ino);
    }
  }

  /** The three parts together are what the inode owned. */
  lemma AllReleased(v: Volume, w: Volume, v': Volume, ino: nat)
    requires Sound(v) && ino < |v.inodes| && v.inodes[ino].hasBlocks && Shaped(w)
    requires w == Volume(v.first, v.nzones, w.zmap, v.blocks, w.inodes)
    requires v' == Volume(v.first, v.nzones, w.zmap, v.blocks, v.inodes[ino := Inode(true, seq(9, _ => 0), 0)])
    requires forall c: nat :: InZone(v, c) ==>
      (Used(w, c) <==> Used(v, c)
                       && !(exists k: nat :: k < 7 && v.inodes[ino].zone[k] == c)
                       && !UnderInd(v.blocks, v.inodes[ino].zone[7], c)
                       && !UnderDind(v.blocks, v.inodes[ino].zone[8], c))
    ensures Released(v, v', ino) && Sound(v')
  {
    hide UnderInd, UnderDind, OwnedBy, Sound;
    forall c: nat | InZone(v, c) ensures Used(v', c) <==> Used(v, c) && !OwnedBy(v, ino, c) {
      OwnedByParts(v, ino, c);
    }
    ReleasedSound(v, v', ino);
  }

  lemma DiskBytes(v: Volume, ino: nat, start: nat, buf: seq<Byte>)
    requires Sound(v) && ino < |v.inodes| && v.inodes[ino].hasBlocks
    requires start + |buf| <= MAX_BLOCKS * BLOCK_SIZE
    requires forall i :: 0 <= i < |buf| ==> buf[i] == ByteAt(v, ino, start + i)
    ensures forall i :: 0 <= i < |buf| ==> OnDisk(v, ino, start + i, buf[i])
  {
    hide Sound, OnDisk, ByteAt;
    forall i | 0 <= i < |buf| ensures OnDisk(v, ino, start + i, buf[i]) {
      ByteIs(v, ino, start + i);
    }
  }

  /** What is left to write, or the rest of the block if that is less, stays in the block. */
  lemma RestOfBlock(pos: nat, left: nat)
    requires left > 0 && pos + left <= MAX_BLOCKS * BLOCK_SIZE
    ensures pos / BLOCK_SIZE < MAX_BLOCKS
    ensures
      var c := if BLOCK_SIZE - pos % BLOCK_SIZE > left then left else BLOCK_SIZE - pos % BLOCK_SIZE;
      0 < c <= left && pos % BLOCK_SIZE + c <= BLOCK_SIZE && pos + c <= MAX_BLOCKS * BLOCK_SIZE
  {
  }

  /** What a slot holds, read from the inode or from the block `p`. */
  lemma SlotRead(v: Volume, ino: nat, s: Slot, p: nat)
    requires Sound(v) && ino < |v.inodes| && v.inodes[ino].hasBlocks && s.Valid()
    requires !s.InInode() ==> p != 0 && p == Ptr(v, ino, s.Parent())
    ensures s.InInode() ==> Ptr(v, ino, s) == v.inodes[ino].zone[s.Index()]
    ensures !s.InInode() ==> InZone(v, p) && Ptr(v, ino, s) == Entry(v.blocks[p], s.Index())
  {
    if !s.InInode() {
      HeldOnce(v, ino, s.Parent(), ino, s.Parent());
    }
  }

  /** Writing a fresh block into an empty slot attaches it. */
  lemma SlotFilled(v: Volume, ino: nat, s: Slot, p: nat, b: nat, t: Slot)
    requires Sound(v) && ino < |v.inodes| && v.inodes[ino].hasBlocks && s.Valid() && Ptr(v, ino, s) == 0
    requires !s.InInode() ==> p != 0 && p == Ptr(v, ino, s.Parent())
    requires InZone(v, b) && !Used(v, b) && (s == t || !s.IsData())
    ensures CanAttach(v, ino, s, b) && Grown(v, Attach(v, ino, s, b), ino, t)
    ensures Ptr(Attach(v, ino, s, b), ino, s) == b
    ensures
      var w := Allocated(v, b);
      if s.InInode() then
        Attach(v, ino, s, b) == w.(inodes := v.inodes[ino := WithZone(v.inodes[ino], s.Index(), b)])
      else
        p < |w.blocks| && Attach(v, ino, s, b) == w.(blocks := w.blocks[p := WithEntry(w.blocks[p], s.Index(), b)])
  {
    hide Grown, Sound, Used;
    ParentStays(v, ino, s, b);
    AttachGrows(v, ino, s, b, t);
    PtrOfAttach(v, ino, s, b, ino, s);
  }

  /** No block was found: the bitmap may have changed where it stands for nothing. */
  lemma NothingFilled(v: Volume, v': Volume, ino: nat, s: Slot, t: Slot)
    requires Sound(v) && Shaped(v') && ino < |v.inodes| && s.Valid()
    requires v' == v.(zmap := v'.zmap) && Full(v) && Full(v')
    ensures Grown(v, v', ino, t) && Ptr(v', ino, s) == Ptr(v, ino, s)
  {
    assert forall c: nat :: InZone(v, c) ==> Used(v', c) && Used(v, c);
    GrownByNothing(v, v', ino, t);
    PtrIgnoresBitmap(v, v', ino, s);
  }

  lemma BelowEmpty(v: Volume, ino: nat, s: Slot)
    requires Shaped(v) && ino < |v.inodes| && s.Valid()
    ensures !s.InInode() && Ptr(v, ino, s.Parent()) == 0 ==> Ptr(v, ino, s) == 0
    ensures s.DindLeaf? && Ptr(v, ino, Dind) == 0 ==> Ptr(v, ino, s) == 0
  {
  }

  lemma DirectOnce(v: Volume, ino: nat, i: nat)
    requires Sound(v) && ino < |v.inodes| && v.inodes[ino].hasBlocks && i < 7
    ensures var b := v.inodes[ino].zone[i];
            b != 0 ==> InZone(v, b) && Used(v, b) && forall k: nat :: k < i ==> v.inodes[ino].zone[k] != b
  {
    var b := v.inodes[ino].zone[i];
    if b != 0 {
      assert Owns(v, ino, Direct(i), b);
      forall k: nat | k < i ensures v.inodes[ino].zone[k] != b {
        assert v.inodes[ino].zone[k] == b ==> Owns(v, ino, Direct(k), b);
      }
    }
  }

  /** What free_ind needs: no panic on the way, so every block once, in the zone and in use. */
  ghost predicate IndReady(v: Volume, p: nat)
    requires Shaped(v)
  {
    && (forall c: nat :: UnderInd(v.blocks, p, c) ==> InZone(v, c) && Used(v, c))
    && (forall k: nat :: k < PER_BLOCK && EntryAt(v.blocks, p, k) != 0 ==> EntryAt(v.blocks, p, k) != p)
    && (forall k: nat, l: nat :: k < l < PER_BLOCK && EntryAt(v.blocks, p, k) != 0
          ==> EntryAt(v.blocks, p, k) != EntryAt(v.blocks, p, l))
  }

  ghost predicate DindReady(v: Volume, p: nat)
    requires Shaped(v)
  {
    && (forall c: nat :: UnderDind(v.blocks, p, c) ==> InZone(v, c) && Used(v, c))
    && (forall k: nat :: k < PER_BLOCK ==>
          IndReady(v, EntryAt(v.blocks, p, k)) && !UnderInd(v.blocks, EntryAt(v.blocks, p, k), p))
    && (forall k: nat, l: nat, c: nat :: k < l < PER_BLOCK && UnderInd(v.blocks, EntryAt(v.blocks, p, k), c)
          ==> !UnderInd(v.blocks, EntryAt(v.blocks, p, l), c))
  }

  /** Releasing other blocks does not get in the way. */
  lemma IndStaysReady(v: Volume, w: Volume, p: nat)
    requires Shaped(v) && Shaped(w) && IndReady(v, p) && w.blocks == v.blocks
    requires forall c: nat :: UnderInd(v.blocks, p, c) && InZone(v, c) && Used(v, c) ==> InZone(w, c) && Used(w, c)
    ensures IndReady(w, p)
  {
  }

  lemma DindStaysReady(v: Volume, w: Volume, p: nat)
    requires Shaped(v) && Shaped(w) && DindReady(v, p) && w.blocks == v.blocks
    requires forall c: nat :: UnderDind(v.blocks, p, c) && InZone(v, c) && Used(v, c) ==> InZone(w, c) && Used(w, c)
    ensures DindReady(w, p)
  {
    forall k: nat | k < PER_BLOCK ensures IndReady(w, EntryAt(v.blocks, p, k)) {
      var e := EntryAt(v.blocks, p, k);
      forall c: nat | UnderInd(v.blocks, e, c) ensures InZone(w, c) && Used(w, c) {
        assert p != 0 ==> UnderDind(v.blocks, p, c);
      }
    }
  }

  /** Ownership is what truncate needs. */
  lemma ReadyToFree(v: Volume, ino: nat)
    requires Sound(v) && ino < |v.inodes| && v.inodes[ino].hasBlocks
    ensures IndReady(v, v.inodes[ino].zone[7]) && DindReady(v, v.inodes[ino].zone[8])
    ensures forall c: nat :: UnderInd(v.blocks, v.inodes[ino].zone[7], c)
              ==> !UnderDind(v.blocks, v.inodes[ino].zone[8], c)
    ensures forall i: nat, c: nat :: i < 7 && v.inodes[ino].zone[i] == c
              ==> !UnderInd(v.blocks, v.inodes[ino].zone[7], c) && !UnderDind(v.blocks, v.inodes[ino].zone[8], c)
  {
    var z := v.inodes[ino].zone;
    forall c: nat | UnderInd(v.blocks, z[7], c)
      ensures exists s: Slot :: (s.Ind? || s.IndEntry?) && Owns(v, ino, s, c)
    {
      var s := IndOwner(v, ino, c);
    }
    forall c: nat | UnderDind(v.blocks, z[8], c)
      ensures exists s: Slot :: (s.Dind? || s.DindEntry? || s.DindLeaf?) && Owns(v, ino, s, c)
    {
      var s := DindOwner(v, ino, c);
    }
    IndSlotsReady(v, ino);
    DindSlotsReady(v, ino);
    forall i: nat, c: nat | i < 7 && z[i] == c
      ensures !UnderInd(v.blocks, z[7], c) && !UnderDind(v.blocks, z[8], c)
    {
      if c != 0 {
        assert Owns(v, ino, Direct(i), c);
      }
    }
  }

  lemma IndOwner(v: Volume, ino: nat, c: nat) returns (s: Slot)
    requires Shaped(v) && ino < |v.inodes| && v.inodes[ino].hasBlocks && UnderInd(v.blocks, v.inodes[ino].zone[7], c)
    ensures (s.Ind? || s.IndEntry?) && Owns(v, ino, s, c)
  {
    var p := v.inodes[ino].zone[7];
    assert Ptr(v, ino, Ind) == p;
    if c == p {
      s := Ind;
    } else {
      var k: nat :| k < PER_BLOCK && EntryAt(v.blocks, p, k) == c;
      s := IndEntry(k);
    }
  }

  lemma DindEntryOwner(v: Volume, ino: nat, k: nat, c: nat) returns (s: Slot)
    requires Shaped(v) && ino < |v.inodes| && v.inodes[ino].hasBlocks && k < PER_BLOCK
    requires UnderInd(v.blocks, EntryAt(v.blocks, v.inodes[ino].zone[8], k), c)
    ensures (s == DindEntry(k) || (s.DindLeaf? && s.k == k)) && Owns(v, ino, s, c)
  {
    var p := v.inodes[ino].zone[8];
    assert Ptr(v, ino, Dind) == p && Ptr(v, ino, DindEntry(k)) == EntryAt(v.blocks, p, k);
    if c == EntryAt(v.blocks, p, k) {
      s := DindEntry(k);
    } else {
      var l: nat :| l < PER_BLOCK && EntryAt(v.blocks, EntryAt(v.blocks, p, k), l) == c;
      s := DindLeaf(k, l);
    }
  }

  lemma DindOwner(v: Volume, ino: nat, c: nat) returns (s: Slot)
    requires Shaped(v) && ino < |v.inodes| && v.inodes[ino].hasBlocks && UnderDind(v.blocks, v.inodes[ino].zone[8], c)
    ensures (s.Dind? || s.DindEntry? || s.DindLeaf?) && Owns(v, ino, s, c)
  {
    if c == v.inodes[ino].zone[8] {
      s := Dind;
    } else {
      var k: nat :| k < PER_BLOCK && UnderInd(v.blocks, EntryAt(v.blocks, v.inodes[ino].zone[8], k), c);
      s := DindEntryOwner(v, ino, k, c);
    }
  }

  lemma IndSlotsReady(v: Volume, ino: nat)
    requires Sound(v) && ino < |v.inodes| && v.inodes[ino].hasBlocks
    ensures IndReady(v, v.inodes[ino].zone[7])
  {
    var p := v.inodes[ino].zone[7];
    forall c: nat | UnderInd(v.blocks, p, c) ensures InZone(v, c) && Used(v, c) {
      var s := IndOwner(v, ino, c);
    }
    assert Ptr(v, ino, Ind) == p;
    forall k: nat | k < PER_BLOCK && EntryAt(v.blocks, p, k) != 0 ensures EntryAt(v.blocks, p, k) != p {
      assert Owns(v, ino, IndEntry(k), EntryAt(v.blocks, p, k));
      assert Owns(v, ino, Ind, p);
    }
    forall k: nat, l: nat | k < l < PER_BLOCK && EntryAt(v.blocks, p, k) != 0
      ensures EntryAt(v.blocks, p, k) != EntryAt(v.blocks, p, l)
    {
      assert Owns(v, ino, IndEntry(k), EntryAt(v.blocks, p, k));
      assert EntryAt(v.blocks, p, l) != 0 ==> Owns(v, ino, IndEntry(l), EntryAt(v.blocks, p, l));
    }
  }

  lemma DindSlotsReady(v: Volume, ino: nat)
    requires Sound(v) && ino < |v.inodes| && v.inodes[ino].hasBlocks
    ensures DindReady(v, v.inodes[ino].zone[8])
  {
    var p := v.inodes[ino].zone[8];
    assert Ptr(v, ino, Dind) == p;
    assert p != 0 ==> Owns(v, ino, Dind, p);
    forall c: nat | UnderDind(v.blocks, p, c) ensures InZone(v, c) && Used(v, c) {
      var s := DindOwner(v, ino, c);
    }
    forall k: nat, c: nat | k < PER_BLOCK && UnderInd(v.blocks, EntryAt(v.blocks, p, k), c)
      ensures c != p && InZone(v, c) && Used(v, c)
    {
      var s := DindEntryOwner(v, ino, k, c);
    }
    forall k: nat | k < PER_BLOCK ensures IndReady(v, EntryAt(v.blocks, p, k)) {
      DindEntryReady(v, ino, k);
    }
    forall k: nat, l: nat, c: nat | k < l < PER_BLOCK && UnderInd(v.blocks, EntryAt(v.blocks, p, k), c)
      ensures !UnderInd(v.blocks, EntryAt(v.blocks, p, l), c)
    {
      var s := DindEntryOwner(v, ino, k, c);
      if UnderInd(v.blocks, EntryAt(v.blocks, p, l), c) {
        var t := DindEntryOwner(v, ino, l, c);
      }
    }
  }

  lemma DindEntryReady(v: Volume, ino: nat, k: nat)
    requires Sound(v) && ino < |v.inodes| && v.inodes[ino].hasBlocks && k < PER_BLOCK
    ensures IndReady(v, EntryAt(v.blocks, v.inodes[ino].zone[8], k))
  {
    var p := v.inodes[ino].zone[8];
    var q := EntryAt(v.blocks, p, k);
    assert Ptr(v, ino, Dind) == p && Ptr(v, ino, DindEntry(k)) == q;
    forall c: nat | UnderInd(v.blocks, q, c) ensures InZone(v, c) && Used(v, c) {
      var s := DindEntryOwner(v, ino, k, c);
    }
    assert q != 0 ==> Owns(v, ino, DindEntry(k), q);
    forall l: nat | l < PER_BLOCK && EntryAt(v.blocks, q, l) != 0
      ensures Owns(v, ino, DindLeaf(k, l), EntryAt(v.blocks, q, l))
    {
      assert Ptr(v, ino, DindLeaf(k, l)) == EntryAt(v.blocks, q, l);
    }
  }
}
