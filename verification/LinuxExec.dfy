/**
 How exec hands a program its arguments: the strings are packed downwards into an area of 32
 pages that is mapped at the end of the data segment, and the tables of pointers to them are
 built below.
 */
module LinuxExec {
  import opened Common

  const PAGE_SIZE := 4096
  const MAX_ARG_PAGES := 32
  const AREA := 131072
  const DATA_LIMIT := 0x4000000

  type Byte = x: int | 0 <= x < 256

  // ---------------------------------------------------------------- packed strings

  predicate NoNul(s: seq<Byte>) {
    forall i :: 0 <= i < |s| ==> s[i] != 0
  }

  predicate AllNoNul(strs: seq<seq<Byte>>) {
    forall i :: 0 <= i < |strs| ==> NoNul(strs[i])
  }

  /** The strings one after the other, each ended by a NUL. */
  function Packed(strs: seq<seq<Byte>>): seq<Byte> {
    if strs == [] then [] else strs[0] + [0] + Packed(strs[1..])
  }

  lemma {:induction false} PackedJoin(a: seq<seq<Byte>>, b: seq<seq<Byte>>)
    ensures Packed(a + b) == Packed(a) + Packed(b)
  {
    if a == [] {
      assert a + b == b;
    } else {
      PackedJoin(a[1..], b);
      assert (a + b)[1..] == a[1..] + b;
      var x := a[0] + [0];
      assert x + (Packed(a[1..]) + Packed(b)) == (x + Packed(a[1..])) + Packed(b);
    }
  }

  lemma PackedOne(s: seq<Byte>, rest: seq<seq<Byte>>)
    ensures Packed([s] + rest) == s + [0] + Packed(rest)
    ensures Packed([s]) == s + [0]
  {
    assert ([s] + rest)[1..] == rest && [s][1..] == [];
    assert s + [0] + [] == s + [0];
  }

  // ---------------------------------------------------------------- the argument pages

  type Pages = p: seq<seq<Byte>> |
    |p| == MAX_ARG_PAGES && forall k :: 0 <= k < MAX_ARG_PAGES ==> p[k] == [] || |p[k]| == PAGE_SIZE
    witness seq(MAX_ARG_PAGES, _ => [])

  function ZeroPage(): (z: seq<Byte>)
    ensures |z| == PAGE_SIZE && forall i :: 0 <= i < PAGE_SIZE ==> z[i] == 0
  {
    seq(PAGE_SIZE, _ => 0)
  }

  /** The byte at offset i of the area; a page not there yet reads as zero. */
  function At(page: Pages, i: nat): Byte
    requires i < AREA
  {
    var k := i / PAGE_SIZE;
    if page[k] == [] then 0 else page[k][i % PAGE_SIZE]
  }

  function Area(page: Pages): (a: seq<Byte>)
    ensures |a| == AREA
  {
    seq(AREA, i requires 0 <= i < AREA => At(page, i))
  }

  function WithByte(s: seq<Byte>, i: nat, b: Byte): seq<Byte>
    requires i < |s|
  {
    s[i := b]
  }

  lemma AreaOfNewPage(page: Pages, k: nat)
    requires k < MAX_ARG_PAGES && page[k] == []
    ensures Area(page[k := ZeroPage()]) == Area(page)
  {
    var page' := page[k := ZeroPage()];
    forall i | 0 <= i < AREA ensures At(page', i) == At(page, i) {
    }
  }

  lemma AreaOfByte(page: Pages, i: nat, b: Byte)
    requires i < AREA && page[i / PAGE_SIZE] != []
    ensures
      var k := i / PAGE_SIZE;
      |page[k]| == PAGE_SIZE && Area(page[k := WithByte(page[k], i % PAGE_SIZE, b)]) == Area(page)[i := b]
  {
    var k := i / PAGE_SIZE;
    var page': Pages := page[k := WithByte(page[k], i % PAGE_SIZE, b)];
    forall j | 0 <= j < AREA ensures At(page', j) == Area(page)[i := b][j] {
      assert j == PAGE_SIZE * (j / PAGE_SIZE) + j % PAGE_SIZE;
      assert i == PAGE_SIZE * (i / PAGE_SIZE) + i % PAGE_SIZE;
    }
  }

  /** Where the area differs from what it was: the stretch from p to top now holds s. */
  ghost predicate Holds(a: seq<Byte>, was: seq<Byte>, p: nat, top: nat, s: seq<Byte>) {
    && |a| == |was| && p <= top <= |a|
    && a[p..top] == s && a[..p] == was[..p] && a[top..] == was[top..]
  }

  lemma HoldsMore(a: seq<Byte>, was: seq<Byte>, p: nat, top: nat, s: seq<Byte>, b: Byte)
    requires Holds(a, was, p, top, s) && 0 < p
    ensures Holds(a[p - 1 := b], was, p - 1, top, [b] + s)
  {
    var a' := a[p - 1 := b];
    assert a'[p - 1..top] == [b] + a[p..top];
    assert a'[..p - 1] == a[..p][..p - 1] == was[..p][..p - 1];
  }

  lemma HoldsNothing(a: seq<Byte>, p: nat)
    requires p <= |a|
    ensures Holds(a, a, p, p, [])
  {
  }

  lemma HoldsJoin(was: seq<Byte>, a: seq<Byte>, a': seq<Byte>, p: nat, middle: nat, top: nat,
                  s: seq<Byte>, t: seq<Byte>)
    requires Holds(a, was, middle, top, t) && Holds(a', a, p, middle, s)
    ensures Holds(a', was, p, top, s + t)
  {
    assert a'[p..top] == a'[p..middle] + a'[middle..top];
    assert a'[middle..top] == a'[middle..][..top - middle] == a[middle..][..top - middle] == a[middle..top];
    assert a'[..p] == a[..p] == a[..middle][..p] == was[..middle][..p];
    assert a'[top..] == a'[middle..][top - middle..] == a[middle..][top - middle..] == a[top..];
  }

  class ArgPages {
    var page: Pages

    /** The pages the kernel has left to give. */
    var free: nat

    /** The page and offset in hand after a byte was stored at p; none at first. */
    predicate InHand(p: nat, offset: int, pag: nat)
      reads this
    {
      0 <= offset && (offset > 0 ==> offset == p % PAGE_SIZE && pag == p / PAGE_SIZE < MAX_ARG_PAGES && page[pag] != [])
    }

    /** Stores one byte at p, just below the byte stored before; allocates the page if need be. */
    method PushByte(p: nat, offset0: nat, pag0: nat, b: Byte) returns (ok: bool, offset: int, pag: nat)
      requires p < AREA && InHand(p + 1, offset0, pag0)
      modifies this
      ensures ok ==> InHand(p, offset, pag) && Area(page) == old(Area(page))[p := b]
      ensures !ok ==> free == 0
      ensures free <= old(free)
    {
      ok, offset, pag := true, offset0 - 1, pag0;
      hide Area, At;
      if offset < 0 {
        offset, pag := p % PAGE_SIZE, p / PAGE_SIZE;
        if page[pag] == [] {
          if free == 0 {
            return false, offset, pag;
          }
          free := free - 1;
          AreaOfNewPage(page, pag);
          page := page[pag := ZeroPage()];
        }
      }
      AreaOfByte(page, p, b);
      page := page[pag := WithByte(page[pag], offset, b)];
    }

    /** Stores a string and its NUL below offset p, last byte first. */
    method PushString(tmp: seq<Byte>, p0: nat, offset0: nat, pag0: nat)
      returns (ok: bool, p: nat, offset: int, pag: nat)
      requires |tmp| <= p0 <= AREA && InHand(p0, offset0, pag0)
      modifies this
      ensures ok ==> p == p0 - |tmp| && InHand(p, offset, pag)
      ensures ok ==> Holds(Area(page), old(Area(page)), p, p0, tmp)
      ensures !ok ==> free == 0
      ensures free <= old(free)
    {
      ghost var was := Area(page);
      HoldsNothing(was, p0);
      ok, p, offset, pag := true, p0, offset0, pag0;
      var len := |tmp|;
      hide Area, Holds;
      while len > 0
        invariant 0 <= len <= |tmp| && InHand(p, offset, pag)
        invariant p == p0 - (|tmp| - len)
        invariant Holds(Area(page), was, p, p0, tmp[len..]) && free <= old(free)
      {
        p, len := p - 1, len - 1;
        HoldsMore(Area(page), was, p + 1, p0, tmp[len + 1..], tmp[len]);
        assert [tmp[len]] + tmp[len + 1..] == tmp[len..];
        ok, offset, pag := PushByte(p, offset, pag, tmp[len]);
        if !ok {
          return;
        }
      }
    }

    /** Packs the strings, last first, below offset p. Zero means there was no room or no page,
        and stays zero from one call to the next. */
    method CopyStrings(argv: seq<seq<Byte>>, p0: nat) returns (p: nat)
      requires p0 <= AREA && AllNoNul(argv)
      requires p0 != 0 ==> |Packed(argv)| <= p0
      modifies this
      ensures p != 0 ==> p == p0 - |Packed(argv)|
      ensures p != 0 ==> Holds(Area(page), old(Area(page)), p, p0, Packed(argv))
      ensures p == 0 ==> p0 == 0 || |Packed(argv)| == p0 || free == 0
      ensures free <= old(free)
    {
      p := p0;
      if p == 0 {
        return;
      }
      ghost var was := Area(page);
      HoldsNothing(was, p0);
      var argc, offset, pag := |argv|, 0, 0;
      assert argv[argc..] == [];
      assert argv[0..] == argv;
      hide Area, Packed, Holds;
      while argc > 0
        invariant 0 <= argc <= |argv| && InHand(p, offset, pag)
        invariant p == p0 - |Packed(argv[argc..])|
        invariant Holds(Area(page), was, p, p0, Packed(argv[argc..])) && free <= old(free)
      {
        argc := argc - 1;
        SuffixStep(argv, argc);
        ghost var now, at := Area(page), p;
        var ok;
        ok, p, offset, pag := PushString(argv[argc] + [0], p, offset, pag);
        if !ok {
          return 0;
        }
        HoldsJoin(was, now, Area(page), p, at, p0, argv[argc] + [0], Packed(argv[argc + 1..]));
      }
    }
  }

  /** One more string at the front, and what is packed stays within the whole. */
  lemma SuffixStep(argv: seq<seq<Byte>>, k: nat)
    requires k < |argv|
    ensures Packed(argv[k..]) == argv[k] + [0] + Packed(argv[k + 1..])
    ensures |Packed(argv[k..])| <= |Packed(argv)|
  {
    assert argv[k..] == [argv[k]] + argv[k + 1..];
    PackedOne(argv[k], argv[k + 1..]);
    PackedSuffix(argv, k);
  }

  lemma PackedSuffix(argv: seq<seq<Byte>>, k: nat)
    requires k <= |argv|
    ensures |Packed(argv[k..])| <= |Packed(argv)|
  {
    PackedJoin(argv[..k], argv[k..]);
    assert argv[..k] + argv[k..] == argv;
  }

  // ---------------------------------------------------------------- the pointer tables

  /** A little-endian 32-bit word. */
  function Long(m: seq<Byte>, a: nat): nat
    requires a + 4 <= |m|
  {
    m[a] as int + 0x100 * (m[a + 1] as int) + 0x10000 * (m[a + 2] as int) + 0x1000000 * (m[a + 3] as int)
  }

  /** Its bytes, the lowest first. */
  lemma LongBytes(m: seq<Byte>, a: nat)
    requires a + 4 <= |m|
    ensures Long(m, a) % 0x100 == m[a] && Long(m, a) / 0x1000000 == m[a + 3]
    ensures Long(m, a) / 0x100 % 0x100 == m[a + 1] && Long(m, a) / 0x10000 % 0x100 == m[a + 2]
  {
    var hi: nat := m[a + 2] as int + 0x100 * (m[a + 3] as int);
    var rest: nat := m[a + 1] as int + 0x100 * hi;
    assert Long(m, a) == m[a] as int + 0x100 * rest;
    assert Long(m, a) / 0x100 == rest && Long(m, a) / 0x10000 == hi;
  }

  ghost predicate SameOutside(m: seq<Byte>, m': seq<Byte>, lo: nat, hi: nat) {
    |m| == |m'| && lo <= hi <= |m| && m'[..lo] == m[..lo] && m'[hi..] == m[hi..]
  }

  lemma LongOutside(m: seq<Byte>, m': seq<Byte>, lo: nat, hi: nat, a: nat)
    requires SameOutside(m, m', lo, hi) && a + 4 <= |m| && (a + 4 <= lo || hi <= a)
    ensures Long(m', a) == Long(m, a)
  {
    if a + 4 <= lo {
      assert m'[..lo][a..a + 4] == m[..lo][a..a + 4];
      assert forall k :: a <= k < a + 4 ==> m'[k] == m'[..lo][k] == m[..lo][k] == m[k];
    } else {
      assert forall k :: a <= k < a + 4 ==> m'[k] == m'[hi..][k - hi] == m[hi..][k - hi] == m[k];
    }
  }

  lemma OutsideMore(m: seq<Byte>, m': seq<Byte>, m'': seq<Byte>, lo: nat, hi: nat, lo': nat, hi': nat)
    requires SameOutside(m, m', lo, hi) && SameOutside(m', m'', lo', hi')
    requires lo <= lo' && hi' <= hi
    ensures SameOutside(m, m'', lo, hi)
  {
    assert m''[..lo] == m''[..lo'][..lo] == m'[..lo'][..lo] == m'[..lo];
    assert m''[hi..] == m''[hi'..][hi - hi'..] == m'[hi'..][hi - hi'..] == m'[hi..];
  }

  lemma Digits(v: nat)
    requires v < 0x1_0000_0000
    ensures v == v % 0x100 + 0x100 * (v / 0x100 % 0x100) + 0x10000 * (v / 0x10000 % 0x100) + 0x1000000 * (v / 0x1000000)
    ensures v / 0x1000000 < 0x100
  {
    Shift(v, 1);
    Shift(v, 0x100);
    Shift(v, 0x10000);
  }

  /** One byte further to the right. */
  lemma Shift(v: nat, unit: nat)
    requires unit in [1, 0x100, 0x10000]
    ensures v / unit == v / unit % 0x100 + 0x100 * (v / (0x100 * unit))
  {
    if unit == 0x100 {
      assert v / 0x100 / 0x100 == v / 0x10000;
    } else if unit == 0x10000 {
      assert v / 0x10000 / 0x100 == v / 0x1000000;
    }
  }

  method PutLong(mem: array<Byte>, v: nat, a: nat)
    requires v < 0x1_0000_0000 && a + 4 <= mem.Length
    modifies mem
    ensures Long(mem[..], a) == v && SameOutside(old(mem[..]), mem[..], a, a + 4)
  {
    Digits(v);
    mem[a] := v % 0x100;
    mem[a + 1] := v / 0x100 % 0x100;
    mem[a + 2] := v / 0x10000 % 0x100;
    mem[a + 3] := v / 0x1000000;
  }

  /** Where the i-th of the strings packed from `base` on begins. */
  function StringAddr(base: nat, strs: seq<seq<Byte>>, i: nat): nat
    requires i <= |strs|
  {
    base + |Packed(strs[..i])|
  }

  /** The strings are packed in memory from `base` on. */
  ghost predicate Lies(m: seq<Byte>, base: nat, strs: seq<seq<Byte>>) {
    base + |Packed(strs)| <= |m| && m[base..base + |Packed(strs)|] == Packed(strs)
  }

  lemma SliceOfSlice(m: seq<Byte>, a: nat, b: nat, i: nat, j: nat)
    requires a <= b <= |m| && i <= j <= b - a
    ensures m[a..b][i..j] == m[a + i..a + j]
  {
    var x, y := m[a..b][i..j], m[a + i..a + j];
    assert forall k :: 0 <= k < j - i ==> x[k] == m[a..b][i + k] == m[a + (i + k)] == y[k];
  }

  lemma Middle(front: seq<Byte>, s: seq<Byte>, back: seq<Byte>)
    ensures (front + (s + back))[|front|..|front| + |s|] == s
  {
  }

  /** An address in a pointer table is that of exactly the string it stands for. */
  lemma StringAt(m: seq<Byte>, base: nat, strs: seq<seq<Byte>>, i: nat)
    requires Lies(m, base, strs) && i < |strs|
    ensures
      var a := StringAddr(base, strs, i);
      && base <= a && a + |strs[i]| + 1 <= |m| && a + |strs[i]| + 1 == StringAddr(base, strs, i + 1)
      && m[a..a + |strs[i]| + 1] == strs[i] + [0]
  {
    hide Packed;
    var front, s, back := Packed(strs[..i]), strs[i] + [0], Packed(strs[i + 1..]);
    PackedAround(strs, i);
    Middle(front, s, back);
    SliceOfSlice(m, base, base + |Packed(strs)|, |front|, |front| + |s|);
  }

  lemma PackedAround(strs: seq<seq<Byte>>, i: nat)
    requires i < |strs|
    ensures Packed(strs) == Packed(strs[..i]) + ((strs[i] + [0]) + Packed(strs[i + 1..]))
    ensures Packed(strs[..i + 1]) == Packed(strs[..i]) + (strs[i] + [0])
  {
    PackedOne(strs[i], strs[i + 1..]);
    PackedOne(strs[i], []);
    hide Packed;
    PackedJoin(strs[..i], strs[i..]);
    assert strs == strs[..i] + strs[i..] && strs[i..] == [strs[i]] + strs[i + 1..];
    PackedJoin(strs[..i], [strs[i]]);
    assert strs[..i + 1] == strs[..i] + [strs[i]];
  }

  lemma LiesOutside(m: seq<Byte>, m': seq<Byte>, lo: nat, hi: nat, base: nat, strs: seq<seq<Byte>>)
    requires Lies(m, base, strs) && SameOutside(m, m', lo, hi) && hi <= base
    ensures Lies(m', base, strs)
  {
    var n := |Packed(strs)|;
    hide Packed;
    SliceOfSlice(m, hi, |m|, base - hi, base - hi + n);
    SliceOfSlice(m', hi, |m|, base - hi, base - hi + n);
  }

  /** Moves past a string and its NUL. */
  method SkipString(mem: array<Byte>, p: nat, ghost s: seq<Byte>) returns (q: nat)
    requires NoNul(s) && p + |s| + 1 <= mem.Length && mem[p..p + |s| + 1] == s + [0]
    ensures q == p + |s| + 1
  {
    ghost var t := mem[p..p + |s| + 1];
    q := p;
    assert mem[p] == t[0];
    while mem[q] != 0
      invariant p <= q <= p + |s| && mem[q] == t[q - p]
      decreases p + |s| - q
    {
      q := q + 1;
      assert mem[q] == t[q - p];
    }
    q := q + 1;
  }

  /** The pointers to the first n strings, and the null pointer behind them. */
  ghost predicate Table(m: seq<Byte>, at: nat, n: nat, base: nat, strs: seq<seq<Byte>>) {
    && n <= |strs| && at + 4 * (n + 1) <= |m|
    && (forall i :: 0 <= i < n ==> Long(m, at + 4 * i) == StringAddr(base, strs, i))
    && Long(m, at + 4 * n) == 0
  }

  ghost predicate Started(m: seq<Byte>, at: nat, n: nat, base: nat, strs: seq<seq<Byte>>) {
    && n <= |strs| && at + 4 * n <= |m|
    && forall i :: 0 <= i < n ==> Long(m, at + 4 * i) == StringAddr(base, strs, i)
  }

  lemma OneMore(m: seq<Byte>, m': seq<Byte>, at: nat, n: nat, base: nat, strs: seq<seq<Byte>>)
    requires Started(m, at, n, base, strs) && n < |strs| && at + 4 * n + 4 <= |m|
    requires SameOutside(m, m', at + 4 * n, at + 4 * n + 4)
    requires Long(m', at + 4 * n) == StringAddr(base, strs, n)
    ensures Started(m', at, n + 1, base, strs)
  {
    forall i | 0 <= i < n + 1 ensures Long(m', at + 4 * i) == StringAddr(base, strs, i) {
      if i < n {
        LongOutside(m, m', at + 4 * n, at + 4 * n + 4, at + 4 * i);
      }
    }
  }

  lemma NullBehind(m: seq<Byte>, m': seq<Byte>, at: nat, n: nat, base: nat, strs: seq<seq<Byte>>)
    requires Started(m, at, n, base, strs) && at + 4 * n + 4 <= |m|
    requires SameOutside(m, m', at + 4 * n, at + 4 * n + 4) && Long(m', at + 4 * n) == 0
    ensures Table(m', at, n, base, strs)
  {
    forall i | 0 <= i < n ensures Long(m', at + 4 * i) == StringAddr(base, strs, i) {
      LongOutside(m, m', at + 4 * n, at + 4 * n + 4, at + 4 * i);
    }
  }

  lemma NothingYet(m: seq<Byte>, at: nat, count: nat, base: nat, strs: seq<seq<Byte>>)
    requires at + 4 * (count + 1) <= base && Lies(m, base, strs)
    ensures base <= |m| && StringAddr(base, strs, 0) == base && Started(m, at, 0, base, strs)
    ensures SameOutside(m, m, at, at + 4 * (count + 1))
  {
  }

  /** Writes one pointer and moves past its string. */
  method FillOne(mem: array<Byte>, at: nat, i: nat, base: nat, p: nat, ghost strs: seq<seq<Byte>>)
      returns (q: nat)
    requires AllNoNul(strs) && i < |strs| && at + 4 * i + 4 <= base && mem.Length <= DATA_LIMIT
    requires Lies(mem[..], base, strs) && Started(mem[..], at, i, base, strs)
    requires p == StringAddr(base, strs, i)
    modifies mem
    ensures q == StringAddr(base, strs, i + 1)
    ensures Lies(mem[..], base, strs) && Started(mem[..], at, i + 1, base, strs)
    ensures SameOutside(old(mem[..]), mem[..], at + 4 * i, at + 4 * i + 4)
  {
    hide Started, SameOutside, Lies, Packed, StringAddr, Long;
    ghost var m := mem[..];
    StringAt(m, base, strs, i);
    PutLong(mem, p, at + 4 * i);
    OneMore(m, mem[..], at, i, base, strs);
    LiesOutside(m, mem[..], at + 4 * i, at + 4 * i + 4, base, strs);
    StringAt(mem[..], base, strs, i);
    q := SkipString(mem, p, strs[i]);
  }

  /** Writes one table, walking along the strings to find where each begins. */
  method FillTable(mem: array<Byte>, at: nat, count: nat, base: nat, ghost strs: seq<seq<Byte>>)
      returns (p: nat)
    requires AllNoNul(strs) && count <= |strs|
    requires at + 4 * (count + 1) <= base && mem.Length <= DATA_LIMIT && Lies(mem[..], base, strs)
    modifies mem
    ensures p == StringAddr(base, strs, count)
    ensures Table(mem[..], at, count, base, strs)
    ensures SameOutside(old(mem[..]), mem[..], at, at + 4 * (count + 1))
  {
    p := base;
    ghost var was := mem[..];
    var i := 0;
    NothingYet(was, at, count, base, strs);
    hide Started, Table, SameOutside, Lies, Packed, StringAddr, Long;
    while i < count
      invariant 0 <= i <= count && p == StringAddr(base, strs, i)
      invariant Started(mem[..], at, i, base, strs)
      invariant SameOutside(was, mem[..], at, at + 4 * (count + 1)) && Lies(mem[..], base, strs)
    {
      ghost var m := mem[..];
      p := FillOne(mem, at, i, base, p, strs);
      OutsideMore(was, m, mem[..], at, at + 4 * (count + 1), at + 4 * i, at + 4 * i + 4);
      i := i + 1;
    }
    ghost var m := mem[..];
    PutLong(mem, 0, at + 4 * i);
    NullBehind(m, mem[..], at, i, base, strs);
    OutsideMore(was, m, mem[..], at, at + 4 * (count + 1), at + 4 * i, at + 4 * i + 4);
  }

  /** What the new program finds on its stack: the count, the two tables' addresses, the tables.
      The first argc of the packed strings are arguments, the next envc the environment. */
  ghost predicate Stack(m: seq<Byte>, sp: nat, argc: nat, envc: nat, base: nat, strs: seq<seq<Byte>>) {
    var argv := sp + 12;
    var envp := argv + 4 * (argc + 1);
    && argc + envc <= |strs| && envp + 4 * (envc + 1) <= base && Lies(m, base, strs)
    && Long(m, sp) == argc && Long(m, sp + 4) == argv && Long(m, sp + 8) == envp
    && Table(m, argv, argc, base, strs)
    && Table(m, envp, envc, StringAddr(base, strs, argc), strs[argc..])
  }

  lemma {:induction false} EachTakesAByte(strs: seq<seq<Byte>>)
    ensures |strs| <= |Packed(strs)|
  {
    if strs != [] {
      EachTakesAByte(strs[1..]);
    }
  }

  lemma LiesTail(m: seq<Byte>, base: nat, strs: seq<seq<Byte>>, k: nat)
    requires Lies(m, base, strs) && k <= |strs|
    ensures Lies(m, StringAddr(base, strs, k), strs[k..]) && base <= StringAddr(base, strs, k)
  {
    PackedJoin(strs[..k], strs[k..]);
    assert strs[..k] + strs[k..] == strs;
    var front, back := Packed(strs[..k]), Packed(strs[k..]);
    hide Packed;
    SliceOfSlice(m, base, base + |front| + |back|, |front|, |front| + |back|);
    assert (front + back)[|front|..|front| + |back|] == back;
  }

  lemma TableOutside(m: seq<Byte>, m': seq<Byte>, lo: nat, hi: nat,
                     at: nat, n: nat, base: nat, strs: seq<seq<Byte>>)
    requires Table(m, at, n, base, strs) && SameOutside(m, m', lo, hi) && at + 4 * (n + 1) <= lo
    ensures Table(m', at, n, base, strs)
  {
    forall i | 0 <= i < n ensures Long(m', at + 4 * i) == StringAddr(base, strs, i) {
      LongOutside(m, m', lo, hi, at + 4 * i);
    }
    LongOutside(m, m', lo, hi, at + 4 * n);
  }

  /** The three words pushed below the tables. */
  method PutHeader(mem: array<Byte>, sp: nat, argc: nat, argv: nat, envp: nat)
    requires argc < DATA_LIMIT && argv < DATA_LIMIT && envp < DATA_LIMIT && sp + 12 <= mem.Length
    modifies mem
    ensures Long(mem[..], sp) == argc && Long(mem[..], sp + 4) == argv && Long(mem[..], sp + 8) == envp
    ensures SameOutside(old(mem[..]), mem[..], sp, sp + 12)
  {
    hide Long, SameOutside;
    ghost var m0 := mem[..];
    PutLong(mem, envp, sp + 8);
    ghost var m1 := mem[..];
    PutLong(mem, argv, sp + 4);
    ghost var m2 := mem[..];
    LongOutside(m1, m2, sp + 4, sp + 8, sp + 8);
    PutLong(mem, argc, sp);
    ghost var m3 := mem[..];
    LongOutside(m2, m3, sp, sp + 4, sp + 8);
    LongOutside(m2, m3, sp, sp + 4, sp + 4);
    NothingOutside(m0, sp, sp + 12);
    OutsideMore(m0, m0, m1, sp, sp + 12, sp + 8, sp + 12);
    OutsideMore(m0, m1, m2, sp, sp + 12, sp + 4, sp + 8);
    OutsideMore(m0, m2, m3, sp, sp + 12, sp, sp + 4);
  }

  lemma NothingOutside(m: seq<Byte>, lo: nat, hi: nat)
    requires lo <= hi <= |m|
    ensures SameOutside(m, m, lo, hi)
  {
  }

  lemma Assembled(m0: seq<Byte>, m1: seq<Byte>, m2: seq<Byte>, m3: seq<Byte>,
                  sp: nat, argv: nat, envp: nat, argc: nat, envc: nat, base: nat, strs: seq<seq<Byte>>)
    requires argv == sp + 12 && envp == argv + 4 * (argc + 1)
    requires argc + envc <= |strs| && envp + 4 * (envc + 1) <= base <= |m0|
    requires Lies(m0, base, strs)
    requires SameOutside(m0, m1, sp, sp + 12) && SameOutside(m1, m2, argv, argv + 4 * (argc + 1))
    requires SameOutside(m2, m3, envp, envp + 4 * (envc + 1))
    requires |m1| == |m0| && Long(m1, sp) == argc && Long(m1, sp + 4) == argv && Long(m1, sp + 8) == envp
    requires Table(m2, argv, argc, base, strs)
    requires Table(m3, envp, envc, StringAddr(base, strs, argc), strs[argc..])
    ensures Stack(m3, sp, argc, envc, base, strs) && SameOutside(m0, m3, sp, base)
  {
    assert |m3| == |m2| == |m1|;
    hide Long, SameOutside, Lies, Table, Packed, StringAddr;
    LongOutside(m1, m2, argv, envp, sp);
    LongOutside(m1, m2, argv, envp, sp + 4);
    LongOutside(m1, m2, argv, envp, sp + 8);
    LongOutside(m2, m3, envp, envp + 4 * (envc + 1), sp);
    LongOutside(m2, m3, envp, envp + 4 * (envc + 1), sp + 4);
    LongOutside(m2, m3, envp, envp + 4 * (envc + 1), sp + 8);
    TableOutside(m2, m3, envp, envp + 4 * (envc + 1), argv, argc, base, strs);
    NothingOutside(m0, sp, base);
    OutsideMore(m0, m0, m1, sp, base, sp, sp + 12);
    OutsideMore(m0, m1, m2, sp, base, argv, envp);
    OutsideMore(m0, m2, m3, sp, base, envp, envp + 4 * (envc + 1));
    LiesOutside(m0, m3, sp, base, base, strs);
  }

  lemma NoNulTail(strs: seq<seq<Byte>>, k: nat)
    requires AllNoNul(strs) && k <= |strs|
    ensures AllNoNul(strs[k..])
  {
  }

  method FillStack(mem: array<Byte>, sp: nat, argv: nat, envp: nat, p: nat, argc: nat, envc: nat,
                   ghost strs: seq<seq<Byte>>)
    requires AllNoNul(strs) && argc + envc <= |strs|
    requires mem.Length <= DATA_LIMIT && Lies(mem[..], p, strs) && p <= mem.Length
    requires argv == sp + 12 && envp == argv + 4 * (argc + 1) && envp + 4 * (envc + 1) <= p
    modifies mem
    ensures Stack(mem[..], sp, argc, envc, p, strs)
    ensures SameOutside(old(mem[..]), mem[..], sp, p)
  {
    ghost var m0 := mem[..];
    hide Table, Lies, Packed, StringAddr, Long, SameOutside, Stack, AllNoNul;
    PutHeader(mem, sp, argc, argv, envp);
    ghost var m1 := mem[..];
    LiesOutside(m0, m1, sp, sp + 12, p, strs);
    var q := FillTable(mem, argv, argc, p, strs);
    ghost var m2 := mem[..];
    LiesOutside(m1, m2, argv, argv + 4 * (argc + 1), p, strs);
    LiesTail(m2, p, strs, argc);
    NoNulTail(strs, argc);
    q := FillTable(mem, envp, envc, q, strs[argc..]);
    Assembled(m0, m1, m2, mem[..], sp, argv, envp, argc, envc, p, strs);
  }

  lemma LiesWithin(m: seq<Byte>, base: nat, strs: seq<seq<Byte>>)
    requires Lies(m, base, strs)
    ensures base <= |m|
  {
  }

  lemma Aligned(p: nat, k: nat)
    ensures (p - p % 4 - 4 * k) % 4 == 0
  {
    assert p - p % 4 == 4 * (p / 4);
    assert p - p % 4 - 4 * k == 4 * (p / 4 - k);
  }

  /** Builds the stack below the strings; nothing but the stack is written. */
  method CreateTables(mem: array<Byte>, p: nat, argc: nat, envc: nat, ghost strs: seq<seq<Byte>>)
      returns (sp: nat)
    requires AllNoNul(strs) && argc + envc <= |strs|
    requires mem.Length <= DATA_LIMIT && Lies(mem[..], p, strs)
    requires 4 * (argc + envc + 6) <= p
    modifies mem
    ensures sp % 4 == 0 && p - 4 * (argc + envc + 6) < sp <= p
    ensures Stack(mem[..], sp, argc, envc, p, strs)
    ensures SameOutside(old(mem[..]), mem[..], sp, p)
  {
    hide Table, Packed, StringAddr, Long, SameOutside, Stack, AllNoNul, Lies;
    LiesWithin(mem[..], p, strs);
    Aligned(p, argc + envc + 5);
    sp := p - p % 4;
    sp := sp - 4 * (envc + 1);
    var envp := sp;
    sp := sp - 4 * (argc + 1);
    var argv := sp;
    sp := sp - 12;
    FillStack(mem, sp, argv, envp, p, argc, envc, strs);
  }

  /** A NUL-terminated string at an address. */
  ghost predicate StringIs(m: seq<Byte>, a: nat, s: seq<Byte>) {
    a + |s| + 1 <= |m| && m[a..a + |s| + 1] == s + [0]
  }

  lemma TableMeans(m: seq<Byte>, at: nat, n: nat, base: nat, strs: seq<seq<Byte>>, i: nat)
    requires Table(m, at, n, base, strs) && Lies(m, base, strs) && i < n
    ensures at + 4 * i + 4 <= |m| && StringIs(m, Long(m, at + 4 * i), strs[i])
  {
    StringAt(m, base, strs, i);
  }

  /** What the program's main finds: argc, argv[i] and envp[i] are the caller's strings, each
      table ends with a null pointer, and no table lies over a string. */
  lemma ArgumentsArrive(m: seq<Byte>, sp: nat, base: nat, args: seq<seq<Byte>>, env: seq<seq<Byte>>)
    requires Stack(m, sp, |args|, |env|, base, args + env)
    ensures sp + 12 <= |m| && Long(m, sp) == |args|
    ensures
      var argv := Long(m, sp + 4);
      && argv + 4 * |args| + 4 <= base <= |m| && Long(m, argv + 4 * |args|) == 0
      && forall i :: 0 <= i < |args| ==> StringIs(m, Long(m, argv + 4 * i), args[i])
    ensures
      var envp := Long(m, sp + 8);
      && envp + 4 * |env| + 4 <= base && Long(m, envp + 4 * |env|) == 0
      && forall i :: 0 <= i < |env| ==> StringIs(m, Long(m, envp + 4 * i), env[i])
  {
    var strs := args + env;
    var argc := |args|;
    assert strs[argc..] == env;
    LiesWithin(m, base, strs);
    LiesTail(m, base, strs, argc);
    var argv, envp := Long(m, sp + 4), Long(m, sp + 8);
    hide Long, Lies, StringAddr, Packed, StringIs;
    forall i | 0 <= i < argc ensures StringIs(m, Long(m, argv + 4 * i), args[i]) {
      TableMeans(m, argv, argc, base, strs, i);
    }
    forall i | 0 <= i < |env| ensures StringIs(m, Long(m, envp + 4 * i), env[i]) {
      TableMeans(m, envp, |env|, StringAddr(base, strs, argc), env, i);
    }
  }

  // ---------------------------------------------------------------- scripts

  const NEWLINE: Byte := 10
  const SPACE: Byte := 32
  const TAB: Byte := 9
  const SLASH: Byte := 47

  predicate Blank(c: Byte) {
    c == SPACE || c == TAB
  }

  /** The interpreter's path, the name it is given, and the one argument, if any. */
  datatype Script = Script(interp: seq<Byte>, name: seq<Byte>, arg: Option<seq<Byte>>)

  /** What a script's first line says, after the first two characters. */
  ghost predicate Says(line: seq<Byte>, s: Script) {
    && s.interp != [] && (forall i :: 0 <= i < |s.interp| ==> !Blank(s.interp[i]))
    && (exists lead: nat :: Splits(line, lead, s))
    && SLASH !in s.name && |s.name| <= |s.interp| && s.interp[|s.interp| - |s.name|..] == s.name
    && (|s.name| < |s.interp| ==> s.interp[|s.interp| - |s.name| - 1] == SLASH)
  }

  ghost predicate Splits(line: seq<Byte>, lead: nat, s: Script) {
    var end := lead + |s.interp|;
    && end <= |line| && (forall i :: 0 <= i < lead ==> Blank(line[i]))
    && line[lead..end] == s.interp
    && (if s.arg.None? then end == |line| else end < |line| && Blank(line[end]) && line[end + 1..] == s.arg.value)
  }

  /** The first line ends at a newline that no NUL comes before. */
  ghost predicate FirstLine(text: seq<Byte>, n: int) {
    0 <= n < |text| && text[n] == NEWLINE && forall i :: 0 <= i < n ==> text[i] != NEWLINE && text[i] != 0
  }

  lemma SaysSo(line: seq<Byte>, lead: nat, name: nat, cp: nat, s: Script)
    requires lead <= name <= cp <= |line| && lead < cp
    requires forall i :: 0 <= i < lead ==> Blank(line[i])
    requires forall i :: lead <= i < cp ==> !Blank(line[i])
    requires (forall i :: name <= i < cp ==> line[i] != SLASH) && (name > lead ==> line[name - 1] == SLASH)
    requires cp < |line| ==> Blank(line[cp])
    requires s == Script(line[lead..cp], line[name..cp], if cp < |line| then Some(line[cp + 1..]) else None)
    ensures Says(line, s)
  {
    hide Blank;
    assert Splits(line, lead, s);
    assert line[lead..cp][name - lead..] == line[name..cp];
  }

  /** Takes a line apart; a blank line names no interpreter. */
  method SplitLine(line: seq<Byte>) returns (r: Option<Script>)
    ensures r.Some? ==> Says(line, r.value)
    ensures r.None? <==> forall i :: 0 <= i < |line| ==> Blank(line[i])
  {
    var lead := 0;
    while lead < |line| && Blank(line[lead])
      invariant 0 <= lead <= |line|
      invariant forall i :: 0 <= i < lead ==> Blank(line[i])
    {
      lead := lead + 1;
    }
    if lead == |line| {
      return None;
    }
    var cp, name := lead, lead;
    while cp < |line| && !Blank(line[cp])
      invariant lead <= name <= cp <= |line|
      invariant forall i :: lead <= i < cp ==> !Blank(line[i])
      invariant (forall i :: name <= i < cp ==> line[i] != SLASH) && (name > lead ==> line[name - 1] == SLASH)
    {
      if line[cp] == SLASH {
        name := cp + 1;
      }
      cp := cp + 1;
    }
    r := Some(Script(line[lead..cp], line[name..cp], if cp < |line| then Some(line[cp + 1..]) else None));
    SaysSo(line, lead, name, cp, r.value);
  }

  /** Reads the first line of a script; `text` is its block behind the first two characters. */
  method ReadScript(text: seq<Byte>) returns (r: Option<Script>)
    ensures r.Some? ==> exists n :: FirstLine(text, n) && Says(text[..n], r.value)
    ensures r.None? ==> forall n :: FirstLine(text, n) ==> forall i :: 0 <= i < n ==> Blank(text[i])
  {
    var n := 0;
    while n < |text| && text[n] != 0 && text[n] != NEWLINE
      invariant 0 <= n <= |text|
      invariant forall i :: 0 <= i < n ==> text[i] != NEWLINE && text[i] != 0
    {
      n := n + 1;
    }
    if n == |text| || text[n] == 0 {
      return None;
    }
    assert FirstLine(text, n);
    hide Says;
    r := SplitLine(text[..n]);
    if r.None? {
      forall m, i | FirstLine(text, m) && 0 <= i < m ensures Blank(text[i]) {
        assert text[i] == text[..n][i];
      }
    }
  }

  // ---------------------------------------------------------------- exec

  /** The last word of the area stays free. */
  const TOP := AREA - 4

  const ENOMEM := 12

  datatype Outcome = Running(sp: nat) | Failed(error: nat)

  /** The pages of the area are mapped at the end of the data segment; one that was never
      needed is a page of zeros once the program touches it. */
  method MapPages(page: Pages, mem: array<Byte>)
    requires mem.Length == DATA_LIMIT
    modifies mem
    ensures mem[DATA_LIMIT - AREA..] == Area(page)
    ensures mem[..DATA_LIMIT - AREA] == old(mem[..DATA_LIMIT - AREA])
  {
    forall i | 0 <= i < AREA {
      mem[DATA_LIMIT - AREA + i] := At(page, i);
    }
  }

  /** Maps the area and builds the stack: the common end of every exec. `p` is the offset of the
      first string in the area. */
  method Enter(page: Pages, p: nat, argc: nat, ghost strs: seq<seq<Byte>>, envc: nat, mem: array<Byte>)
      returns (sp: nat)
    requires mem.Length == DATA_LIMIT && AllNoNul(strs) && argc + envc <= |strs|
    requires p + |Packed(strs)| == TOP && Area(page)[p..TOP] == Packed(strs)
    modifies mem
    ensures Stack(mem[..], sp, argc, envc, DATA_LIMIT - 4 - |Packed(strs)|, strs)
  {
    hide Area, Packed, Stack;
    ghost var a := Area(page);
    MapPages(page, mem);
    var base := p + DATA_LIMIT - AREA;
    ghost var m := mem[..];
    SliceOfSlice(m, DATA_LIMIT - AREA, DATA_LIMIT, p, TOP);
    assert m[DATA_LIMIT - AREA..DATA_LIMIT] == a;
    EachTakesAByte(strs);
    sp := CreateTables(mem, base, argc, envc, strs);
  }

  /** So far the strings are packed from p up to the top of the area, or that failed: for want
      of a page, or because the area is full to the last byte. */
  ghost predicate Placed(page: Pages, free: nat, p: nat, strs: seq<seq<Byte>>) {
    if p == 0 then free == 0 || |Packed(strs)| == TOP
    else p + |Packed(strs)| == TOP && Area(page)[p..TOP] == Packed(strs)
  }

  lemma PackedBelow(a: seq<Byte>, a': seq<Byte>, p: nat, q: nat,
                    front: seq<seq<Byte>>, back: seq<seq<Byte>>)
    requires |a| == AREA && q + |Packed(back)| == TOP && a[q..TOP] == Packed(back)
    requires Holds(a', a, p, q, Packed(front))
    ensures a'[p..TOP] == Packed(front + back)
  {
    PackedJoin(front, back);
    hide Packed;
    assert a'[p..TOP] == a'[p..q] + a'[q..TOP];
    assert a'[q..TOP] == a'[q..][..TOP - q] == a[q..][..TOP - q] == a[q..TOP];
  }

  /** Packs some more strings below those already there. */
  method Place(area: ArgPages, strs: seq<seq<Byte>>, q: nat, ghost below: seq<seq<Byte>>) returns (p: nat)
    requires Placed(area.page, area.free, q, below) && q <= TOP
    requires AllNoNul(strs) && |Packed(strs + below)| <= TOP
    modifies area
    ensures Placed(area.page, area.free, p, strs + below) && p <= TOP
  {
    PackedJoin(strs, below);
    ghost var a := Area(area.page);
    hide Area, Packed, Holds;
    p := area.CopyStrings(strs, q);
    if p != 0 {
      PackedBelow(a, Area(area.page), p, q, strs, below);
    }
  }

  lemma AllNoNulJoin(a: seq<seq<Byte>>, b: seq<seq<Byte>>)
    ensures AllNoNul(a + b) <==> AllNoNul(a) && AllNoNul(b)
  {
    if AllNoNul(a + b) {
      forall i | 0 <= i < |a| ensures NoNul(a[i]) {
        assert (a + b)[i] == a[i];
      }
      forall i | 0 <= i < |b| ensures NoNul(b[i]) {
        assert (a + b)[|a| + i] == b[i];
      }
    }
  }

  /** exec of a program that is no script. */
  method Start(area: ArgPages, argv: seq<seq<Byte>>, envp: seq<seq<Byte>>, mem: array<Byte>)
      returns (r: Outcome)
    requires mem.Length == DATA_LIMIT && AllNoNul(argv + envp) && |Packed(argv + envp)| <= TOP
    modifies area, mem
    ensures r.Running? ==>
              Stack(mem[..], r.sp, |argv|, |envp|, DATA_LIMIT - 4 - |Packed(argv + envp)|, argv + envp)
    ensures r.Failed? ==> r.error == ENOMEM && (area.free == 0 || |Packed(argv + envp)| == TOP)
  {
    AllNoNulJoin(argv, envp);
    PackedJoin(argv, envp);
    hide Area, Packed, Stack, Holds;
    NonePlaced(area.page, area.free);
    assert envp + [] == envp;
    var p := Place(area, envp, TOP, []);
    p := Place(area, argv, p, envp);
    if p == 0 {
      return Failed(ENOMEM);
    }
    var sp := Enter(area.page, p, |argv|, argv + envp, |envp|, mem);
    return Running(sp);
  }

  lemma PlacedAll(page: Pages, free: nat, p: nat, strs: seq<seq<Byte>>)
    requires Placed(page, free, p, strs)
    ensures p == 0 ==> free == 0 || |Packed(strs)| == TOP
    ensures p != 0 ==> p + |Packed(strs)| == TOP && Area(page)[p..TOP] == Packed(strs)
  {
  }

  lemma NonePlaced(page: Pages, free: nat)
    ensures Placed(page, free, TOP, [])
  {
  }

  /** The argument list a script's interpreter is to get. */
  function ScriptArgv(s: Script, filename: seq<Byte>, argv: seq<seq<Byte>>): seq<seq<Byte>> {
    [s.name] + (if s.arg.Some? then [s.arg.value] else []) + [filename] + (if argv == [] then [] else argv[1..])
  }

  /** The count the interpreter is given. */
  function ScriptArgc(s: Script, argv: seq<seq<Byte>>): nat {
    |argv| + (if s.arg.Some? then 2 else 1)
  }

  /** The count is right exactly when the caller passed at least the program's own name. */
  lemma ScriptArgcIsRight(s: Script, filename: seq<Byte>, argv: seq<seq<Byte>>)
    ensures ScriptArgc(s, argv) == |ScriptArgv(s, filename, argv)| <==> argv != []
    ensures argv != [] ==>
      ScriptArgv(s, filename, argv) ==
      [s.name] + (if s.arg.Some? then [s.arg.value] else []) + [filename] + argv[1..]
  {
  }

  /** With an empty argument list the script's path falls out of argv and becomes the first
      string of the environment. */
  lemma EmptyArgvLosesTheScript(m: seq<Byte>, sp: nat, base: nat, s: Script, filename: seq<Byte>,
                                envp: seq<seq<Byte>>)
    requires envp != []
    requires Stack(m, sp, ScriptArgc(s, []), |envp|, base, ScriptArgv(s, filename, []) + envp)
    ensures sp + 12 <= |m| && Long(m, sp + 8) + 4 <= |m|
    ensures StringIs(m, Long(m, Long(m, sp + 8)), filename)
  {
    var strs := ScriptArgv(s, filename, []) + envp;
    var argc := ScriptArgc(s, []);
    LiesTail(m, base, strs, argc);
    LiesWithin(m, base, strs);
    assert strs[argc..][0] == filename;
    TableMeans(m, Long(m, sp + 8), |envp|, StringAddr(base, strs, argc), strs[argc..], 0);
  }

  /** The list in the order in which it is copied, last part first. */
  lemma ScriptPieces(s: Script, filename: seq<Byte>, argv: seq<seq<Byte>>, envp: seq<seq<Byte>>)
    ensures
      var strs := ScriptArgv(s, filename, argv) + envp;
      var rest := if argv == [] then [] else argv[1..];
      var arg := if s.arg.Some? then [s.arg.value] else [];
      var a := rest + envp;
      var b := [filename] + a;
      && strs == [s.name] + (arg + b)
      && envp + [] == envp && [] + b == b
      && (AllNoNul(strs) ==>
            AllNoNul([s.name]) && AllNoNul(arg) && AllNoNul([filename]) && AllNoNul(rest) && AllNoNul(envp))
      && |Packed(envp)| <= |Packed(a)| <= |Packed(b)| <= |Packed(arg + b)| <= |Packed(strs)|
      && ScriptArgc(s, argv) == |argv| + 1 + |arg| && |envp| + ScriptArgc(s, argv) <= |strs|
  {
    hide AllNoNul, Packed;
    var rest := if argv == [] then [] else argv[1..];
    var arg := if s.arg.Some? then [s.arg.value] else [];
    var a := rest + envp;
    var b := [filename] + a;
    var c := arg + b;
    assert [s.name] + arg + [filename] + rest + envp == [s.name] + c;
    AllNoNulJoin([s.name], c);
    AllNoNulJoin(arg, b);
    AllNoNulJoin([filename], a);
    AllNoNulJoin(rest, envp);
    PackedJoin([s.name], c);
    PackedJoin(arg, b);
    PackedJoin([filename], a);
    PackedJoin(rest, envp);
  }

  /** exec of a script, once its first line is read and its interpreter is found. */
  method StartScript(area: ArgPages, s: Script, filename: seq<Byte>, argv: seq<seq<Byte>>,
                     envp: seq<seq<Byte>>, mem: array<Byte>)
      returns (r: Outcome)
    requires mem.Length == DATA_LIMIT
    requires var strs := ScriptArgv(s, filename, argv) + envp; AllNoNul(strs) && |Packed(strs)| <= TOP
    modifies area, mem
    ensures
      var strs := ScriptArgv(s, filename, argv) + envp;
      && (r.Running? ==>
            Stack(mem[..], r.sp, ScriptArgc(s, argv), |envp|, DATA_LIMIT - 4 - |Packed(strs)|, strs))
      && (r.Failed? ==> r.error == ENOMEM && (area.free == 0 || |Packed(strs)| == TOP))
  {
    hide Area, Packed, Stack, AllNoNul, Placed, ScriptArgv, ScriptArgc;
    ghost var strs := ScriptArgv(s, filename, argv) + envp;
    var rest := if argv == [] then [] else argv[1..];
    ScriptPieces(s, filename, argv, envp);
    ghost var a := rest + envp;
    ghost var b := [filename] + a;
    ghost var c := (if s.arg.Some? then [s.arg.value] else []) + b;
    NonePlaced(area.page, area.free);
    var argc: int := |argv|;
    argc := argc - 1;
    var p := Place(area, envp, TOP, []);
    p := Place(area, rest, p, envp);
    p := Place(area, [filename], p, a);
    argc := argc + 1;
    if s.arg.Some? {
      p := Place(area, [s.arg.value], p, b);
      argc := argc + 1;
    }
    p := Place(area, [s.name], p, c);
    argc := argc + 1;
    PlacedAll(area.page, area.free, p, strs);
    if p == 0 {
      return Failed(ENOMEM);
    }
    var sp := Enter(area.page, p, argc, strs, |envp|, mem);
    return Running(sp);
  }
}
