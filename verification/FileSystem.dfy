/** fs/inode.c, fs/bitmap.c, fs/truncate.c and fs/file_dev.c over the disk blocks of one mounted device. */
module FileSystem {
  import opened Blocks
  import opened FileTree
  import opened FileAlloc
  import opened FileCuts

  class Volume {
    const first: nat          // s_firstdatazone
    const maps: nat           // bitmap blocks loaded, of at most eight
    const tree: seq<bool>     // inodes whose zones are block numbers
    const zone: array<seq<nat>>
    const size: array<nat>
    const block: array<Block>
    const zmap: array<bool>
    var warnings: nat         // "bit already cleared" messages

    ghost function Abs(): Fs
      reads zone, size, block, zmap
    {
      Fs(first, tree, zone[..], size[..], block[..], zmap[..])
    }

    ghost predicate Valid()
      reads zone, size, block, zmap
    {
      Inv(Abs()) && maps <= 8 && zmap.Length == 8192 * maps
    }

    /** read_super on a device whose files are all empty: bit 0 of the block bitmap is set by hand. */
    constructor Mount(first: nat, tree: seq<bool>, disk: array<Block>, bits: array<bool>)
      requires 1 <= first <= disk.Length < 0x1_0000 && disk.Length - first < bits.Length
      requires bits.Length % 8192 == 0 && bits.Length <= 8 * 8192
      requires forall j :: 0 < j < bits.Length ==> !bits[j]
      modifies bits
      ensures Valid() && fresh(zone) && fresh(size) && block == disk && zmap == bits && warnings == 0
      ensures Abs() == Fs(first, tree, zone[..], size[..], old(disk[..]), old(bits[..])[0 := true])
      ensures zone.Length == |tree| && forall i, k :: 0 <= i < |tree| && 0 <= k < 9 ==> zone[i][k] == size[i] == 0
    {
      this.first, this.tree, maps := first, tree, bits.Length / 8192;
      zone := new seq<nat>[|tree|](i => seq(9, k => 0));
      size := new nat[|tree|](i => 0);
      block, zmap, warnings := disk, bits, 0;
      new;
      hide Inv;
      zmap[0] := true;
      assert zmap[..] == old(bits[..])[0 := true];
      BlankInv(Abs());
    }

    // ---------- bitmap.c ----------

    /** find_first_zero on bitmap block i: 8192 when all its bits are set. */
    method FindFirstZero(i: nat) returns (j: nat)
      requires i < maps && zmap.Length == 8192 * maps
      ensures j <= 8192 && forall k :: 8192 * i <= k < 8192 * i + j ==> zmap[k]
      ensures j < 8192 ==> !zmap[8192 * i + j]
    {
      j := 0;
      while j < 8192 && zmap[8192 * i + j]
        invariant j <= 8192 && forall k :: 8192 * i <= k < 8192 * i + j ==> zmap[k]
      {
        j := j + 1;
      }
    }

    /** The search of new_block through the bitmap blocks: block i and bit j, or i = 8 when all bits are set. */
    method FindBit() returns (i: nat, j: nat)
      requires maps <= 8 && zmap.Length == 8192 * maps
      ensures i < 8 ==> i < maps && j < 8192 && Lowest(zmap[..]) == 8192 * i + j < |zmap[..]|
      ensures i >= 8 ==> Lowest(zmap[..]) == |zmap[..]|
    {
      i, j := 0, 8192;
      while i < 8
        invariant i <= 8 && forall k :: 0 <= k < 8192 * i && k < zmap.Length ==> zmap[k]
      {
        if i < maps {
          j := FindFirstZero(i);
          if j < 8192 {
            LowestIs(zmap[..], 8192 * i + j);
            return;
          }
        }
        i := i + 1;
      }
      LowestIs(zmap[..], zmap.Length);
    }

    method NewBlock() returns (n: nat)
      requires Shapes(Abs()) && maps <= 8 && zmap.Length == 8192 * maps
      modifies block, zmap
      ensures Abs() == Allocate(old(Abs())).0 && n == Allocate(old(Abs())).1
      ensures n != 0 ==> first <= n < block.Length && !old(zmap[n - first + 1]) &&
                         zmap[..] == old(zmap[..])[n - first + 1 := true] && block[..] == old(block[..])[n := Zeros()]
    {
      hide Lowest;
      BelowLowest(zmap[..]);
      var i, j := FindBit();
      if i >= 8 {
        return 0;
      }
      var bit := 8192 * i + j;
      assert bit != 0;
      zmap[bit] := true;
      assert zmap[..] == old(zmap[..])[bit := true];
      n := bit + first - 1;
      if n >= block.Length {
        return 0;
      }
      block[n] := Zeros();
      assert block[..] == old(block[..])[n := Zeros()];
    }

    /** free_block; busy are the blocks whose buffer someone else holds, stale what the disk has for a forgotten
        buffer. */
    method FreeBlock(b: nat, busy: set<nat>, stale: nat -> Block) returns (ok: bool)
      requires Shapes(Abs()) && InData(Abs(), b)
      modifies block, zmap, `warnings
      ensures ok <==> b !in busy
      ensures Abs() == if ok then Drop(old(Abs()), b, stale(b)) else old(Abs())
      ensures warnings == old(warnings) + (if ok && !old(Used(Abs(), b)) then 1 else 0)
      ensures zmap[..] == if ok then old(zmap[..])[b - first + 1 := false] else old(zmap[..])
      ensures forall c :: 0 <= c < block.Length && c != b ==> block[c] == old(block[c])
    {
      if b in busy {
        return false;
      }
      block[b] := stale(b);
      if !zmap[b - first + 1] {
        warnings := warnings + 1;
      }
      zmap[b - first + 1] := false;
      ok := true;
    }

    // ---------- inode.c ----------

    /** if (create && !inode->i_zone[k]) inode->i_zone[k] = new_block(): result the zone. */
    method NeedZone(i: nat, k: nat, create: bool) returns (n: nat)
      requires Valid() && IsSlot(Abs(), Zone(i, k))
      modifies zone, block, zmap
      ensures Valid() && Abs() == (if create then Fill(old(Abs()), Zone(i, k)) else old(Abs()))
      ensures n == Ptr(Abs(), Zone(i, k))
    {
      if create {
        FillKeeps(Abs(), Zone(i, k));
      }
      if create && zone[i][k] == 0 {
        n := NewBlock();
        ghost var z: seq<nat> := zone[i];
        assert z[k := 0] == z;
        zone[i] := zone[i][k := n];
        assert zone[..] == old(zone[..])[i := zone[i]];
      }
      n := zone[i][k];
    }

    /** The same for the k-th short of block p, whose place in the tree is s. */
    method NeedEntry(p: nat, k: nat, create: bool, ghost s: Slot) returns (n: nat)
      requires Valid() && !s.Zone? && IsSlot(Abs(), s) && k == Index(s)
      requires p == Ptr(Abs(), Parent(s)) && InData(Abs(), p)
      modifies block, zmap
      ensures Valid() && Abs() == (if create then Fill(old(Abs()), s) else old(Abs()))
      ensures n == Ptr(Abs(), s)
    {
      hide Unique, Ranged, Marked, Ptr, Allocate;
      PtrOf(Abs(), s);
      if create {
        FillKeeps(Abs(), s);
      }
      n := Short(block[p], k);
      if create && n == 0 {
        n := NewBlock();
        if n != 0 {
          block[p] := PutShort(block[p], k, n);
        }
      }
    }

    /** _bmap: the disk block of block n of file i, 0 for a hole, after making it if asked to. */
    method Bmap(i: nat, n: nat, create: bool) returns (nr: nat)
      requires Valid() && i < |tree| && tree[i] && n < NR_FILE_BLOCKS
      modifies zone, block, zmap
      ensures IsSlot(old(Abs()), DataSlot(i, n))
      ensures Valid() && Abs() == (if create then Create(old(Abs()), DataSlot(i, n)) else old(Abs()))
      ensures nr == Ptr(Abs(), DataSlot(i, n))
    {
      hide Unique, Ranged, Marked, Fill, Ptr;
      DataSlotValid(Abs(), i, n);
      var s := DataSlot(i, n);
      if n < 7 {
        nr := NeedZone(i, n, create);
        return;
      }
      if n < 519 {
        var p := NeedZone(i, 7, create);
        PtrOf(Abs(), s);
        if p == 0 {
          return 0;
        }
        RangedAt(Abs(), Zone(i, 7));
        nr := NeedEntry(p, n - 7, create, s);
        return;
      }
      if create {
        CreateBelow(Abs(), Parent(s));
        CreateBelow(Abs(), s);
      }
      var p := NeedZone(i, 8, create);
      PtrOf(Abs(), Parent(s));
      PtrOf(Abs(), s);
      if p == 0 {
        return 0;
      }
      RangedAt(Abs(), Zone(i, 8));
      var q := NeedEntry(p, (n - 519) / 512, create, Parent(s));
      PtrOf(Abs(), s);
      if q == 0 {
        return 0;
      }
      RangedAt(Abs(), Parent(s));
      nr := NeedEntry(q, (n - 519) % 512, create, s);
    }

    // ---------- truncate.c ----------

    /** *p = 0 after the block of slot u has been freed. */
    method ClearEntry(p: nat, k: nat, stale: nat -> Block, ghost m: Fs, ghost u: Slot)
      requires Inv(m) && !u.Zone? && k == Index(u) && Place(m, u, p) && Ptr(m, u) != 0 && NoChild(m, u)
      requires InData(m, Ptr(m, u)) && Abs() == Drop(m, Ptr(m, u), stale(Ptr(m, u)))
      modifies block
      ensures After(m, Abs(), iset{u})
    {
      hide Ptr, Unique, Ranged, Marked, After;
      AfterPrune(m, u, p, stale(Ptr(m, u)));
      block[p] := PutShort(block[p], k, 0);
      assert Abs() == SetPtr(Drop(m, Ptr(m, u), stale(Ptr(m, u))), u, p, 0);
    }

    /** One turn of the loop of free_ind: the i-th short of block p, whose place is s. */
    method FreeEntry(p: nat, i: nat, busy: set<nat>, stale: nat -> Block, blockBusy: bool, ghost f: Fs, ghost s: Slot)
      returns (stillBusy: bool)
      requires Valid() && i < 512 && IsSlot(f, s) && (s.Dind? || s == Zone(s.i, 7)) && Shapes(f) &&
          p == Ptr(f, s) && p != 0
      requires After(f, Abs(), Cut(f, s, i, busy))
      modifies block, zmap, `warnings
      ensures Valid() && After(f, Abs(), Cut(f, s, i + 1, busy)) && warnings == old(warnings)
      ensures stillBusy <==> blockBusy || (Ptr(f, Child(s, i)) != 0 && !Gone(f, Child(s, i), busy))
    {
      hide Ptr, Unique, Ranged, Marked, Gone;
      ghost var u, g := Child(s, i), Abs();
      NotYet(f, g, s, i, busy);
      CutStep(f, s, i, busy);
      DataGone(f, u, busy);
      PtrOf(g, u);
      RangedAt(g, s);
      stillBusy := blockBusy;
      var v := Short(block[p], i);
      if v != 0 {
        RangedAt(g, u);
        EmptyData(g, u);
        if v !in busy {
          AfterPrune(g, u, p, stale(v));
        }
        var ok := FreeBlock(v, busy, stale);
        if ok {
          ClearEntry(p, i, stale, g, u);
          AfterTrans(f, g, Abs(), Cut(f, s, i, busy), iset{u}, Cut(f, s, i + 1, busy));
        } else {
          stillBusy := true;
        }
      }
    }

    /** free_ind on the block in slot s; m is the tree just before the block itself is freed. */
    method FreeInd(p: nat, busy: set<nat>, stale: nat -> Block, ghost s: Slot) returns (ok: bool, ghost m: Fs)
      requires Valid() && IsSlot(Abs(), s) && (s.Dind? || s == Zone(s.i, 7)) && p == Ptr(Abs(), s)
      modifies block, zmap, `warnings
      ensures After(old(Abs()), m, Cut(old(Abs()), s, 512, busy)) && warnings == old(warnings)
      ensures ok <==> p == 0 || Gone(old(Abs()), s, busy)
      ensures p != 0 ==> InData(m, p) && Abs() == if ok then Drop(m, p, stale(p)) else m
      ensures p == 0 ==> Abs() == m == old(Abs())
    {
      hide Ptr, Unique, Ranged, Marked, Gone;
      ghost var f := Abs();
      if p == 0 {
        NothingBelow(f, s, busy);
        return true, f;
      }
      RangedAt(f, s);
      var blockBusy := false;
      CutNone(f, s, busy);
      var i := 0;
      while i < 512
        invariant 0 <= i <= 512 && Valid() && warnings == old(warnings)
        invariant After(f, Abs(), Cut(f, s, i, busy))
        invariant blockBusy <==> exists n: nat :: n < i && Ptr(f, Child(s, n)) != 0 && !Gone(f, Child(s, n), busy)
      {
        blockBusy := FreeEntry(p, i, busy, stale, blockBusy, f, s);
        i := i + 1;
      }
      m := Abs();
      GoneIff(f, s, busy);
      if blockBusy {
        return false, m;
      }
      StillThere(f, m, s, 512, busy);
      if p !in busy {
        NoChildLeft(f, m, s, busy);
        TreeBlockUsed(m, s);
      }
      ok := FreeBlock(p, busy, stale);
    }

    /** One turn of the loop of free_dind on the double-indirect block p of inode ino. */
    method FreeSubtree(p: nat, i: nat, busy: set<nat>, stale: nat -> Block, blockBusy: bool, ghost f: Fs,
        ghost ino: nat)
      returns (stillBusy: bool)
      requires Valid() && i < 512 && Shapes(f) && IsSlot(f, Zone(ino, 8)) && p == Ptr(f, Zone(ino, 8)) && p != 0
      requires After(f, Abs(), Cut(f, Zone(ino, 8), i, busy))
      modifies block, zmap, `warnings
      ensures Valid() && After(f, Abs(), Cut(f, Zone(ino, 8), i + 1, busy)) && warnings == old(warnings)
      ensures var u := Child(Zone(ino, 8), i);
              stillBusy <==> blockBusy || (Ptr(f, u) != 0 && !Gone(f, u, busy))
    {
      hide Ptr, Unique, Ranged, Marked, Gone, Cut;
      ghost var s, u, g := Zone(ino, 8), Dind(ino, i), Abs();
      NotYet(f, g, s, i, busy);
      CutStep(f, s, i, busy);
      NothingBelowEmpty(g, u, busy);
      PtrOf(g, u);
      RangedAt(g, s);
      stillBusy := blockBusy;
      var v := Short(block[p], i);
      if v != 0 {
        RangedAt(g, u);
        var ok;
        ghost var m;
        ok, m := FreeInd(v, busy, stale, u);
        StillThere(g, m, u, 512, busy);
        StillThereAbove(g, m, s, i, busy);
        if ok {
          NoChildLeft(g, m, u, busy);
          ClearEntry(p, i, stale, m, u);
          AfterTrans(g, m, Abs(), Cut(g, u, 512, busy), iset{u}, CutOf(g, u, busy));
        } else {
          stillBusy := true;
        }
        AfterTrans(f, g, Abs(), Cut(f, s, i, busy), CutOf(f, u, busy), Cut(f, s, i + 1, busy));
      }
    }

    /** free_dind, like free_ind one level up. */
    method FreeDind(p: nat, busy: set<nat>, stale: nat -> Block, ghost ino: nat) returns (ok: bool, ghost m: Fs)
      requires Valid() && IsSlot(Abs(), Zone(ino, 8)) && p == Ptr(Abs(), Zone(ino, 8))
      modifies block, zmap, `warnings
      ensures After(old(Abs()), m, Cut(old(Abs()), Zone(ino, 8), 512, busy)) && warnings == old(warnings)
      ensures ok <==> p == 0 || Gone(old(Abs()), Zone(ino, 8), busy)
      ensures p != 0 ==> InData(m, p) && Abs() == if ok then Drop(m, p, stale(p)) else m
      ensures p == 0 ==> Abs() == m == old(Abs())
    {
      hide Ptr, Unique, Ranged, Marked, Gone;
      ghost var f, s := Abs(), Zone(ino, 8);
      if p == 0 {
        NothingBelow(f, s, busy);
        return true, f;
      }
      RangedAt(f, s);
      var blockBusy := false;
      CutNone(f, s, busy);
      var i := 0;
      while i < 512
        invariant 0 <= i <= 512 && Valid() && warnings == old(warnings)
        invariant After(f, Abs(), Cut(f, s, i, busy))
        invariant blockBusy <==> exists n: nat :: n < i && Ptr(f, Child(s, n)) != 0 && !Gone(f, Child(s, n), busy)
      {
        blockBusy := FreeSubtree(p, i, busy, stale, blockBusy, f, ino);
        i := i + 1;
      }
      m := Abs();
      GoneIff(f, s, busy);
      if blockBusy {
        return false, m;
      }
      StillThere(f, m, s, 512, busy);
      if p !in busy {
        NoChildLeft(f, m, s, busy);
        TreeBlockUsed(m, s);
      }
      ok := FreeBlock(p, busy, stale);
    }

    /** inode->i_zone[k] = 0 after its block has been freed. */
    method ClearZone(i: nat, k: nat, stale: nat -> Block, ghost m: Fs)
      requires Inv(m) && IsSlot(m, Zone(i, k)) && Ptr(m, Zone(i, k)) != 0 && NoChild(m, Zone(i, k))
      requires InData(m, Ptr(m, Zone(i, k)))
      requires Abs() == Drop(m, Ptr(m, Zone(i, k)), stale(Ptr(m, Zone(i, k))))
      modifies zone
      ensures After(m, Abs(), iset{Zone(i, k)})
    {
      hide Ptr, Unique, Ranged, Marked, After;
      ghost var u := Zone(i, k);
      AfterPrune(m, u, 0, stale(Ptr(m, u)));
      zone[i] := zone[i][k := 0];
      assert Abs() == SetPtr(Drop(m, Ptr(m, u), stale(Ptr(m, u))), u, 0, 0);
    }

    /** What truncate does with zone k, a data block, the indirect block or the double-indirect one. */
    method FreeZone(i: nat, k: nat, busy: set<nat>, stale: nat -> Block, blockBusy: bool,
        ghost f: Fs) returns (stillBusy: bool)
      requires Valid() && k < 9 && Shapes(f) && IsSlot(f, Zone(i, k)) && After(f, Abs(), ZoneCut(f, i, k, busy))
      modifies zone, block, zmap, `warnings
      ensures Valid() && After(f, Abs(), ZoneCut(f, i, k + 1, busy)) && warnings == old(warnings)
      ensures stillBusy <==> blockBusy || (Ptr(f, Zone(i, k)) != 0 && !Gone(f, Zone(i, k), busy))
    {
      hide Ptr, Unique, Ranged, Marked, Gone, Cut, ZoneCut, After;
      ghost var g, z := Abs(), Zone(i, k);
      AfterFrame(f, g, ZoneCut(f, i, k, busy));
      ZonePtr(g, z);
      ZoneNotYet(f, g, i, k, busy);
      ZoneCutStep(f, i, k, busy);
      NothingBelowEmpty(g, z, busy);
      var p := zone[i][k];
      var ok;
      ghost var m;
      if k < 7 {
        ok, m := FreeDirect(p, busy, stale, z);
      } else if k == 7 {
        ok, m := FreeInd(p, busy, stale, z);
      } else {
        ok, m := FreeDind(p, busy, stale, i);
      }
      AfterFrame(g, m, Cut(g, z, 512, busy));
      ZoneStill(g, m, z, busy);
      if ok && p != 0 {
        ClearZone(i, k, stale, m);
        AfterTrans(g, m, Abs(), Cut(g, z, 512, busy), iset{z}, CutOf(g, z, busy));
      }
      if p == 0 {
        ghost var zs: seq<nat> := zone[i];
        assert zs[k := 0] == zs;
      }
      AfterTrans(f, g, Abs(), ZoneCut(f, i, k, busy), CutOf(f, z, busy), ZoneCut(f, i, k + 1, busy));
      AfterFrame(f, Abs(), ZoneCut(f, i, k + 1, busy));
      stillBusy := blockBusy || !ok;
    }

    /** The direct zones need no block of their own to be freed first. */
    method FreeDirect(p: nat, busy: set<nat>, stale: nat -> Block, ghost z: Slot) returns (ok: bool, ghost m: Fs)
      requires Valid() && IsSlot(Abs(), z) && IsData(z) && p == Ptr(Abs(), z)
      modifies block, zmap, `warnings
      ensures After(old(Abs()), m, Cut(old(Abs()), z, 512, busy)) && warnings == old(warnings)
      ensures ok <==> p == 0 || Gone(old(Abs()), z, busy)
      ensures p != 0 ==> InData(m, p) && Abs() == if ok then Drop(m, p, stale(p)) else m
      ensures p == 0 ==> Abs() == m == old(Abs())
    {
      hide Ptr, Unique, Ranged, Marked, Gone;
      m := Abs();
      DataGone(m, z, busy);
      AfterNothing(m, iset{});
      if p == 0 {
        return true, m;
      }
      RangedAt(m, z);
      TreeBlockUsed(m, z);
      ok := FreeBlock(p, busy, stale);
    }

    /** One pass of truncate, from the label repeat to the test of block_busy. */
    method TruncatePass(i: nat, busy: set<nat>, stale: nat -> Block) returns (again: bool)
      requires Valid() && i < |tree| && tree[i]
      modifies zone, block, zmap, `warnings
      ensures Valid() && After(old(Abs()), Abs(), ZoneCut(old(Abs()), i, 9, busy)) && warnings == old(warnings)
      ensures again <==> HoldsBusy(old(Abs()), i, busy)
    {
      hide Ptr, Unique, Ranged, Marked, Gone, After;
      ghost var f := Abs();
      AfterNothing(f, ZoneCut(f, i, 0, busy));
      again := false;
      var k := 0;
      while k < 9
        invariant 0 <= k <= 9 && Valid() && warnings == old(warnings)
        invariant After(f, Abs(), ZoneCut(f, i, k, busy))
        invariant again <==> ZoneLeft(f, i, k, busy)
      {
        again := FreeZone(i, k, busy, stale, again, f);
        k := k + 1;
      }
      ZoneLeftIff(f, i, busy);
    }

    /**
      * truncate: passes are the busy blocks each time round; it is done in the first pass that meets none,
      * and never frees a block twice.
      */
    method Truncate(i: nat, passes: seq<set<nat>>, stale: nat -> Block) returns (done: bool)
      requires Valid() && i < |tree|
      modifies zone, size, block, zmap, `warnings
      ensures Valid() && warnings == old(warnings)
      ensures !tree[i] ==> !done && Abs() == old(Abs())
      ensures tree[i] ==> Trimmed(old(Abs()), Abs(), i)
      ensures tree[i] && (exists k :: 0 <= k < |passes| && !HoldsBusy(old(Abs()), i, passes[k])) ==> done
      ensures done ==> Emptied(Abs(), i) && Abs().size == old(Abs()).size[i := 0]
      ensures done ==> forall k :: 0 <= k < 9 ==> zone[i][k] == 0
      ensures !done ==> Abs().size == old(Abs()).size
    {
      hide Ptr, Unique, Ranged, Marked, Gone, HoldsBusy, Emptied, After, Trimmed, ZoneCut;
      ghost var f := Abs();
      if !tree[i] {
        return false;
      }
      TrimNothing(f, i);
      var n := 0;
      while n < |passes|
        invariant 0 <= n <= |passes| && Valid() && Trimmed(f, Abs(), i) && warnings == old(warnings)
        invariant Abs().size == f.size
        invariant forall k :: 0 <= k < n ==> HoldsBusy(f, i, passes[k])
      {
        ghost var g := Abs();
        var again := TruncatePass(i, passes[n], stale);
        TrimMore(f, g, Abs(), i, passes[n]);
        AfterFrame(g, Abs(), ZoneCut(g, i, 9, passes[n]));
        if !again {
          ghost var h := Abs();
          size[i] := 0;
          SizeOnly(f, h, Abs(), i);
          EmptyZones(Abs(), i);
          return true;
        }
        n := n + 1;
      }
      done := false;
    }
  }

  lemma EmptyZones(f: Fs, i: nat)
    requires Shapes(f) && Emptied(f, i) && i < |f.tree| && f.tree[i]
    ensures forall k :: 0 <= k < 9 ==> f.zone[i][k] == 0
  {
    forall k: nat | k < 9 ensures f.zone[i][k] == 0 {
      assert Ptr(f, Zone(i, k)) == 0;
    }
  }

  lemma EmptyData(f: Fs, u: Slot)
    requires Shapes(f) && IsData(u)
    ensures NoChild(f, u)
  {
  }

  lemma StillThere(f: Fs, g: Fs, s: Slot, n: nat, busy: set<nat>)
    requires IsPointer(s) && Shapes(f) && After(f, g, Cut(f, s, n, busy))
    ensures Ptr(g, s) == Ptr(f, s)
  {
    hide Ptr, Unique, Ranged, Marked;
    NotWithin(s, s, n);
  }

  lemma StillThereAbove(g: Fs, m: Fs, s: Slot, n: nat, busy: set<nat>)
    requires IsPointer(s) && Height(s) == 2 && Shapes(g) && After(g, m, Cut(g, Child(s, n), 512, busy))
    ensures Ptr(m, s) == Ptr(g, s)
  {
    hide Ptr, Unique, Ranged, Marked;
  }

  lemma NothingBelowEmpty(f: Fs, s: Slot, busy: set<nat>)
    requires Inv(f)
    ensures Ptr(f, s) == 0 ==> Cut(f, s, 512, busy) == iset{} && CutOf(f, s, busy) == iset{}
    ensures !Gone(f, s, busy) ==> CutOf(f, s, busy) == Cut(f, s, 512, busy)
  {
    hide Ptr, Unique, Ranged, Marked;
    if Ptr(f, s) == 0 {
      forall t | Within(t, s, 512) ensures Ptr(f, t) == 0 {
        PtrOf(f, t);
        if !Parent(t).Zone? {
          PtrOf(f, Parent(t));
        }
      }
    }
  }

  lemma AfterFrame(f: Fs, g: Fs, c: iset<Slot>)
    requires After(f, g, c)
    ensures Inv(f) && Inv(g) && SameFrame(f, g)
  {
  }

  lemma ZoneStill(g: Fs, m: Fs, z: Slot, busy: set<nat>)
    requires Shapes(g) && z.Zone? && After(g, m, Cut(g, z, 512, busy))
    ensures Ptr(m, z) == Ptr(g, z) && (Gone(g, z, busy) ==> NoChild(m, z))
  {
    hide Ptr, Unique, Ranged, Marked;
    if Gone(g, z, busy) {
      forall u: Slot | !u.Zone? && Parent(u) == z ensures Ptr(m, u) == 0 {
        ChildIndex(g, m, u);
        if Ptr(g, u) != 0 {
          assert IsChild(u, z);
        }
      }
    }
  }

  lemma TrimNothing(f: Fs, i: nat)
    requires Inv(f)
    ensures Trimmed(f, f, i)
  {
  }

  lemma SizeOnly(f: Fs, g: Fs, h: Fs, i: nat)
    requires Trimmed(f, g, i) && h == g.(size := h.size) && |h.size| == |g.size|
    ensures Inv(h) && Trimmed(f, h, i) && (Emptied(g, i) ==> Emptied(h, i))
  {
    hide Unique, Ranged, Marked;
    forall t ensures Ptr(h, t) == Ptr(g, t) {}
    SamePtrs(g, h);
  }

  lemma TreeBlockUsed(f: Fs, s: Slot)
    requires Inv(f) && Ptr(f, s) != 0
    ensures InData(f, Ptr(f, s)) && Used(f, Ptr(f, s))
  {
    hide Ptr;
    assert Reached(f, Ptr(f, s));
  }

  lemma RangedAt(f: Fs, s: Slot)
    requires Inv(f) && Ptr(f, s) != 0
    ensures InData(f, Ptr(f, s))
  {
  }
}
