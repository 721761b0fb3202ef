/** The buffer heads of fs/buffer.c with their hash chains and free list. */
module BufferState {
  import opened Blocks
  import opened LinkedLists

  const NR_HASH: nat := 307

  type short = x: int | 0 <= x < 0x1_0000
  type long = x: int | 0 <= x < 0x1_0000_0000

  /** _hashfn. */
  function Hash(dev: short, block: long): (h: nat)
    ensures h < NR_HASH
  {
    ((dev as bv32) ^ (block as bv32)) as int % NR_HASH
  }

  /** A buffer head; device 0 means free. */
  datatype Buf = Buf(dev: short, block: long, uptodate: bool, dirt: bool, count: nat, lock: bool, data: Block)

  predicate HasKey(b: Buf, dev: short, block: long) { b.dev == dev && b.block == block }

  function HashOf(b: Buf): (h: nat)
    ensures h < NR_HASH
  {
    Hash(b.dev, b.block)
  }

  /** All buffers and links; chain and ring spell out what the links form. */
  datatype Cache = Cache(
    buf: seq<Buf>, next: seq<int>, prev: seq<int>, nextFree: seq<int>, prevFree: seq<int>, hash: seq<int>,
        freeList: int,
    chain: seq<seq<nat>>, ring: seq<nat>)

  ghost predicate Sizes(c: Cache) {
    && |c.buf| == |c.next| == |c.prev| == |c.nextFree| == |c.prevFree| >= 2
    && |c.hash| == |c.chain| == NR_HASH
  }

  ghost predicate Chains(c: Cache)
    requires Sizes(c)
  {
    forall h: nat :: h < NR_HASH ==> Chain(c.next, c.prev, c.hash[h], c.chain[h])
  }

  /** Every buffer but out is on the free list, and on its hash chain if it has a device. */
  ghost predicate Members(c: Cache, out: int)
    requires Sizes(c)
  {
    && (forall h: nat, b: nat :: h < NR_HASH && b in c.chain[h] ==> OnChain(c, h, b, out))
    && (forall b: nat :: b < |c.buf| && b != out ==> Placed(c, b))
    && (out < 0 || out !in c.ring)
  }

  ghost predicate OnChain(c: Cache, h: nat, b: nat, out: int)
    requires Sizes(c)
  {
    b < |c.buf| && b != out && c.buf[b].dev != 0 && HashOf(c.buf[b]) == h
  }

  ghost predicate Placed(c: Cache, b: nat)
    requires Sizes(c) && b < |c.buf|
  {
    && b in c.ring
    && (if c.buf[b].dev != 0 then b in c.chain[HashOf(c.buf[b])] else c.next[b] == c.prev[b] == NULL)
  }

  /** Never two buffers for one block. */
  ghost predicate OneEach(c: Cache) {
    forall a, b | 0 <= a < |c.buf| && 0 <= b < |c.buf| ::
      c.buf[a].dev != 0 && HasKey(c.buf[b], c.buf[a].dev, c.buf[a].block) ==> a == b
  }

  ghost predicate WellLinked(c: Cache, out: int) {
    Sizes(c) && Chains(c) && Ring(c.nextFree, c.prevFree, c.freeList, c.ring) && Members(c, out)
  }

  ghost predicate CacheInv(c: Cache) { WellLinked(c, NULL) && OneEach(c) }

  ghost function Pos(s: seq<nat>, b: nat): (k: nat)
    requires b in s
    ensures k < |s| && s[k] == b
  {
    var k :| 0 <= k < |s| && s[k] == b;
    k
  }

  /** remove_from_queues. */
  ghost function Unlink(c: Cache, b: nat): (d: Cache)
    requires Sizes(c) && b < |c.buf| && b in c.ring && (c.buf[b].dev != 0 ==> b in c.chain[HashOf(c.buf[b])])
    ensures Sizes(d) && d.buf == c.buf
  {
    var h := HashOf(c.buf[b]);
    c.(next := Put(c.next, c.prev[b], c.next[b]), prev := Put(c.prev, c.next[b], c.prev[b]),
       hash := if c.hash[h] == b then c.hash[h := c.next[b]] else c.hash,
       nextFree := Put(c.nextFree, c.prevFree[b], c.nextFree[b]), prevFree := Put(c.prevFree, c.nextFree[b],
           c.prevFree[b]),
       freeList := if c.freeList == b then c.nextFree[b] else c.freeList,
       chain := if c.buf[b].dev != 0 then c.chain[h := Without(c.chain[h], Pos(c.chain[h], b))] else c.chain,
       ring := Without(c.ring, Pos(c.ring, b)))
  }

  /** insert_into_queues, with the write through a null b_next left out. */
  ghost function Link(c: Cache, b: nat): (d: Cache)
    requires Sizes(c) && b < |c.buf| && 0 <= c.freeList < |c.buf|
    ensures Sizes(d) && d.buf == c.buf
  {
    var h := HashOf(c.buf[b]);
    var last := c.prevFree[c.freeList];
    var f := c.(nextFree := Put(Put(c.nextFree, b, c.freeList), last, b), prevFree := Put(Put(c.prevFree, b, last),
        c.freeList, b),
                ring := c.ring + [b]);
    if c.buf[b].dev == 0 then f.(next := Put(c.next, b, NULL), prev := Put(c.prev, b, NULL))
    else f.(next := Put(c.next, b, c.hash[h]), prev := Put(Put(c.prev, b, NULL), c.hash[h], b),
            hash := c.hash[h := b], chain := c.chain[h := [b] + c.chain[h]])
  }

  // ---------- unlinking ----------

  lemma UnlinkKeeps(c: Cache, b: nat)
    requires WellLinked(c, NULL) && b < |c.buf|
    ensures b in c.ring && (c.buf[b].dev != 0 ==> b in c.chain[HashOf(c.buf[b])])
    ensures WellLinked(Unlink(c, b), b)
  {
    hide Chain, Ring, Hash, Chains, Distinct;
    assert Placed(c, b);
    UnlinkRing(c, b);
    UnlinkChains(c, b);
    UnlinkMembers(c, b);
  }

  lemma UnlinkRing(c: Cache, b: nat)
    requires WellLinked(c, NULL) && b < |c.buf| && Placed(c, b)
    ensures var d := Unlink(c, b);
            && Ring(d.nextFree, d.prevFree, d.freeList, d.ring) && b !in d.ring
            && forall x :: x in c.ring && x != b ==> x in d.ring
  {
    hide Hash, Chains, Ring, Distinct;
    RingDistinct(c);
    assert Placed(c, 0) && Placed(c, 1);
    TwoMembers(c.ring);
    RingRemove(c.nextFree, c.prevFree, c.freeList, c.ring, Pos(c.ring, b));
    DistinctWithout(c.ring, Pos(c.ring, b), |c.buf|);
  }

  lemma RingDistinct(c: Cache)
    requires Ring(c.nextFree, c.prevFree, c.freeList, c.ring)
    ensures Distinct(c.ring) && InRange(c.ring, |c.nextFree|) && 0 <= c.freeList < |c.nextFree| && c.ring != [] &&
        c.freeList == c.ring[0]
  {
  }

  lemma TwoMembers(r: seq<nat>)
    requires 0 in r && 1 in r
    ensures |r| > 1
  {
  }

  lemma UnlinkChains(c: Cache, b: nat)
    requires WellLinked(c, NULL) && b < |c.buf| && Placed(c, b)
    ensures Chains(Unlink(c, b))
  {
    hide Hash, Chain, Ring, Distinct;
    var d := Unlink(c, b);
    var h := HashOf(c.buf[b]);
    if c.buf[b].dev != 0 {
      var k := Pos(c.chain[h], b);
      var nb, pb := c.next[b], c.prev[b];
      ChainRemove(c.next, c.prev, c.hash[h], c.chain[h], k);
      ChainNeighbours(c.next, c.prev, c.hash[h], c.chain[h], k);
      forall g: nat | g < NR_HASH ensures Chain(d.next, d.prev, d.hash[g], d.chain[g]) {
        if g != h {
          Apart(c, g, h);
          HeadIn(c, g);
          ChainFrame(c.next, c.prev, c.hash[g], c.chain[g], d.next, d.prev);
        }
      }
    } else {
      HeadIn(c, h);
      NotOnChain(c, b);
    }
  }

  lemma NotOnChain(c: Cache, b: nat)
    requires WellLinked(c, NULL) && b < |c.buf| && c.buf[b].dev == 0
    ensures forall h: nat :: h < NR_HASH ==> b !in c.chain[h]
  {
    hide Hash, Chain, Ring;
    forall h: nat | h < NR_HASH ensures b !in c.chain[h] {
      assert b in c.chain[h] ==> OnChain(c, h, b, NULL);
    }
  }

  lemma HeadIn(c: Cache, h: nat)
    requires Sizes(c) && Chains(c) && h < NR_HASH
    ensures c.hash[h] == NULL || c.hash[h] in c.chain[h]
  {
    assert Chain(c.next, c.prev, c.hash[h], c.chain[h]);
  }

  lemma ChainNeighbours(nx: seq<int>, pv: seq<int>, hd: int, c: seq<nat>, k: nat)
    requires Chain(nx, pv, hd, c) && k < |c|
    ensures c[k] < |nx|
    ensures (nx[c[k]] == NULL || nx[c[k]] in c) && (pv[c[k]] == NULL || pv[c[k]] in c)
  {
    ChainLinks(nx, pv, hd, c, k);
  }

  lemma Apart(c: Cache, g: nat, h: nat)
    requires Sizes(c) && (exists out :: Members(c, out)) && g < NR_HASH && h < NR_HASH && g != h
    ensures forall x :: x in c.chain[g] ==> x !in c.chain[h]
  {
    hide Hash;
    var out :| Members(c, out);
    forall x | x in c.chain[g] ensures x !in c.chain[h] {
      assert OnChain(c, g, x, out);
    }
  }

  lemma UnlinkMembers(c: Cache, b: nat)
    requires WellLinked(c, NULL) && b < |c.buf| && Placed(c, b)
    requires b !in Unlink(c, b).ring && forall x :: x in c.ring && x != b ==> x in Unlink(c, b).ring
    ensures Members(Unlink(c, b), b)
  {
    hide Hash, Chain, Ring, Distinct;
    var d := Unlink(c, b);
    var h := HashOf(c.buf[b]);
    ChainDistinct(c, h);
    if c.buf[b].dev != 0 {
      DistinctWithout(c.chain[h], Pos(c.chain[h], b), |c.buf|);
      ChainNeighbours(c.next, c.prev, c.hash[h], c.chain[h], Pos(c.chain[h], b)) by { assert Chain(c.next, c.prev,
          c.hash[h], c.chain[h]); }
    }
    forall g: nat, x: nat | g < NR_HASH && x in d.chain[g] ensures OnChain(d, g, x, b) {
      assert x in c.chain[g];
      assert OnChain(c, g, x, NULL);
    }
    forall x: nat | x < |d.buf| && x != b ensures Placed(d, x) {
      assert Placed(c, x);
      if c.buf[x].dev == 0 {
        assert c.buf[b].dev != 0 ==> x !in c.chain[h] by { NotOnChain(c, x); }
      }
    }
  }

  lemma ChainDistinct(c: Cache, h: nat)
    requires Sizes(c) && Chains(c) && h < NR_HASH
    ensures Distinct(c.chain[h]) && InRange(c.chain[h], |c.buf|) && Chain(c.next, c.prev, c.hash[h], c.chain[h])
  {
    assert Chain(c.next, c.prev, c.hash[h], c.chain[h]);
  }

  // ---------- linking ----------

  lemma LinkKeeps(c: Cache, b: nat)
    requires WellLinked(c, b) && b < |c.buf|
    ensures 0 <= c.freeList < |c.buf| && WellLinked(Link(c, b), NULL)
  {
    hide Chain, Ring, Hash, Chains, Distinct;
    RingDistinct(c);
    RingAppend(c.nextFree, c.prevFree, c.freeList, c.ring, b);
    LinkChains(c, b);
    LinkMembers(c, b);
  }

  lemma LinkChains(c: Cache, b: nat)
    requires WellLinked(c, b) && b < |c.buf| && 0 <= c.freeList < |c.buf|
    ensures Chains(Link(c, b))
  {
    hide Hash, Chain, Ring, Distinct, Placed;
    var d := Link(c, b);
    var h := HashOf(c.buf[b]);
    forall g: nat | g < NR_HASH ensures Chain(d.next, d.prev, d.hash[g], d.chain[g]) {
      assert b in c.chain[g] ==> OnChain(c, g, b, b);
      HeadIn(c, h);
      if c.buf[b].dev != 0 && g == h {
        ChainPush(c.next, c.prev, c.hash[h], c.chain[h], b);
      } else {
        if g != h {
          Apart(c, g, h);
        }
        ChainFrame(c.next, c.prev, c.hash[g], c.chain[g], d.next, d.prev);
      }
    }
  }

  lemma LinkMembers(c: Cache, b: nat)
    requires WellLinked(c, b) && b < |c.buf| && 0 <= c.freeList < |c.buf|
    ensures Members(Link(c, b), NULL)
  {
    hide Hash, Chain, Ring, Distinct;
    var d := Link(c, b);
    var h := HashOf(c.buf[b]);
    HeadIn(c, h);
    forall g: nat, x: nat | g < NR_HASH && x in d.chain[g] ensures OnChain(d, g, x, NULL) {
      if x != b || g != h || c.buf[b].dev == 0 {
        assert x in c.chain[g];
        assert OnChain(c, g, x, b);
      }
    }
    forall x: nat | x < |d.buf| && x != NULL ensures Placed(d, x) {
      if x != b {
        assert Placed(c, x);
        if c.buf[x].dev == 0 {
          assert x in c.chain[h] ==> OnChain(c, h, x, b);
        }
      }
    }
  }

  // ---------- the last step of getblk ----------

  function Renew(b: Buf, dev: short, block: long): Buf {
    Buf(dev, block, false, false, 1, b.lock, b.data)
  }

  /** b's buffer moved to the end of the free list and to the chain of its new key. */
  ghost function Reuse(c: Cache, b: nat, dev: short, block: long): (d: Cache)
    requires WellLinked(c, NULL) && b < |c.buf|
    ensures WellLinked(d, NULL)
  {
    UnlinkKeeps(c, b);
    var u := Unlink(c, b);
    RebufKeeps(u, b, Renew(c.buf[b], dev, block));
    var v := u.(buf := u.buf[b := Renew(c.buf[b], dev, block)]);
    LinkKeeps(v, b);
    Link(v, b)
  }

  /** A buffer on no list may get another key. */
  lemma RebufKeeps(c: Cache, b: nat, x: Buf)
    requires WellLinked(c, b) && b < |c.buf|
    ensures WellLinked(c.(buf := c.buf[b := x]), b)
  {
    hide Hash, Chain, Ring, Distinct;
    var d := c.(buf := c.buf[b := x]);
    forall g: nat, y: nat | g < NR_HASH && y in d.chain[g] ensures OnChain(d, g, y, b) {
      assert OnChain(c, g, y, b);
    }
    forall y: nat | y < |d.buf| && y != b ensures Placed(d, y) {
      assert Placed(c, y);
    }
    RebufChains(c, d);
  }

  lemma RebufChains(c: Cache, d: Cache)
    requires Sizes(c) && Chains(c) && Sizes(d)
    requires d.next == c.next && d.prev == c.prev && d.hash == c.hash && d.chain == c.chain
    ensures Chains(d)
  {
    hide Chain;
  }

  /** Changes of count, lock, flags or data do not touch the lists. */
  lemma SameKeys(c: Cache, d: Cache)
    requires CacheInv(c) && d == c.(buf := d.buf) && |d.buf| == |c.buf|
    requires forall b :: 0 <= b < |c.buf| ==> HasKey(d.buf[b], c.buf[b].dev, c.buf[b].block)
    ensures CacheInv(d)
  {
    hide Hash, Chain, Ring, Distinct;
    forall g: nat, y: nat | g < NR_HASH && y in d.chain[g] ensures OnChain(d, g, y, NULL) {
      assert OnChain(c, g, y, NULL);
    }
    forall y: nat | y < |d.buf| ensures Placed(d, y) {
      assert Placed(c, y);
    }
    RebufChains(c, d);
  }

  ghost predicate Absent(c: Cache, dev: short, block: long) {
    forall b :: 0 <= b < |c.buf| ==> !HasKey(c.buf[b], dev, block)
  }

  /** Reusing a buffer for a block that has none keeps the whole invariant. */
  lemma ReuseKeeps(c: Cache, b: nat, dev: short, block: long)
    requires CacheInv(c) && b < |c.buf| && dev != 0 && Absent(c, dev, block)
    ensures CacheInv(Reuse(c, b, dev, block))
  {
    hide WellLinked, Hash;
    ReuseBuf(c, b, dev, block);
  }

  lemma ReuseBuf(c: Cache, b: nat, dev: short, block: long)
    requires WellLinked(c, NULL) && b < |c.buf|
    ensures Reuse(c, b, dev, block).buf == c.buf[b := Renew(c.buf[b], dev, block)]
  {
  }

  /** A reused buffer is held once, has lost its contents' block and is the last of the free list and the first of its
      chain; all others keep their order. */
  lemma ReuseMoves(c: Cache, b: nat, dev: short, block: long)
    requires WellLinked(c, NULL) && b < |c.buf| && dev != 0
    ensures var d := Reuse(c, b, dev, block);
            && |d.buf| == |c.buf| && d.buf[b] == Buf(dev, block, false, false, 1, c.buf[b].lock, c.buf[b].data)
            && (forall x :: 0 <= x < |c.buf| && x != b ==> d.buf[x] == c.buf[x])
            && MovedTo(c.ring, d.ring, b, [], [b])
            && forall h :: 0 <= h < NR_HASH ==>
                 if h == Hash(dev, block) then MovedTo(c.chain[h], d.chain[h], b, [b], [])
                 else MovedTo(c.chain[h], d.chain[h], b, [], [])
  {
    hide Reuse, WellLinked, Hash, MovedTo;
    ReuseBuf(c, b, dev, block);
    ReuseRing(c, b, dev, block);
    forall h | 0 <= h < NR_HASH
      ensures if h == Hash(dev, block) then MovedTo(c.chain[h], Reuse(c, b, dev, block).chain[h], b, [b], [])
              else MovedTo(c.chain[h], Reuse(c, b, dev, block).chain[h], b, [], [])
    {
      ReuseChain(c, b, dev, block, h);
    }
  }

  lemma ReuseRing(c: Cache, b: nat, dev: short, block: long)
    requires WellLinked(c, NULL) && b < |c.buf|
    ensures MovedTo(c.ring, Reuse(c, b, dev, block).ring, b, [], [b])
    ensures |c.chain| == |Reuse(c, b, dev, block).chain| == NR_HASH
  {
    hide Hash, Members, Chains, Ring, Distinct;
    UnlinkKeeps(c, b);
  }

  lemma ReuseChain(c: Cache, b: nat, dev: short, block: long, h: nat)
    requires WellLinked(c, NULL) && b < |c.buf| && dev != 0 && h < NR_HASH
    ensures |c.chain| == |Reuse(c, b, dev, block).chain| == NR_HASH
    ensures var t := Reuse(c, b, dev, block).chain[h];
            if h == Hash(dev, block) then MovedTo(c.chain[h], t, b, [b], []) else MovedTo(c.chain[h], t, b, [], [])
  {
    hide Hash, Members, Chains, Ring, Distinct;
    UnlinkKeeps(c, b);
    NoneMoved(c, b);
  }

  /** t is s without b, if it was there, between first and last. */
  ghost predicate MovedTo(s: seq<nat>, t: seq<nat>, b: nat, first: seq<nat>, last: seq<nat>) {
    if b in s then exists k :: 0 <= k < |s| && s[k] == b && t == first + (s[..k] + s[k + 1..]) + last
    else t == first + s + last
  }

  lemma NoneMoved(c: Cache, b: nat)
    requires WellLinked(c, NULL) && b < |c.buf|
    ensures forall h: nat :: h < NR_HASH && b in c.chain[h] ==> c.buf[b].dev != 0 && HashOf(c.buf[b]) == h
  {
    hide Hash, Chains, Ring, Distinct;
    forall h: nat | h < NR_HASH && b in c.chain[h] ensures c.buf[b].dev != 0 && HashOf(c.buf[b]) == h {
      assert OnChain(c, h, b, NULL);
    }
  }
}
