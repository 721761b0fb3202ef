/** fs/buffer.c: finding and reusing buffers, with other tasks running at every sleep. */
module BufferCache {
  import opened Blocks
  import opened LinkedLists
  import opened BufferState
  import Coherence = BufferCoherence

  /** What others leave behind while this task sleeps, which itself holds buffer mine, if any. */
  function Adopt(w: Cache, mine: int): Cache {
    if 0 <= mine < |w.buf| then w.(buf := w.buf[mine := Held(w.buf[mine])]) else w
  }

  function Held(b: Buf): Buf { b.(count := b.count + 1) }
  function Dropped(b: Buf): Buf { if b.count > 0 then b.(count := b.count - 1) else b }

  lemma AdoptKeeps(w: Cache, mine: int)
    requires CacheInv(w)
    ensures CacheInv(Adopt(w, mine))
  {
    hide WellLinked, OneEach;
    CacheSizes(w);
    SameKeys(w, Adopt(w, mine));
  }

  lemma FreshInv(c: Cache)
    requires Sizes(c) && c.freeList == 0 && |c.ring| == |c.buf|
    requires forall i :: 0 <= i < |c.buf| ==> c.buf[i].dev == 0 && c.next[i] == c.prev[i] == NULL && c.ring[i] == i
    requires forall i :: 0 <= i < |c.buf| ==>
        c.nextFree[i] == Wrap(i + 1, |c.buf|) && c.prevFree[i] == Wrap(i - 1, |c.buf|)
    requires forall h :: 0 <= h < NR_HASH ==> c.hash[h] == NULL && c.chain[h] == []
    ensures CacheInv(c)
  {
    hide Hash;
    forall i: nat | i < |c.ring| ensures RingAt(c.nextFree, c.prevFree, c.ring, i) {
      RingIs(c.nextFree, c.prevFree, c.ring, i);
    }
    forall b: nat | b < |c.buf| ensures Placed(c, b) {
      assert c.ring[b] == b;
    }
  }

  lemma CacheSizes(c: Cache)
    requires CacheInv(c)
    ensures Sizes(c)
  {
  }

  lemma Neighbours(c: Cache, b: nat)
    requires WellLinked(c, NULL) && b < |c.buf|
    ensures Sizes(c) && NULL <= c.next[b] < |c.buf| && NULL <= c.prev[b] < |c.buf|
    ensures 0 <= c.nextFree[b] < |c.buf| && 0 <= c.prevFree[b] < |c.buf|
    ensures b in c.ring && (c.buf[b].dev != 0 ==> b in c.chain[HashOf(c.buf[b])])
  {
    hide Hash, Chain, Ring, Distinct;
    assert Placed(c, b);
    RingLinks(c.nextFree, c.prevFree, c.freeList, c.ring, Pos(c.ring, b));
    RingDistinct(c);
    if c.buf[b].dev != 0 {
      var h := HashOf(c.buf[b]);
      ChainDistinct(c, h);
      ChainNeighbours(c.next, c.prev, c.hash[h], c.chain[h], Pos(c.chain[h], b));
    }
  }

  // ---------- what the sleeps left ----------

  /** Of the caches to wake up to, the first ones are gone. */
  ghost predicate Slept(was: seq<Cache>, now: seq<Cache>) {
    |now| <= |was| && now == was[|was| - |now|..]
  }

  /** The cache the last sleep left to this task, which holds buffer mine; before it, if there was none. */
  ghost function Seen(was: seq<Cache>, now: seq<Cache>, before: Cache, mine: int): Cache {
    if |now| < |was| then Adopt(was[|was| - |now| - 1], mine) else before
  }

  lemma SleptNot(was: seq<Cache>, before: Cache, mine: int)
    ensures Slept(was, was) && Seen(was, was, before, mine) == before
  {
  }

  lemma SleptOnce(was: seq<Cache>, now: seq<Cache>, before: Cache, mine: int)
    requires Slept(was, now) && now != []
    ensures Slept(was, now[1..]) && Seen(was, now[1..], before, mine) == Adopt(now[0], mine)
    ensures |now| <= |was| && was[|was| - |now|] == now[0] && now[0] in now
  {
  }

  lemma SleptMore(was: seq<Cache>, mid: seq<Cache>, now: seq<Cache>, before: Cache, mine: int)
    requires Slept(was, mid) && Slept(mid, now)
    ensures Slept(was, now) && Seen(was, now, before, mine) == Seen(mid, now, Seen(was, mid, before, mine), mine)
    ensures |now| <= |mid| <= |was|
    ensures forall c :: |now| == |mid| ==> now == mid && Seen(mid, now, c, mine) == c
  {
  }

  lemma SeenInv(was: seq<Cache>, now: seq<Cache>, before: Cache, n: nat)
    requires CacheInv(before) && |before.buf| == n && forall w :: w in was ==> CacheInv(w) && |w.buf| == n
    ensures CacheInv(Seen(was, now, before, NULL)) && |Seen(was, now, before, NULL).buf| == n
  {
    hide CacheInv;
    if |now| < |was| {
      assert was[|was| - |now| - 1] in was;
    }
  }

  /** One hold more is one hold more also after the sleeps. */
  lemma SleptHolding(was: seq<Cache>, now: seq<Cache>, before: Cache, b: nat)
    requires Slept(was, now) && b < |before.buf| && forall w :: w in was ==> b < |w.buf|
    ensures b < |Seen(was, now, before, NULL).buf|
    ensures Seen(was, now, HeldIn(before, b), b) == HeldIn(Seen(was, now, before, NULL), b)
  {
    if |now| < |was| {
      assert was[|was| - |now| - 1] in was;
    }
  }

  predicate IsLocked(w: Cache, b: nat) { b < |w.buf| && w.buf[b].lock }

  /** Every cache woken up to, except the last one, had buffer b locked. */
  ghost predicate LockedTill(was: seq<Cache>, now: seq<Cache>, b: nat) {
    forall j :: 0 <= j < |was| - |now| - 1 ==> IsLocked(was[j], b)
  }

  class Buffers {
    const buf: array<Buf>
    const next: array<int>      // b_next, b_prev: the hash chains
    const prev: array<int>
    const nextFree: array<int>  // b_next_free, b_prev_free: the free list
    const prevFree: array<int>
    const hash: array<int>
    var freeList: int
    ghost var chain: seq<seq<nat>>
    ghost var ring: seq<nat>
    var worlds: seq<Cache>      // the caches to wake up to, one per sleep
    var mine: int               // the buffer this task is acquiring

    ghost predicate Separate() {
      && next != prev && next != nextFree && next != prevFree && next != hash && prev != nextFree && prev != prevFree
      && prev != hash && nextFree != prevFree && nextFree != hash && prevFree != hash
    }

    ghost function Abs(): Cache
      reads this, buf, next, prev, nextFree, prevFree, hash
    {
      Cache(buf[..], next[..], prev[..], nextFree[..], prevFree[..], hash[..], freeList, chain, ring)
    }

    ghost predicate Valid()
      reads this, buf, next, prev, nextFree, prevFree, hash
    {
      && Separate() && CacheInv(Abs()) && NULL <= mine < buf.Length
      && forall w :: w in worlds ==> CacheInv(w) && |w.buf| == buf.Length
    }

    /** buffer_init for n buffers: all on the free list in order, all chains empty. */
    constructor BufferInit(n: nat)
      requires n >= 2
      ensures Valid() && worlds == [] && mine == NULL && buf.Length == n == |ring|
      ensures forall i :: 0 <= i < n ==>
        buf[i].dev == 0 && buf[i].count == 0 && !buf[i].lock && !buf[i].dirt && ring[i] == i
    {
      hide CacheInv;
      buf := new Buf[n](i => Buf(0, 0, false, false, 0, false, Zeros()));
      next, prev := new int[n], new int[n];
      nextFree, prevFree := new int[n], new int[n];
      hash := new int[NR_HASH];
      freeList, worlds, mine := 0, [], NULL;
      chain, ring := seq(NR_HASH, i => []), seq(n, i => i);
      new;
      InitLinks(next, prev, nextFree, prevFree);
      var i := 0;
      while i < NR_HASH
        modifies hash
        invariant 0 <= i <= NR_HASH && forall k :: 0 <= k < i ==> hash[k] == NULL
      {
        hash[i] := NULL;
        i := i + 1;
      }
      FreshInv(Abs());
    }

    /** remove_from_queues. */
    method RemoveFromQueues(b: nat)
      requires Separate() && WellLinked(Abs(), NULL) && b < buf.Length
      modifies next, prev, nextFree, prevFree, hash, `freeList, `chain, `ring
      ensures b in old(ring) && (buf[b].dev != 0 ==> |old(chain)| == NR_HASH && b in old(chain)[HashOf(buf[b])])
      ensures Abs() == Unlink(old(Abs()), b)
    {
      hide Hash, Chains, Ring, Members, Put;
      ghost var c := Abs();
      Neighbours(c, b);
      PutLink(prev, next[b], prev[b]);
      PutLink(next, prev[b], next[b]);
      var h := HashOf(buf[b]);
      if hash[h] == b {
        PutLink(hash, h, next[b]);
      }
      PutLink(nextFree, prevFree[b], nextFree[b]);
      PutLink(prevFree, nextFree[b], prevFree[b]);
      if freeList == b {
        freeList := nextFree[b];
      }
      ghost var d := Unlink(c, b);
      chain, ring := d.chain, d.ring;
      LastLink(c.hash, h, c.next[b]);
    }

    /** insert_into_queues; the write through a null b_next is left out. */
    method InsertIntoQueues(b: nat)
      requires Separate() && WellLinked(Abs(), b) && b < buf.Length
      modifies next, prev, nextFree, prevFree, hash, `chain, `ring
      ensures 0 <= freeList < buf.Length && Abs() == Link(old(Abs()), b)
    {
      hide Hash, Ring, Members, Chain, Distinct;
      ghost var c := Abs();
      RingDistinct(c);
      RingLinks(c.nextFree, c.prevFree, c.freeList, c.ring, 0);
      var h := HashOf(buf[b]);
      ChainDistinct(c, h);
      HeadIn(c, h);
      PutLink(nextFree, b, freeList);
      var last := prevFree[freeList];
      PutLink(prevFree, b, last);
      PutLink(nextFree, last, b);
      PutLink(prevFree, freeList, b);
      ghost var d := Link(c, b);
      PutLink(prev, b, NULL);
      PutLink(next, b, NULL);
      ring := d.ring;
      if buf[b].dev == 0 {
        return;
      }
      LinkTwice(c.next, b, NULL, hash[h]);
      PutLink(next, b, hash[h]);
      PutLink(prev, hash[h], b);
      LastLink(c.hash, h, b);
      PutLink(hash, h, b);
      chain := d.chain;
    }

    // ---------- sleeping ----------

    /** sleep_on: everything may change to what the others make of it; false when they never wake this task. */
    method Sleep() returns (woken: bool)
      requires Valid()
      modifies this, buf, next, prev, nextFree, prevFree, hash
      ensures Valid() && mine == old(mine)
      ensures woken <==> old(worlds) != []
      ensures woken ==> worlds == old(worlds)[1..] && Abs() == Adopt(old(worlds)[0], mine)
      ensures !woken ==> worlds == [] && Abs() == old(Abs())
    {
      hide WellLinked, OneEach;
      if worlds == [] {
        return false;
      }
      var w := worlds[0];
      assert w in worlds;
      AdoptKeeps(w, mine);
      CacheSizes(w);
      CacheSizes(Abs());
      var a := Adopt(w, mine);
      forall i | 0 <= i < buf.Length { buf[i] := a.buf[i]; }
      forall i | 0 <= i < buf.Length { next[i] := a.next[i]; }
      forall i | 0 <= i < buf.Length { prev[i] := a.prev[i]; }
      forall i | 0 <= i < buf.Length { nextFree[i] := a.nextFree[i]; }
      forall i | 0 <= i < buf.Length { prevFree[i] := a.prevFree[i]; }
      forall i | 0 <= i < hash.Length { hash[i] := a.hash[i]; }
      freeList, chain, ring := a.freeList, a.chain, a.ring;
      worlds := worlds[1..];
      assert buf[..] == a.buf && next[..] == a.next && prev[..] == a.prev;
      assert nextFree[..] == a.nextFree && prevFree[..] == a.prevFree && hash[..] == a.hash;
      woken := true;
    }

    /** wait_on_buffer. */
    method WaitOnBuffer(b: nat) returns (awake: bool)
      requires Valid() && b < buf.Length
      modifies this, buf, next, prev, nextFree, prevFree, hash
      ensures Valid() && mine == old(mine)
      ensures Slept(old(worlds), worlds) && Abs() == Seen(old(worlds), worlds, old(Abs()), mine)
      ensures LockedTill(old(worlds), worlds, b)
      ensures awake <==> !buf[b].lock
      ensures !old(buf[b].lock) ==> worlds == old(worlds)
      ensures !awake ==> worlds == []
      ensures awake && mine >= 0 && |worlds| < |old(worlds)| ==> buf[mine].count > 0
    {
      hide CacheInv, Slept, Seen;
      awake := true;
      SleptNot(worlds, Abs(), mine);
      while awake && buf[b].lock
        invariant Valid() && mine == old(mine) && |worlds| <= |old(worlds)|
        invariant Slept(old(worlds), worlds) && Abs() == Seen(old(worlds), worlds, old(Abs()), mine)
        invariant LockedTill(old(worlds), worlds, b)
        invariant awake && buf[b].lock && |worlds| < |old(worlds)| ==>
                    IsLocked(old(worlds)[|old(worlds)| - |worlds| - 1], b)
        invariant mine >= 0 && |worlds| < |old(worlds)| ==> buf[mine].count > 0
        invariant !awake ==> worlds == [] && buf[b].lock
        invariant !old(buf[b].lock) ==> worlds == old(worlds)
        decreases |worlds|, awake
      {
        if worlds != [] {
          SleptOnce(old(worlds), worlds, old(Abs()), mine);
        }
        awake := Sleep();
      }
    }

    // ---------- looking up ----------

    /** find_buffer: the one buffer of the block, or NULL when there is none. */
    method FindBuffer(dev: short, block: long) returns (b: int)
      requires Separate() && CacheInv(Abs()) && dev != 0
      ensures NULL <= b < buf.Length
      ensures b == NULL <==> Absent(Abs(), dev, block)
      ensures b != NULL ==> HasKey(buf[b], dev, block)
    {
      hide Hash, Chain, Ring, Distinct, Members;
      var h := Hash(dev, block);
      ghost var c := Abs();
      ghost var i := 0;
      ChainDistinct(c, h);
      ChainStart(c, h);
      b := hash[h];
      while b != NULL
        invariant 0 <= i <= |chain[h]| && b == At(chain[h], i)
        invariant forall k :: 0 <= k < i ==> chain[h][k] < buf.Length && !HasKey(buf[chain[h][k]], dev, block)
        decreases |chain[h]| - i
      {
        ChainLinks(c.next, c.prev, c.hash[h], c.chain[h], i);
        if HasKey(buf[b], dev, block) {
          return b;
        }
        b := next[b];
        i := i + 1;
      }
      NotFound(c, dev, block);
    }

    /** get_hash_table: the block's buffer, held and unlocked, if there is one, in the cache the last sleep left. */
    method GetHashTable(dev: short, block: long) returns (b: int, awake: bool)
      requires Valid() && dev != 0 && mine == NULL
      modifies this, buf, next, prev, nextFree, prevFree, hash
      ensures Valid() && NULL <= b < buf.Length && mine == b
      ensures Slept(old(worlds), worlds)
      ensures var c := Seen(old(worlds), worlds, old(Abs()), NULL);
        && CacheInv(c) && |c.buf| == buf.Length && Abs() == (if b == NULL then c else HeldIn(c, b))
        && (awake ==> (b == NULL <==> Absent(c, dev, block)))
      ensures !awake ==> worlds == [] && b != NULL && buf[b].lock
      ensures old(Unlocked(Abs(), dev, block)) ==> awake && worlds == old(worlds)
      ensures awake && b != NULL ==> HasKey(buf[b], dev, block) && !buf[b].lock && buf[b].count > 0
      ensures b != NULL ==> Got(Seen(old(worlds), worlds, old(Abs()), NULL), Abs(), b, dev, block, false)
    {
      hide CacheInv, Slept, Seen, Absent, LockedTill, Got;
      SleptNot(worlds, Abs(), NULL);
      while true
        invariant Valid() && mine == NULL && |worlds| <= |old(worlds)|
        invariant Slept(old(worlds), worlds) && Abs() == Seen(old(worlds), worlds, old(Abs()), NULL)
        invariant forall w :: w in old(worlds) ==> CacheInv(w) && |w.buf| == buf.Length
        invariant old(Unlocked(Abs(), dev, block)) ==> worlds == old(worlds)
        decreases |worlds|
      {
        b := FindBuffer(dev, block);
        if b == NULL {
          return NULL, true;
        }
        ghost var c, was := Abs(), worlds;
        Hold(b);
        awake := WaitOnBuffer(b);
        SleptHolding(was, worlds, c, b);
        SleptMore(old(worlds), was, worlds, old(Abs()), NULL);
        SleptNot(was, HeldIn(c, b), b);
        ghost var d := Seen(old(worlds), worlds, old(Abs()), NULL);
        SeenInv(old(worlds), worlds, old(Abs()), buf.Length);
        HeldFacts(d, b);
        if !awake || HasKey(buf[b], dev, block) {
          OneForTheBlock(d, b, dev, block);
          HeldGot(d, b, dev, block);
          return b, awake;
        }
        LetGo(b, d);
      }
      assert false;
    }

    /** bh->b_count++ on the way to acquiring it. */
    method Hold(b: nat)
      requires Valid() && mine == NULL && b < buf.Length
      modifies buf, `mine
      ensures Valid() && mine == b && Abs() == HeldIn(old(Abs()), b) && worlds == old(worlds)
    {
      hide WellLinked, OneEach;
      ghost var c := Abs();
      buf[b] := Held(buf[b]);
      CacheSizes(c);
      SameKeys(c, Abs());
      mine := b;
    }

    /** bh->b_count-- on a buffer acquired in vain. */
    method LetGo(b: nat, ghost d: Cache)
      requires Valid() && mine == b < buf.Length == |d.buf| && Abs() == HeldIn(d, b)
      modifies buf, `mine
      ensures Valid() && mine == NULL && Abs() == d && worlds == old(worlds)
    {
      hide WellLinked, OneEach;
      ghost var c := Abs();
      buf[b] := Dropped(buf[b]);
      CacheSizes(c);
      SameKeys(c, Abs());
      mine := NULL;
      assert buf[..] == d.buf;
    }

    function Badness(b: nat): nat
      requires b < buf.Length
      reads buf
    {
      (if buf[b].dirt then 2 else 0) + (if buf[b].lock then 1 else 0)
    }

    /** The search of getblk along the free list: the unused buffer that is least bad. */
    method LeastBad() returns (b: int)
      requires Valid()
      ensures NULL <= b < buf.Length
      ensures b == NULL <==> forall x :: 0 <= x < buf.Length ==> buf[x].count != 0
      ensures b != NULL ==> buf[b].count == 0 && forall x :: 0 <= x < buf.Length && buf[x].count == 0 ==>
          Badness(b) <= Badness(x)
      ensures b != NULL ==> forall x :: 0 <= x < buf.Length && buf[x].count == 0 ==>
        (buf[b].dirt ==> buf[x].dirt) && (buf[b].dirt == buf[x].dirt && buf[b].lock ==> buf[x].lock)
      ensures Spare(Abs()) ==> b != NULL && !buf[b].lock && !buf[b].dirt
    {
      hide Hash, Chains, Distinct;
      b := NULL;
      ghost var c := Abs();
      RingDistinct(c);
      var tmp := freeList;
      ghost var i := 0;
      while true
        invariant 0 <= i < |ring| && tmp == ring[i] && NULL <= b < buf.Length
        invariant b != NULL ==> buf[b].count == 0 && Badness(b) > 0
        invariant forall k :: 0 <= k < i ==> Passed(ring[k], b)
        decreases |ring| - i
      {
        RingLinks(c.nextFree, c.prevFree, c.freeList, ring, i);
        if buf[tmp].count == 0 && (b == NULL || Badness(tmp) < Badness(b)) {
          b := tmp;
          if Badness(tmp) == 0 {
            return;
          }
        }
        assert Passed(ring[i], b);
        Same(ring, Wrap(i + 1, |ring|), 0);
        tmp := nextFree[tmp];
        if tmp == freeList {
          break;
        }
        i := i + 1;
      }
      forall x | 0 <= x < buf.Length ensures buf[x].count == 0 ==> b != NULL && Badness(b) <= Badness(x) {
        assert Placed(c, x);
        var k :| 0 <= k < |ring| && ring[k] == x;
        assert Passed(ring[k], b);
      }
    }

    predicate Passed(x: nat, b: int)
      reads buf
    {
      x < buf.Length && (buf[x].count == 0 ==> 0 <= b < buf.Length && Badness(b) <= Badness(x))
    }

    /** getblk's wait for an unused buffer to be unlocked and written out; free when nobody took it meanwhile. */
    method AwaitClean(b: nat) returns (awake: bool, free: bool)
      requires Valid() && b < buf.Length && mine == NULL
      modifies this, buf, next, prev, nextFree, prevFree, hash
      ensures Valid() && mine == NULL
      ensures Slept(old(worlds), worlds) && Abs() == Seen(old(worlds), worlds, old(Abs()), NULL)
      ensures free <==> awake && buf[b].count == 0
      ensures !old(buf[b].lock) && !old(buf[b].dirt) ==> worlds == old(worlds)
      ensures free ==> !buf[b].lock && !buf[b].dirt
      ensures !awake ==> worlds == [] && (buf[b].lock || (buf[b].count == 0 && buf[b].dirt))
      ensures awake && |worlds| == |old(worlds)| && old(buf[b].count) == 0 ==> free
    {
      hide CacheInv, Slept, Seen, LockedTill;
      SleptNot(worlds, Abs(), NULL);
      awake := WaitOnBuffer(b);
      SleptMore(old(worlds), old(worlds), worlds, old(Abs()), NULL);
      free := awake && buf[b].count == 0;
      while free && buf[b].dirt
        invariant Valid() && mine == NULL
        invariant Slept(old(worlds), worlds) && Abs() == Seen(old(worlds), worlds, old(Abs()), NULL)
        invariant |worlds| == |old(worlds)| ==> Abs() == old(Abs()) && worlds == old(worlds)
        invariant awake ==> !buf[b].lock
        invariant free <==> awake && buf[b].count == 0
        invariant !old(buf[b].lock) && !old(buf[b].dirt) ==> worlds == old(worlds)
        invariant awake && |worlds| == |old(worlds)| && old(buf[b].count) == 0 ==> free
        invariant !awake ==> worlds == [] && (buf[b].lock || (buf[b].count == 0 && buf[b].dirt))
        decreases |worlds|, free
      {
        if worlds != [] {
          SleptOnce(old(worlds), worlds, old(Abs()), NULL);
        }
        awake := Sleep(); // sync_dev
        if awake {
          ghost var was := worlds;
          awake := WaitOnBuffer(b);
          SleptMore(old(worlds), was, worlds, old(Abs()), NULL);
        }
        free := awake && buf[b].count == 0;
      }
    }

    /** The last lines of getblk, during which nobody else runs. */
    method TakeOver(b: nat, dev: short, block: long)
      requires Valid() && dev != 0 && b < buf.Length && Absent(Abs(), dev, block) && mine == NULL
      modifies this, buf, next, prev, nextFree, prevFree, hash
      ensures Valid() && WellLinked(old(Abs()), NULL) && Abs() == Reuse(old(Abs()), b, dev, block)
      ensures mine == b && worlds == old(worlds)
      ensures buf[b] == Buf(dev, block, false, false, 1, old(buf[b].lock), old(buf[b].data))
    {
      hide WellLinked, OneEach, Unlink, Link, Absent, Hash;
      ghost var c := Abs();
      CacheSizes(c);
      ReuseKeeps(c, b, dev, block);
      ReuseSteps(c, b, dev, block);
      buf[b] := buf[b].(count := 1, dirt := false, uptodate := false);
      SameKeys(c, Abs());
      UnlinkSame(c, Abs(), b);
      RemoveFromQueues(b);
      buf[b] := buf[b].(dev := dev, block := block);
      assert buf[..] == c.buf[b := Renew(c.buf[b], dev, block)];
      InsertIntoQueues(b);
      mine := b;
    }

    /**
      * getblk. g is the cache at the moment when its last sleep was over. Either the block has a buffer there, which is
      * held now, or the buffer taken over was unused, unlocked and clean, the block had none, and the cache has become
      * Reuse of g.
      */
    method GetBlk(dev: short, block: long) returns (b: int, awake: bool, ghost reused: bool, ghost g: Cache)
      requires Valid() && dev != 0 && mine == NULL
      modifies this, buf, next, prev, nextFree, prevFree, hash
      ensures Valid() && Slept(old(worlds), worlds) && g == Seen(old(worlds), worlds, old(Abs()), NULL)
      ensures !awake ==> worlds == []
      ensures old(Unlocked(Abs(), dev, block) && (Absent(Abs(), dev, block) ==> Spare(Abs()))) ==>
        awake && worlds == old(worlds)
      ensures awake ==>
        0 <= b < buf.Length && mine == b && HasKey(buf[b], dev, block) && !buf[b].lock && buf[b].count > 0
      ensures awake ==> CacheInv(g) && |g.buf| == buf.Length && (reused <==> Absent(g, dev, block))
      ensures awake && reused ==>
        g.buf[b].count == 0 && !g.buf[b].lock && !g.buf[b].dirt && Abs() == Reuse(g, b, dev, block)
      ensures awake && !reused ==> Abs() == HeldIn(g, b)
      ensures awake ==> Got(g, Abs(), b, dev, block, reused)
    {
      hide CacheInv, Reuse, Unlocked, Spare, Absent, Slept, Seen;
      SleptNot(worlds, Abs(), NULL);
      while true
        invariant Valid() && mine == NULL && |worlds| <= |old(worlds)|
        invariant Slept(old(worlds), worlds) && Abs() == Seen(old(worlds), worlds, old(Abs()), NULL)
        invariant old(Unlocked(Abs(), dev, block) && (Absent(Abs(), dev, block) ==> Spare(Abs()))) ==>
          worlds == old(worlds)
        decreases |worlds|
      {
        ghost var was := worlds;
        reused := false;
        b, awake := GetHashTable(dev, block);
        SleptMore(old(worlds), was, worlds, old(Abs()), NULL);
        g := Seen(old(worlds), worlds, old(Abs()), NULL);
        if !awake || b != NULL {
          return;
        }
        ghost var mid := worlds;
        var done;
        b, awake, done := TakeUnused(dev, block);
        SleptMore(old(worlds), mid, worlds, old(Abs()), NULL);
        g := Seen(old(worlds), worlds, old(Abs()), NULL);
        if !awake || done {
          if done {
            CacheLinked(g);
            ReuseMoves(g, b, dev, block);
          }
          reused := done;
          return;
        }
      }
      assert false;
    }

    /** The rest of getblk for a block without a buffer; done unless something changed meanwhile. */
    method TakeUnused(dev: short, block: long) returns (b: int, awake: bool, done: bool)
      requires Valid() && dev != 0 && mine == NULL && Absent(Abs(), dev, block)
      modifies this, buf, next, prev, nextFree, prevFree, hash
      ensures Valid() && Slept(old(worlds), worlds)
      ensures !awake ==> worlds == [] && !done
      ensures old(Spare(Abs())) ==> done && worlds == old(worlds)
      ensures awake && !done ==> |worlds| < |old(worlds)|
      ensures var g := Seen(old(worlds), worlds, old(Abs()), NULL);
        if done then
          && 0 <= b < buf.Length == |g.buf| && mine == b && CacheInv(g) && Absent(g, dev, block)
          && g.buf[b].count == 0 && !g.buf[b].lock && !g.buf[b].dirt && Abs() == Reuse(g, b, dev, block)
          && HasKey(buf[b], dev, block) && !buf[b].lock && buf[b].count > 0
        else mine == NULL && Abs() == g
    {
      hide CacheInv, Reuse, Spare, Absent, Slept, Seen;
      done := false;
      SleptNot(worlds, Abs(), NULL);
      b := LeastBad();
      if b == NULL {
        if worlds != [] {
          SleptOnce(old(worlds), worlds, old(Abs()), NULL);
        }
        awake := Sleep();
        return;
      }
      var free;
      awake, free := AwaitClean(b);
      SleptMore(old(worlds), old(worlds), worlds, old(Abs()), NULL);
      if free {
        var other := FindBuffer(dev, block);
        if other == NULL {
          TakeOver(b, dev, block);
          done := true;
        }
      }
    }
  }

  /** In a cache a block that has a buffer is not absent. */
  lemma OneForTheBlock(c: Cache, b: nat, dev: short, block: long)
    requires b < |c.buf|
    ensures HasKey(HeldIn(c, b).buf[b], dev, block) ==> !Absent(c, dev, block)
  {
  }

  /**
    * What getblk makes of the cache g: a buffer found has one holder more; a buffer taken over has one holder, holds
    * nothing of its new block yet and goes to the end of the free list; nothing else changes.
    */
  ghost predicate Got(g: Cache, c: Cache, b: int, dev: short, block: long, reused: bool) {
    && 0 <= b < |c.buf| == |g.buf| && (forall x :: 0 <= x < |c.buf| && x != b ==> c.buf[x] == g.buf[x])
    && if reused then c.buf[b] == Buf(dev, block, false, false, 1, false, g.buf[b].data) &&
                      MovedTo(g.ring, c.ring, b, [], [b])
       else c.buf[b] == g.buf[b].(count := g.buf[b].count + 1) && c.ring == g.ring && c.chain == g.chain
  }

  lemma HeldGot(c: Cache, b: nat, dev: short, block: long)
    requires b < |c.buf|
    ensures Got(c, HeldIn(c, b), b, dev, block, false)
  {
  }

  lemma CacheLinked(c: Cache)
    requires CacheInv(c)
    ensures WellLinked(c, NULL)
  {
  }

  lemma HeldFacts(c: Cache, b: nat)
    requires b < |c.buf|
    ensures HeldIn(c, b).buf[b].count > 0 && |HeldIn(c, b).buf| == |c.buf|
  {
  }

  /** No buffer of the block is locked. */
  predicate Unlocked(c: Cache, dev: short, block: long) {
    forall x :: 0 <= x < |c.buf| && HasKey(c.buf[x], dev, block) ==> !c.buf[x].lock
  }

  /** Some buffer can be taken at once. */
  predicate Spare(c: Cache) {
    exists x :: 0 <= x < |c.buf| && c.buf[x].count == 0 && !c.buf[x].lock && !c.buf[x].dirt
  }

  /** remove_from_queues looks at no flag. */
  lemma UnlinkSame(c: Cache, d: Cache, b: nat)
    requires WellLinked(c, NULL) && b < |c.buf| == |d.buf| && d == c.(buf := d.buf)
    requires HasKey(d.buf[b], c.buf[b].dev, c.buf[b].block)
    ensures b in c.ring && (c.buf[b].dev != 0 ==> b in c.chain[HashOf(c.buf[b])])
    ensures Unlink(d, b) == Unlink(c, b).(buf := d.buf) && Unlink(c, b).buf == c.buf
  {
    hide Hash, Chain, Ring, Distinct;
    assert Placed(c, b);
  }

  /** The last lines of getblk are the Rekey event of the cache as a whole, with its guard met. */
  lemma ReuseIsRekey(c: Cache, io: seq<Coherence.Io>, disk: map<Coherence.Key, Block>, b: nat, dev: short, block: long)
    requires CacheInv(c) && |io| == |c.buf| && b < |c.buf| && dev != 0 && Absent(c, dev, block)
    requires c.buf[b].count == 0 && !c.buf[b].lock && !c.buf[b].dirt
    ensures var s, e := Coherence.Sys(c.buf, io, disk), Coherence.Rekey(b, Coherence.Key(dev, block));
            && Coherence.Enabled(s, e) && WellLinked(c, NULL)
            && Coherence.Step(s, e) == Coherence.Sys(Reuse(c, b, dev, block).buf, io, disk)
  {
    hide WellLinked, OneEach, Unlink, Link;
    ReuseSteps(c, b, dev, block);
    var s := Coherence.Sys(c.buf, io, disk);
    forall x | 0 <= x < |c.buf| ensures Coherence.KeyOf(s.buf[x]) != Coherence.Key(dev, block) {
      assert !HasKey(c.buf[x], dev, block);
    }
  }

  /** Reuse, step by step. */
  lemma ReuseSteps(c: Cache, b: nat, dev: short, block: long)
    requires WellLinked(c, NULL) && b < |c.buf|
    ensures b in c.ring && (c.buf[b].dev != 0 ==> b in c.chain[HashOf(c.buf[b])])
    ensures var u := Unlink(c, b);
            var v := u.(buf := u.buf[b := Renew(c.buf[b], dev, block)]);
            WellLinked(u, b) && WellLinked(v, b) && 0 <= v.freeList < |v.buf| && Reuse(c, b, dev, block) == Link(v, b)
  {
    hide Members, Chains, Ring, Hash, Unlink, Link;
    UnlinkKeeps(c, b);
    RebufKeeps(Unlink(c, b), b, Renew(c.buf[b], dev, block));
    LinkKeeps(Unlink(c, b).(buf := Unlink(c, b).buf[b := Renew(c.buf[b], dev, block)]), b);
  }

  /** One more holder of buffer b. */
  function HeldIn(c: Cache, b: nat): Cache
    requires b < |c.buf|
  {
    c.(buf := c.buf[b := Held(c.buf[b])])
  }

  lemma ChainStart(c: Cache, h: nat)
    requires Sizes(c) && Chains(c) && h < NR_HASH
    ensures c.hash[h] == At(c.chain[h], 0)
  {
    assert Chain(c.next, c.prev, c.hash[h], c.chain[h]);
  }

  /** A block that is not on its chain is nowhere. */
  lemma NotFound(c: Cache, dev: short, block: long)
    requires CacheInv(c) && dev != 0
    requires forall k :: 0 <= k < |c.chain[Hash(dev, block)]| ==>
               c.chain[Hash(dev, block)][k] < |c.buf| && !HasKey(c.buf[c.chain[Hash(dev, block)][k]], dev, block)
    ensures Absent(c, dev, block)
  {
    hide Hash, Chain, Ring, Distinct;
    forall b | 0 <= b < |c.buf| ensures !HasKey(c.buf[b], dev, block) {
      assert Placed(c, b);
    }
  }

  /** The loop of buffer_init over the buffer heads, and the closing of the ring. */
  method InitLinks(next: array<int>, prev: array<int>, nextFree: array<int>, prevFree: array<int>)
    requires next.Length == prev.Length == nextFree.Length == prevFree.Length >= 2
    requires next != prev && next != nextFree && next != prevFree && prev != nextFree && prev != prevFree &&
        nextFree != prevFree
    modifies next, prev, nextFree, prevFree
    ensures forall i :: 0 <= i < next.Length ==> next[i] == prev[i] == NULL
    ensures forall i :: 0 <= i < next.Length ==>
      nextFree[i] == Wrap(i + 1, next.Length) && prevFree[i] == Wrap(i - 1, next.Length)
  {
    var h, n := 0, next.Length;
    while h < n
      invariant 0 <= h <= n
      invariant forall i :: 0 <= i < h ==> next[i] == prev[i] == NULL && prevFree[i] == i - 1 && nextFree[i] == i + 1
    {
      prevFree[h], nextFree[h] := h - 1, h + 1;
      next[h], prev[h] := NULL, NULL;
      h := h + 1;
    }
    prevFree[0] := n - 1;
    nextFree[n - 1] := 0;
  }

  /** A link field written through a pointer that may be null. */
  method PutLink(a: array<int>, b: int, v: int)
    modifies a
    ensures a[..] == Put(old(a[..]), b, v)
  {
    if 0 <= b < a.Length {
      a[b] := v;
    }
  }

  lemma LastLink(s: seq<int>, h: nat, v: int)
    requires h < |s|
    ensures Put(s, h, v) == s[h := v]
  {
  }

  lemma LinkTwice(s: seq<int>, b: int, u: int, v: int)
    ensures Put(Put(s, b, u), b, v) == Put(s, b, v)
  {
  }
}
