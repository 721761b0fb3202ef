/** lib/malloc.c: malloc and free_s of the kernel. */
module Malloc {
  import opened LinkedLists
  import opened MallocState
  import opened MallocSteps
  import opened Options

  /** Which objects are live in k, compared with h: r of bucket b has come. */
  ghost predicate Gained(h: Heap, k: Heap, b: nat, r: nat)
    requires Sizes(h) && Sizes(k)
  {
    !Live(h, b, r) && forall c: nat, a: nat :: c < 9 ==> (Live(k, c, a) <==> Live(h, c, a) || (c == b && a == r))
  }

  /** The smallest size of a bucket that fits. */
  ghost predicate Fits(b: nat, len: nat) {
    b < 9 && len <= SizeOf(b) && (b > 0 ==> SizeOf(b - 1) < len)
  }

  /** An object is as large as was asked for and less than twice that, or 16 bytes; everything up to a page fits. */
  lemma FitsClosely(len: nat)
    ensures forall b :: Fits(b, len) ==>
              && len <= SizeOf(b) <= 4096 && (SizeOf(b) == 16 || SizeOf(b) < 2 * len)
              && Objects(b) * SizeOf(b) == 4096
    ensures (exists b :: Fits(b, len)) <==> len <= 4096
  {
    if len <= 4096 {
      var b := 0;
      while SizeOf(b) < len
        invariant b < 9 && (b > 0 ==> SizeOf(b - 1) < len)
        decreases 9 - b
      {
        b := b + 1;
      }
      assert Fits(b, len);
    }
  }

  /** Some bucket of that size has a free object. */
  ghost predicate Room(h: Heap, b: nat) {
    b < |h.lists| && exists d :: d in h.lists[b] && d < |h.frees| && h.frees[d] != []
  }

  /** The pages malloc needs: one for a new bucket, and one for descriptors when none is spare. */
  ghost function PageCost(h: Heap, b: nat): nat {
    if Room(h, b) then 0 else if h.freeDesc == NULL then 2 else 1
  }

  ghost predicate SameLive(h: Heap, k: Heap)
    requires Sizes(h) && Sizes(k)
  {
    forall c: nat, a: nat :: c < 9 ==> (Live(k, c, a) <==> Live(h, c, a))
  }

  class Kmalloc {
    var desc: seq<Desc>
    var next: seq<int>
    var chain: seq<int>       // bucket_dir[].chain
    var freeDesc: int         // free_bucket_desc
    var word: map<nat, nat>   // memory, where free objects hold their links
    var pages: set<nat>       // what get_free_page can still give
    ghost var lists: seq<seq<nat>>
    ghost var spare: seq<nat>
    ghost var home: seq<nat>
    ghost var frees: seq<seq<nat>>

    ghost function Abs(): Heap
      reads this
    {
      Heap(desc, next, chain, freeDesc, word, pages, lists, spare, home, frees)
    }

    ghost predicate Valid()
      reads this
    {
      Inv(Abs())
    }

    constructor (free: set<nat>)
      requires 0 !in free
      ensures Valid() && pages == free && forall b: nat, a: nat :: b < 9 ==> !Live(Abs(), b, a)
    {
      desc, next, chain, freeDesc, word, pages := [], [], seq(9, i => NULL), NULL, map[], free;
      lists, spare, home, frees := seq(9, i => []), [], [], [];
    }

    method GetFreePage() returns (p: nat)
      requires 0 !in pages
      modifies `pages
      ensures if p == 0 then pages == old(pages) == {} else p in old(pages) && pages == old(pages) - {p}
    {
      if pages == {} {
        return 0;
      }
      p :| p in pages;
      pages := pages - {p};
    }

    /** The loop that threads a page of new descriptors together, in front of the spare ones. */
    method ThreadDescs(first: nat)
      modifies `next
      ensures next == old(next) + seq(DESCS - 1, i => first + i + 1) + [freeDesc]
    {
      var bdesc, i := first, DESCS;
      while i > 1
        invariant 1 <= i <= DESCS && bdesc == first + DESCS - i
        invariant next == old(next) + seq(DESCS - i, j => first + j + 1)
      {
        next := next + [bdesc + 1];
        bdesc := bdesc + 1;
        i := i - 1;
      }
      next := next + [freeDesc];
    }

    /** init_bucket_desc; false where it panics. */
    method InitBucketDesc() returns (ok: bool)
      requires Valid()
      modifies this
      ensures ok <==> old(pages) != {}
      ensures !ok ==> pages == {}
      ensures ok ==> Valid() && spare != [] && SameLive(old(Abs()), Abs()) && |pages| == |old(pages)| - 1
      ensures pages <= old(pages)
    {
      hide InvBut, Live;
      ghost var h := Abs();
      HeapSizes(h, NULL);
      var p := GetFreePage();
      if p == 0 {
        return false;
      }
      var first := |desc|;
      desc := desc + seq(DESCS, i => Desc(0, 0, 0, 0));
      ThreadDescs(first);
      freeDesc := first;
      ghost var k := MoreDescs(h, p);
      spare, home, frees := k.spare, k.home, k.frees;
      assert Abs() == k;
      MoreKeeps(h, p);
      forall c: nat, a: nat | c < 9 ensures Live(k, c, a) <==> Live(h, c, a) {
        MoreLive(h, p, c, a);
      }
      ok := true;
    }

    /** The loop that threads the objects of a new page together. */
    method ThreadPage(b: nat, page: nat)
      requires b < 9
      modifies `word
      ensures Set(old(word), word, b, page)
    {
      hide SizeOf, Objects;
      var cp, i := 4096 * page, 4096 / SizeOf(b);
      ObjectsPerPage(b);
      ghost var n := Objects(b);
      assert Object(page, b, 0) == 4096 * page;
      while i > 1
        invariant 1 <= i <= n && cp == Object(page, b, n - i)
        invariant forall j: nat :: j < n - i ==> Word(word, Object(page, b, j)) == Object(page, b, j + 1)
        invariant forall a: nat :: a / 4096 != page ==> Word(word, a) == Word(old(word), a)
      {
        ObjectAt(page, b, n - i);
        forall j: nat | j < n - i ensures Object(page, b, j) != cp {
          ObjectAt(page, b, j);
        }
        word := word[cp := cp + SizeOf(b)];
        cp := cp + SizeOf(b);
        i := i - 1;
      }
      ObjectAt(page, b, n - 1);
      forall j: nat | j < n - 1 ensures Object(page, b, j) != cp {
        ObjectAt(page, b, j);
      }
      word := word[cp := 0];
    }

    method NeedDesc() returns (ok: bool)
      requires Valid()
      modifies this
      ensures ok <==> old(freeDesc) != NULL || old(pages) != {}
      ensures !ok ==> pages == {}
      ensures ok ==> Valid() && spare != [] && SameLive(old(Abs()), Abs())
      ensures ok ==> pages <= old(pages) && |pages| + (if old(freeDesc) == NULL then 1 else 0) == |old(pages)|
    {
      hide InvBut, Live;
      HeapSizes(Abs(), NULL);
      if freeDesc == NULL {
        ok := InitBucketDesc();
      } else {
        ok := true;
      }
    }

    /** malloc's new bucket for size b; NULL where it panics for want of a page. */
    method NewBucket(b: nat) returns (d: int)
      requires Valid() && b < 9
      modifies this
      ensures d == NULL <==> |old(pages)| < if old(freeDesc) == NULL then 2 else 1
      ensures d == NULL ==> pages == {}
      ensures d != NULL ==>
        pages <= old(pages) && |pages| + (if old(freeDesc) == NULL then 2 else 1) == |old(pages)|
      ensures d != NULL ==>
        && 0 <= d && InvBut(Abs(), d) && d < |desc| && home[d] == b && frees[d] != [] && SameLive(old(Abs()), Abs())
    {
      hide InvBut, Live, SizeOf, Objects;
      HeapSizes(Abs(), NULL);
      var ok := NeedDesc();
      if !ok {
        return NULL;
      }
      ghost var h := Abs();
      HeapSizes(h, NULL);
      SpareHead(h);
      d := freeDesc;
      var page := GetFreePage();
      if page == 0 {
        return NULL;
      }
      FitOut(b, page);
      ghost var k := Furnish(h, b, page, word);
      assert Abs() == k by { PagesTwice(h.pages, page); }
      FurnishKeeps(h, b, page, word);
      forall c: nat, a: nat | c < 9 ensures Live(k, c, a) <==> Live(h, c, a) {
        FurnishLive(h, b, page, word, c, a);
      }
    }

    /** Setting up the first spare descriptor for the page and linking it in. */
    method FitOut(b: nat, page: nat)
      requires b < 9 && Sizes(Abs()) && spare != [] && freeDesc == spare[0] < |desc|
      modifies this
      ensures Set(old(word), word, b, page) && Abs() == Furnish(old(Abs()), b, page, word).(pages := old(pages))
    {
      hide SizeOf, Objects, Set;
      var d := freeDesc;
      freeDesc := next[d];
      desc := desc[d := Desc(page, 4096 * page, 0, SizeOf(b))];
      ThreadPage(b, page);
      next := next[d := chain[b]];
      chain := chain[b := d];
      lists, spare, home := lists[b := [d] + lists[b]], Without(spare, 0), home[d := b];
      frees := frees[d := AllObjects(page, b)];
    }

    /** The search along the chain of malloc: a bucket with a free object, or NULL. */
    method FindRoom(b: nat) returns (d: int)
      requires Valid() && b < 9
      ensures |lists| == 9 && |frees| == |home| == |desc|
      ensures d == NULL <==> !Room(Abs(), b)
      ensures d != NULL ==> 0 <= d < |desc| && home[d] == b && frees[d] != []
    {
      hide InvBut;
      ghost var h, i := Abs(), 0;
      HeapSizes(h, NULL);
      d := chain[b];
      ChainHead(h, b, 0);
      while d != NULL && desc[d].freeptr == 0
        invariant i <= |lists[b]| && d == At(lists[b], i) && (d != NULL ==> d < |desc|)
        invariant forall j :: 0 <= j < i ==> lists[b][j] < |frees| && frees[lists[b][j]] == []
        decreases |lists[b]| - i
      {
        ChainHead(h, b, i);
        HasFree(h, d);
        d := next[d];
        i := i + 1;
        ChainHead(h, b, i);
      }
      if d != NULL {
        ChainHead(h, b, i);
        HasFree(h, d);
      }
    }

    /**
      * malloc: an object of the smallest bucket that fits, free before and live now, all others as they were; 0, where
      * the kernel panics, exactly when fewer pages are left than it needs.
      */
    method Malloc(len: nat) returns (r: nat, ghost b: nat)
      requires Valid() && len <= 4096
      modifies this
      ensures Fits(b, len)
      ensures r == 0 <==> |old(pages)| < PageCost(old(Abs()), b)
      ensures r == 0 ==> pages == {}
      ensures r != 0 ==> Valid() && Gained(old(Abs()), Abs(), b, r)
      ensures r != 0 ==> pages <= old(pages) && |pages| + PageCost(old(Abs()), b) == |old(pages)|
      ensures |old(pages)| >= 2 ==> r != 0 && |pages| >= |old(pages)| - 2
      ensures |old(pages)| == 1 && old(freeDesc) != NULL ==> r != 0
      ensures old(Room(Abs(), b)) ==> r != 0 && pages == old(pages)
    {
      hide InvBut, Live, Objects;
      ghost var h := Abs();
      HeapSizes(h, NULL);
      var bdir := 0;
      while SizeOf(bdir) < len
        invariant bdir < 9 && (bdir > 0 ==> SizeOf(bdir - 1) < len)
        decreases 9 - bdir
      {
        bdir := bdir + 1;
      }
      b := bdir;
      var d := FindRoom(bdir);
      if d == NULL {
        d := NewBucket(bdir);
        if d == NULL {
          return 0, b;
        }
      } else {
        YoungToo(h, d);
      }
      ghost var k := Abs();
      HeapSizes(k, d);
      TakeKeeps(k, d, d);
      r := desc[d].freeptr;
      desc := desc[d := desc[d].(freeptr := Word(word, r), refcnt := desc[d].refcnt + 1)];
      frees := frees[d := frees[d][1..]];
      ObjectPositive(k, d);
      forall c: nat, a: nat | c < 9
        ensures !Live(k, b, r) && (Live(Abs(), c, a) <==> Live(k, c, a) || (c == b && a == r))
      {
        TakeLive(k, d, d, c, a);
      }
      assert Gained(h, Abs(), b, r);
    }

    // ---------- free_s ----------

    /** The search of free_s for the bucket with this page, and the one before it on its chain. */
    method FindBucket(page: nat, size: nat, ghost d: nat) returns (bdir: nat, bdesc: int, prev: int)
      requires Valid() && d < |desc| && home[d] < 9 && desc[d].page == page && size <= SizeOf(home[d])
      ensures bdir == home[d] && bdesc == d && NULL <= prev < |desc|
    {
      hide InvBut, SizeOf, Objects;
      HeapSizes(Abs(), NULL);
      HomeOf(Abs(), d);
      bdir, bdesc := 0, NULL;
      while true
        invariant bdir <= home[d]
        decreases 9 - bdir
      {
        prev := NULL;
        if SizeOf(bdir) >= size {
          ChainHead(Abs(), bdir, 0);
          bdesc := chain[bdir];
          ghost var i := 0;
          while bdesc != NULL
            invariant i <= |lists[bdir]| && bdesc == At(lists[bdir], i) && NULL <= prev < |desc|
            invariant bdir == home[d] ==> d in lists[bdir][i..]
            decreases |lists[bdir]| - i
          {
            ChainHead(Abs(), bdir, i);
            if desc[bdesc].page == page {
              SamePage(Abs(), bdesc, d);
              return;
            }
            prev := bdesc;
            bdesc := next[bdesc];
            i := i + 1;
          }
        }
        bdir := bdir + 1;
      }
      assert false;
    }

    /** Unlinking an empty bucket: prev is what the search found, perhaps long ago. */
    method ReleaseBucket(bdir: nat, bdesc: nat, before: int) returns (ghost i: nat)
      requires InvBut(Abs(), bdesc) && bdesc < |desc| && home[bdesc] == bdir < 9 && NULL <= before < |desc|
      modifies this
      ensures i < |old(lists)[bdir]| && old(lists)[bdir][i] == bdesc && (i > 0 ==>
          old(lists)[bdir][i - 1] < |old(desc)|)
      ensures Abs() == Retire(old(Abs()), bdesc, i)
    {
      hide InvBut, SizeOf, Objects;
      ghost var h := Abs();
      HeapSizes(h, bdesc);
      i := PlaceOf(h, bdesc);
      var prev := before;
      if (prev != NULL && next[prev] != bdesc) || (prev == NULL && chain[bdir] != bdesc) {
        prev := FindPrev(bdir, bdesc, i);
      }
      if prev != NULL {
        OnlyPrev(h, prev, bdesc, i);
        next := next[prev := next[bdesc]];
      } else {
        YoungChain(h, bdesc, bdir, 0);
        YoungOnce(h, bdesc, bdir, 0, i);
        chain := chain[bdir := next[bdesc]];
      }
      pages := pages + {desc[bdesc].page};
      next := next[bdesc := freeDesc];
      freeDesc := bdesc;
      ghost var k := Retire(h, bdesc, i);
      lists, spare, home := k.lists, k.spare, k.home;
    }

    /** Searching the predecessor again; NULL when the bucket is first on its chain. */
    method FindPrev(bdir: nat, bdesc: nat, ghost i: nat) returns (prev: int)
      requires InvBut(Abs(), bdesc) && bdir < 9 && Sizes(Abs()) && i < |lists[bdir]| && lists[bdir][i] == bdesc
      ensures if i == 0 then prev == NULL && chain[bdir] == bdesc else prev == lists[bdir][i - 1]
      ensures i > 0 ==> 0 <= prev < |desc| && next[prev] == bdesc
    {
      hide InvBut, SizeOf, Objects;
      ghost var j := 0;
      YoungChain(Abs(), bdesc, bdir, 0);
      prev := chain[bdir];
      while prev != NULL
        invariant j <= |lists[bdir]| && prev == At(lists[bdir], j) && (i > 0 ==> j < i)
        decreases |lists[bdir]| - j
      {
        YoungChain(Abs(), bdesc, bdir, j);
        if next[prev] == bdesc {
          YoungOnce(Abs(), bdesc, bdir, j + 1, i);
          return;
        }
        prev := next[prev];
        j := j + 1;
      }
    }

    /** The heap after the interrupts, if any, that made it w. */
    ghost function Meanwhile(w: Option<Heap>): Heap
      reads this
    {
      if w.Some? then w.value else Abs()
    }

    /** After cli(): the object goes to the front of its bucket's free ones. */
    method TakeBack(obj: nat, bdesc: nat, w: Option<Heap>)
      requires Sizes(Meanwhile(w)) && bdesc < |Meanwhile(w).desc| && Meanwhile(w).desc[bdesc].refcnt > 0
      modifies this
      ensures Abs() == Give(old(Meanwhile(w)), bdesc, obj)
    {
      if w.Some? {
        var h := w.value;
        desc, next, chain, freeDesc, word, pages := h.desc, h.next, h.chain, h.freeDesc, h.word, h.pages;
        lists, spare, home, frees := h.lists, h.spare, h.home, h.frees;
      }
      word := word[obj := desc[bdesc].freeptr];
      desc := desc[bdesc := desc[bdesc].(freeptr := obj, refcnt := desc[bdesc].refcnt - 1)];
      frees := frees[bdesc := [obj] + frees[bdesc]];
    }

    /**
      * free_s. Interrupts between the search and cli() may have made the heap w, in which the object is still live
      * in its bucket. Only the object stops being live, and the page goes back exactly with its last object.
      */
    method FreeS(obj: nat, size: nat, w: Option<Heap>, ghost d: nat, ghost b: nat)
      requires Valid() && LiveIn(Abs(), d, b, obj) && size <= SizeOf(b)
      requires Inv(Meanwhile(w)) && |Meanwhile(w).desc| >= |desc| && LiveIn(Meanwhile(w), d, b, obj)
      modifies this
      ensures Valid()
      ensures var h := old(Meanwhile(w));
        && (forall c: nat, a: nat :: c < 9 ==> (Live(Abs(), c, a) <==> Live(h, c, a) && a != obj))
        && pages == h.pages + (if forall a: nat :: LiveIn(h, d, b, a) ==> a == obj then {obj / 4096} else {})
    {
      hide InvBut, SizeOf, Objects, Live;
      ghost var h := Meanwhile(w);
      HeapSizes(h, NULL);
      var page := obj / 4096;
      var bdir, bdesc, prev := FindBucket(page, size, d);
      GiveKeeps(h, d, obj);
      TakeBack(obj, bdesc, w);
      forall c: nat, a: nat | c < 9 ensures Live(Give(h, d, obj), c, a) <==> Live(h, c, a) && a != obj {
        GiveLive(h, d, obj, c, a);
      }
      ghost var k := Abs();
      LastOne(h, d, obj);
      if desc[bdesc].refcnt == 0 {
        ghost var i := ReleaseBucket(bdir, bdesc, prev);
        RetireKeeps(k, d, i);
        forall c: nat, a: nat | c < 9 ensures Live(Abs(), c, a) <==> Live(k, c, a) {
          RetireLive(k, d, i, c, a);
        }
      } else {
        NotYoung(k, d);
      }
    }
  }

  lemma HeapSizes(h: Heap, young: int)
    requires InvBut(h, young)
    ensures Sizes(h) && 0 !in h.pages && h.freeDesc == At(h.spare, 0) && forall d :: d in h.spare ==> d < |h.desc|
  {
  }

  lemma PagesTwice(s: set<nat>, p: nat)
    ensures s - {p} - {p} == s - {p}
  {
  }

  lemma ObjectsPerPage(b: nat)
    requires b < 9
    ensures 4096 / SizeOf(b) == Objects(b)
  {
  }

  lemma SpareHead(h: Heap)
    requires Inv(h) && h.freeDesc != NULL
    ensures h.spare != [] && h.freeDesc == h.spare[0] && 0 <= h.freeDesc < |h.desc|
  {
    assert h.spare[0] in h.spare;
  }

  lemma ChainHead(h: Heap, b: nat, i: nat)
    requires Inv(h) && b < 9 && i <= |h.lists[b]|
    ensures h.chain[b] == At(h.lists[b], 0)
    ensures i < |h.lists[b]| ==>
      h.lists[b][i] < |h.desc| && h.home[h.lists[b][i]] == b && h.next[h.lists[b][i]] == At(h.lists[b], i + 1)
  {
    hide SizeOf, Objects;
    assert Chained(h, b);
    if i < |h.lists[b]| {
      assert h.lists[b][i] in h.lists[b];
      ListLink(h.next, h.chain[b], h.lists[b], i);
    }
  }

  /** A null freeptr means that the bucket has no free object. */
  lemma HasFree(h: Heap, d: nat)
    requires Inv(h) && d < |h.desc| && h.home[d] < 9
    ensures h.desc[d].freeptr != 0 <==> h.frees[d] != []
  {
    hide SizeOf, Objects;
    assert Kept(h, d, NULL);
    if h.frees[d] != [] {
      assert h.frees[d][0] in h.frees[d];
    }
  }

  lemma YoungToo(h: Heap, d: nat)
    requires Inv(h)
    ensures InvBut(h, d)
  {
    hide SizeOf, Objects, List, Bucket;
    forall e: nat | e < |h.desc| ensures Kept(h, e, d) {
      assert Kept(h, e, NULL);
    }
  }

  lemma ObjectPositive(h: Heap, d: nat)
    requires InvBut(h, d) && d < |h.desc| && h.home[d] < 9 && h.frees[d] != []
    ensures h.frees[d][0] > 0
  {
    hide SizeOf, Objects;
    assert Kept(h, d, d);
    assert h.frees[d][0] in h.frees[d];
  }

  lemma HomeOf(h: Heap, d: nat)
    requires Inv(h) && d < |h.desc| && h.home[d] < 9
    ensures d in h.lists[h.home[d]]
  {
    hide SizeOf, Objects, List;
    assert Kept(h, d, NULL);
  }

  lemma SamePage(h: Heap, d: nat, e: nat)
    requires Inv(h) && d < |h.desc| && e < |h.desc| && h.home[d] < 9 && h.home[e] < 9 &&
        h.desc[d].page == h.desc[e].page
    ensures d == e
  {
  }

  lemma PlaceOf(h: Heap, d: nat) returns (i: nat)
    requires InvBut(h, d) && d < |h.desc| && h.home[d] < 9
    ensures i < |h.lists[h.home[d]]| && h.lists[h.home[d]][i] == d
    ensures i > 0 ==> h.lists[h.home[d]][i - 1] < |h.desc|
    ensures h.next[d] == At(h.lists[h.home[d]], i + 1)
  {
    hide SizeOf, Objects;
    assert Kept(h, d, d);
    var b := h.home[d];
    i :| 0 <= i < |h.lists[b]| && h.lists[b][i] == d;
    YoungChain(h, d, b, i);
    if i > 0 {
      YoungChain(h, d, b, i - 1);
    }
  }

  lemma YoungChain(h: Heap, young: int, b: nat, i: nat)
    requires InvBut(h, young) && b < 9 && i <= |h.lists[b]|
    ensures h.chain[b] == At(h.lists[b], 0)
    ensures i < |h.lists[b]| ==>
      h.lists[b][i] < |h.desc| && h.home[h.lists[b][i]] == b && h.next[h.lists[b][i]] == At(h.lists[b], i + 1)
  {
    hide SizeOf, Objects;
    assert Chained(h, b);
    if i < |h.lists[b]| {
      assert h.lists[b][i] in h.lists[b];
      ListLink(h.next, h.chain[b], h.lists[b], i);
    }
  }

  lemma YoungOnce(h: Heap, young: int, b: nat, i: nat, j: nat)
    requires InvBut(h, young) && b < 9 && i < |h.lists[b]| && j < |h.lists[b]|
    ensures h.lists[b][i] == h.lists[b][j] <==> i == j
  {
    hide SizeOf, Objects;
    assert Chained(h, b);
  }

  /** Whoever links to a bucket is its predecessor, however old the pointer. */
  lemma OnlyPrev(h: Heap, p: nat, d: nat, i: nat)
    requires InvBut(h, d) && p < |h.desc| && d < |h.desc| && h.home[d] < 9 && h.next[p] == d
    requires i < |h.lists[h.home[d]]| && h.lists[h.home[d]][i] == d
    ensures i > 0 && h.lists[h.home[d]][i - 1] == p
  {
    hide SizeOf, Objects;
    var b := h.home[d];
    assert Kept(h, p, d);
    if h.home[p] == 9 {
      var j :| 0 <= j < |h.spare| && h.spare[j] == p;
      ListLink(h.next, h.freeDesc, h.spare, j);
      assert false;
    } else {
      var c := h.home[p];
      var j :| 0 <= j < |h.lists[c]| && h.lists[c][j] == p;
      YoungChain(h, d, c, j);
      YoungChain(h, d, c, j + 1);
      YoungOnce(h, d, b, i, j + 1);
    }
  }

  /** The count reaches 0 with the only live object of the page. */
  lemma LastOne(h: Heap, d: nat, obj: nat)
    requires Inv(h) && d < |h.desc| && h.home[d] < 9 && LiveIn(h, d, h.home[d], obj) && h.desc[d].refcnt > 0
    ensures h.desc[d].page == obj / 4096
    ensures Give(h, d, obj).desc[d].refcnt == 0 <==> forall a: nat :: LiveIn(h, d, h.home[d], a) ==> a == obj
  {
    hide SizeOf, Objects, List;
    var b, k := h.home[d], Give(h, d, obj);
    GiveKeeps(h, d, obj);
    assert Kept(k, d, d);
    AllFree(k.frees[d], k.desc[d].page, b);
    forall a: nat ensures LiveIn(h, d, b, a) && a != obj <==> IsObject(a, h.desc[d].page, b) && a !in k.frees[d] {}
    if k.desc[d].refcnt > 0 {
      var a: nat :| IsObject(a, k.desc[d].page, b) && a !in k.frees[d];
      assert LiveIn(h, d, b, a) && a != obj;
    }
  }

  lemma NotYoung(h: Heap, d: nat)
    requires InvBut(h, d) && d < |h.desc| && h.desc[d].refcnt > 0
    ensures Inv(h)
  {
    hide SizeOf, Objects, List, Bucket;
    forall e: nat | e < |h.desc| ensures Kept(h, e, NULL) {
      assert Kept(h, e, d);
    }
  }
}
