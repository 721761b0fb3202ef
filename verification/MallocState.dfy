/** The bucket allocator of lib/malloc.c: descriptors, their chains, and the free objects threaded through each page. */
module MallocState {
  import opened Arithmetic
  import opened FiniteSets
  import opened LinkedLists

  /** bucket_dir: nine sizes, each bucket one page. */
  function SizeOf(b: nat): (s: nat)
    requires b < 9
    ensures s > 0
  {
    match b
    case 0 => 16 case 1 => 32 case 2 => 64 case 3 => 128 case 4 => 256
    case 5 => 512 case 6 => 1024 case 7 => 2048 case _ => 4096
  }

  /** How many objects a page holds. */
  function Objects(b: nat): (n: nat)
    requires b < 9
    ensures n > 0
  {
    match b
    case 0 => 256 case 1 => 128 case 2 => 64 case 3 => 32 case 4 => 16 case 5 => 8 case 6 => 4 case 7 => 2 case _ => 1
  }

  /** bucket_desc without its link. */
  datatype Desc = Desc(page: nat, freeptr: nat, refcnt: nat, size: nat)

  /**
    * Descriptors and their links, the nine chains, the spare descriptors, the words the allocator keeps in free
    * objects, and the free pages of the machine. lists and spare spell out the chains, home says which one a
    * descriptor is on (9 is spare), frees are the free objects of each bucket in order.
    */
  datatype Heap = Heap(
    desc: seq<Desc>, next: seq<int>, chain: seq<int>, freeDesc: int, word: map<nat, nat>, pages: set<nat>,
    lists: seq<seq<nat>>, spare: seq<nat>, home: seq<nat>, frees: seq<seq<nat>>)

  /** a is the address of an object of bucket size b on the page. */
  predicate IsObject(a: nat, page: nat, b: nat)
    requires b < 9
  {
    a / 4096 == page && a % SizeOf(b) == 0
  }

  function Number(a: nat, b: nat): nat
    requires b < 9
  {
    a % 4096 / SizeOf(b)
  }

  function Object(page: nat, b: nat, i: nat): nat
    requires b < 9
  {
    4096 * page + i * SizeOf(b)
  }

  lemma SizesFit(b: nat)
    requires b < 9
    ensures SizeOf(b) * Objects(b) == 4096
  {
  }

  lemma ObjectNumber(a: nat, page: nat, b: nat)
    requires b < 9 && IsObject(a, page, b)
    ensures Number(a, b) < Objects(b) && a == Object(page, b, Number(a, b))
    ensures 4096 * page <= a && a + SizeOf(b) <= 4096 * page + 4096
  {
    hide SizeOf, Objects;
    SizesFit(b);
    InPage(a, page, SizeOf(b), Objects(b));
  }

  lemma ObjectAt(page: nat, b: nat, i: nat)
    requires b < 9 && i < Objects(b)
    ensures IsObject(Object(page, b, i), page, b) && Number(Object(page, b, i), b) == i
    ensures i + 1 < Objects(b) ==> Object(page, b, i + 1) == Object(page, b, i) + SizeOf(b)
  {
    hide SizeOf, Objects;
    SizesFit(b);
    FromPage(page, SizeOf(b), Objects(b), i);
    Distribute(SizeOf(b), i, 1);
  }

  /** Objects of size s in a page of n of them. */
  lemma InPage(a: nat, page: nat, s: nat, n: nat)
    requires s > 0 && s * n == 4096 && a / 4096 == page && a % s == 0
    ensures a % 4096 / s < n && a == 4096 * page + a % 4096 / s * s
    ensures 4096 * page <= a && a + s <= 4096 * page + 4096
  {
    var k, w, m := a / s, a % 4096, n * page;
    Euclid(a, s);
    Euclid(a, 4096);
    Assoc(s, n, page);
    if k < m {
      StepApart(s, k, m);
    }
    var i := k - m;
    Distribute(s, m, i);
    if i >= n {
      LessTimes(n, i, s);
    } else {
      StepApart(s, i, n);
    }
    DivModUnique(w, s, i, 0);
  }

  lemma FromPage(page: nat, s: nat, n: nat, i: nat)
    requires s > 0 && s * n == 4096 && i < n
    ensures var a := 4096 * page + i * s; a / 4096 == page && a % s == 0 && a % 4096 / s == i
  {
    var a := 4096 * page + i * s;
    StepApart(s, i, n);
    assert i * s == s * i;
    Assoc(s, n, page);
    Distribute(s, n * page, i);
    DivModUnique(a, s, n * page + i, 0);
    DivModUnique(a, 4096, page, i * s);
    DivModUnique(i * s, s, i, 0);
  }

  function AtAddr(s: seq<nat>, i: nat): nat { if i < |s| then s[i] else 0 }

  function Word(word: map<nat, nat>, a: nat): nat { if a in word then word[a] else 0 }

  /** p and the words form the list s of addresses, ended by 0. */
  ghost predicate Threaded(word: map<nat, nat>, p: nat, s: seq<nat>) {
    p == AtAddr(s, 0) && forall i: nat :: i < |s| ==> Word(word, s[i]) == AtAddr(s, i + 1)
  }

  ghost predicate Bucket(h: Heap, d: nat, b: nat)
    requires Sizes(h) && d < |h.desc| && b < 9
  {
    var x, s := h.desc[d], h.frees[d];
    && x.size == SizeOf(b) && x.page > 0 && x.page !in h.pages
    && x.refcnt + |s| == Objects(b) && Distinct(s) && (forall a :: a in s ==> IsObject(a, x.page, b))
    && Threaded(h.word, x.freeptr, s)
  }

  ghost predicate Sizes(h: Heap) {
    |h.chain| == |h.lists| == 9 && |h.next| == |h.home| == |h.frees| == |h.desc|
  }

  ghost predicate Chained(h: Heap, b: nat)
    requires Sizes(h) && b < 9
  {
    List(h.next, h.chain[b], h.lists[b]) && forall d :: d in h.lists[b] ==> d < |h.desc| && h.home[d] == b
  }

  /** Where descriptor d is, and that its bucket is in order; only the one just made may have no object handed out. */
  ghost predicate Kept(h: Heap, d: nat, young: int)
    requires Sizes(h) && d < |h.desc|
  {
    var b := h.home[d];
    && b <= 9
    && if b == 9 then d in h.spare
       else d in h.lists[b] && Bucket(h, d, b) && (d != young ==> h.desc[d].refcnt > 0)
  }

  ghost predicate OnePage(h: Heap)
    requires Sizes(h)
  {
    forall d: nat, e: nat | d < |h.desc| && e < |h.desc| ::
      h.home[d] < 9 && h.home[e] < 9 && h.desc[d].page == h.desc[e].page ==> d == e
  }

  ghost predicate InvBut(h: Heap, young: int) {
    && Sizes(h) && 0 !in h.pages
    && (forall b: nat :: b < 9 ==> Chained(h, b))
    && List(h.next, h.freeDesc, h.spare) && (forall d :: d in h.spare ==> d < |h.desc| && h.home[d] == 9)
    && (forall d: nat :: d < |h.desc| ==> Kept(h, d, young)) && OnePage(h)
  }

  ghost predicate Inv(h: Heap) { InvBut(h, NULL) }

  // ---------- objects ----------

  /** Object a of bucket size b is handed out, from descriptor d. */
  ghost predicate LiveIn(h: Heap, d: nat, b: nat, a: nat)
    requires Sizes(h)
  {
    d < |h.desc| && b < 9 && h.home[d] == b && IsObject(a, h.desc[d].page, b) && a !in h.frees[d]
  }

  ghost predicate Live(h: Heap, b: nat, a: nat)
    requires Sizes(h)
  {
    exists d: nat :: LiveIn(h, d, b, a)
  }

  /** Objects handed out never overlap, and lie in pages that are not free. */
  lemma LiveApart(h: Heap, b: nat, a: nat, b': nat, a': nat)
    requires Inv(h) && Live(h, b, a) && Live(h, b', a')
    ensures a > 0 && a / 4096 !in h.pages && a % SizeOf(b) == 0 && (a + SizeOf(b) - 1) / 4096 == a / 4096
    ensures (a == a' && b == b') || a + SizeOf(b) <= a' || a' + SizeOf(b') <= a
  {
    hide SizeOf, Objects, List, Threaded, Distinct;
    var d: nat :| LiveIn(h, d, b, a);
    var e: nat :| LiveIn(h, e, b', a');
    assert Kept(h, d, NULL) && Kept(h, e, NULL);
    var p, q := h.desc[d].page, h.desc[e].page;
    ObjectNumber(a, p, b);
    ObjectNumber(a', q, b');
    if p == q {
      if a < a' {
        Multiples(a, a', SizeOf(b));
      } else if a' < a {
        Multiples(a', a, SizeOf(b));
      }
    }
  }

  lemma Multiples(x: nat, y: nat, s: nat)
    requires s > 0 && x % s == 0 && y % s == 0 && x < y
    ensures x + s <= y
  {
    var i, j := x / s, y / s;
    assert x == s * i && y == s * j;
    if i >= j {
      LessTimes(j, i, s);
    } else {
      LessTimes(i + 1, j, s);
    }
  }

  /** A bucket whose every object is free has handed out none, and the other way round; young is the one just made. */
  lemma NoneLive(h: Heap, d: nat, b: nat, young: int)
    requires InvBut(h, young) && d < |h.desc| && h.home[d] == b < 9
    ensures h.desc[d].refcnt == 0 <==> forall a: nat :: !LiveIn(h, d, b, a)
  {
    assert Kept(h, d, young);
    AllFree(h.frees[d], h.desc[d].page, b);
    if h.desc[d].refcnt > 0 {
      var a: nat :| IsObject(a, h.desc[d].page, b) && a !in h.frees[d];
      assert LiveIn(h, d, b, a);
    }
  }

  /** As many distinct objects as a page holds are all its objects, and fewer are not. */
  lemma AllFree(s: seq<nat>, page: nat, b: nat)
    requires b < 9 && Distinct(s) && forall a :: a in s ==> IsObject(a, page, b)
    ensures |s| == Objects(b) ==> forall a: nat :: IsObject(a, page, b) ==> a in s
    ensures |s| < Objects(b) ==> exists a: nat :: IsObject(a, page, b) && a !in s
  {
    hide SizeOf, Objects;
    var n := Numbers(s, page, b);
    var all := Below(Objects(b));
    assert n <= all;
    if |s| == Objects(b) {
      SubsetEqual(n, all);
      forall a: nat | IsObject(a, page, b) ensures a in s {
        ObjectNumber(a, page, b);
        assert Number(a, b) in n;
        var x :| x in s && Number(x, b) == Number(a, b);
        ObjectNumber(x, page, b);
      }
    } else if |s| < Objects(b) {
      assert n != all;
      var i :| i in all && i !in n;
      ObjectAt(page, b, i);
      assert Object(page, b, i) !in s;
    }
  }

  /** The numbers of a list of distinct objects. */
  lemma {:induction false} Numbers(s: seq<nat>, page: nat, b: nat) returns (n: set<nat>)
    requires b < 9 && Distinct(s) && forall a :: a in s ==> IsObject(a, page, b)
    ensures |n| == |s| && (forall i :: i in n ==> i < Objects(b))
    ensures forall i :: i in n <==> exists a :: a in s && Number(a, b) == i
  {
    hide SizeOf, Objects;
    n := {};
    if s != [] {
      var a, t := s[0], s[1..];
      var m := Numbers(t, page, b);
      ObjectNumber(a, page, b);
      if Number(a, b) in m {
        var x :| x in t && Number(x, b) == Number(a, b);
        ObjectNumber(x, page, b);
        assert false;
      }
      n := m + {Number(a, b)};
      forall i ensures i in n <==> exists x :: x in s && Number(x, b) == i {
        assert forall x :: x in s <==> x == a || x in t;
      }
    }
  }
}
