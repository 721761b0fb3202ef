/** The edits that lib/malloc.c makes to the heap, each keeping the invariant. */
module MallocSteps {
  import opened LinkedLists
  import opened MallocState

  /** The objects of other buckets lie in other pages. */
  lemma OtherPage(h: Heap, d: nat, e: nat, young: int)
    requires InvBut(h, young) && d < |h.desc| && e < |h.desc| && d != e && h.home[d] < 9 && h.home[e] < 9
    ensures h.desc[d].page != h.desc[e].page
    ensures forall a :: a in h.frees[e] ==> a / 4096 == h.desc[e].page
  {
    hide SizeOf, Objects;
    assert Kept(h, e, young);
  }

  /** Who is live is read off the pages, homes and free objects alone. */
  lemma LiveSame(h: Heap, k: Heap, b: nat, a: nat)
    requires Sizes(h) && Sizes(k) && |k.desc| >= |h.desc| && b < 9
    requires forall e: nat :: e < |h.desc| ==> (LiveIn(k, e, b, a) <==> LiveIn(h, e, b, a))
    requires forall e: nat :: |h.desc| <= e < |k.desc| ==> k.home[e] == 9
    ensures Live(k, b, a) <==> Live(h, b, a)
  {
    if Live(h, b, a) {
      var d: nat :| LiveIn(h, d, b, a);
      assert LiveIn(k, d, b, a);
    }
    if Live(k, b, a) {
      var d: nat :| LiveIn(k, d, b, a);
      assert LiveIn(h, d, b, a);
    }
  }

  // ---------- handing out an object ----------

  function Take(h: Heap, d: nat): (k: Heap)
    requires Sizes(h) && d < |h.desc| && h.frees[d] != []
    ensures Sizes(k)
  {
    var x := h.desc[d];
    h.(desc := h.desc[d := x.(freeptr := Word(h.word, x.freeptr), refcnt := x.refcnt + 1)],
        frees := h.frees[d := h.frees[d][1..]])
  }

  lemma TakeKeeps(h: Heap, d: nat, young: int)
    requires InvBut(h, young) && d < |h.desc| && h.home[d] < 9 && h.frees[d] != [] && (young == NULL || young == d)
    ensures Inv(Take(h, d)) && h.desc[d].freeptr == h.frees[d][0]
  {
    hide SizeOf, Objects, List;
    var k := Take(h, d);
    assert Kept(h, d, young);
    TakeThread(h.word, h.desc[d].freeptr, h.frees[d]);
    forall e: nat | e < |k.desc| ensures Kept(k, e, NULL) {
      assert Kept(h, e, young);
    }
    forall b: nat | b < 9 ensures Chained(k, b) {
      assert Chained(h, b);
    }
  }

  lemma TakeThread(word: map<nat, nat>, p: nat, s: seq<nat>)
    requires Threaded(word, p, s) && s != [] && Distinct(s)
    ensures p == s[0] && Threaded(word, Word(word, p), s[1..]) && Distinct(s[1..]) && s[0] !in s[1..]
  {
    forall i: nat | i < |s| - 1 ensures Word(word, s[1..][i]) == AtAddr(s[1..], i + 1) {
      assert Word(word, s[i + 1]) == AtAddr(s, i + 2);
    }
    assert Word(word, s[0]) == AtAddr(s, 1);
  }

  /** The object handed out was free and is live now; no other object's state changes. */
  lemma TakeLive(h: Heap, d: nat, young: int, b: nat, a: nat)
    requires InvBut(h, young) && d < |h.desc| && h.home[d] < 9 && h.frees[d] != [] && b < 9
    ensures !Live(h, h.home[d], h.frees[d][0])
    ensures Live(Take(h, d), b, a) <==> Live(h, b, a) || (b == h.home[d] && a == h.frees[d][0])
  {
    hide SizeOf, Objects, List;
    var k, x := Take(h, d), h.frees[d][0];
    assert Kept(h, d, young) && x in h.frees[d];
    TakeThread(h.word, h.desc[d].freeptr, h.frees[d]);
    forall e: nat | e < |h.desc| && h.home[e] < 9 ensures e == d || !IsObject(x, h.desc[e].page, h.home[e]) {
      if e != d {
        OtherPage(h, e, d, young);
      }
    }
    if b == h.home[d] && a == x {
      assert LiveIn(k, d, b, a);
    } else {
      forall e: nat | e < |h.desc| ensures LiveIn(k, e, b, a) <==> LiveIn(h, e, b, a) {}
      LiveSame(h, k, b, a);
    }
  }

  // ---------- taking one back ----------

  function Give(h: Heap, d: nat, a: nat): (k: Heap)
    requires Sizes(h) && d < |h.desc| && h.desc[d].refcnt > 0
    ensures Sizes(k)
  {
    var x := h.desc[d];
    h.(word := h.word[a := x.freeptr], desc := h.desc[d := x.(freeptr := a, refcnt := x.refcnt - 1)],
       frees := h.frees[d := [a] + h.frees[d]])
  }

  lemma GiveKeeps(h: Heap, d: nat, a: nat)
    requires Inv(h) && d < |h.desc| && h.home[d] < 9 && LiveIn(h, d, h.home[d], a)
    ensures h.desc[d].refcnt > 0 && InvBut(Give(h, d, a), d)
  {
    hide SizeOf, Objects, List;
    assert Kept(h, d, NULL);
    var k := Give(h, d, a);
    GiveThread(h.word, h.desc[d].freeptr, h.frees[d], a);
    forall e: nat | e < |k.desc| ensures Kept(k, e, d) {
      assert Kept(h, e, NULL);
      if e != d && h.home[e] < 9 {
        OtherPage(h, d, e, NULL);
        ThreadFrame(h.word, k.word, h.desc[e].freeptr, h.frees[e]);
      }
    }
    forall b: nat | b < 9 ensures Chained(k, b) {
      assert Chained(h, b);
    }
  }

  lemma GiveThread(word: map<nat, nat>, p: nat, s: seq<nat>, a: nat)
    requires Threaded(word, p, s) && Distinct(s) && a !in s
    ensures Threaded(word[a := p], a, [a] + s) && Distinct([a] + s)
  {
    forall i: nat | i < |s| + 1 ensures Word(word[a := p], ([a] + s)[i]) == AtAddr([a] + s, i + 1) {
      if i > 0 {
        assert Word(word, s[i - 1]) == AtAddr(s, i);
      }
    }
  }

  lemma ThreadFrame(word: map<nat, nat>, word': map<nat, nat>, p: nat, s: seq<nat>)
    requires Threaded(word, p, s) && forall a :: a in s ==> Word(word', a) == Word(word, a)
    ensures Threaded(word', p, s)
  {
  }

  /** Only the object taken back stops being live. */
  lemma GiveLive(h: Heap, d: nat, a: nat, b: nat, c: nat)
    requires Inv(h) && d < |h.desc| && h.home[d] < 9 && LiveIn(h, d, h.home[d], a) && h.desc[d].refcnt > 0 && b < 9
    ensures Live(Give(h, d, a), b, c) <==> Live(h, b, c) && c != a
  {
    hide SizeOf, Objects, List, Threaded, Distinct;
    var k := Give(h, d, a);
    forall e: nat | e < |h.desc| && h.home[e] < 9 ensures e == d || !IsObject(a, h.desc[e].page, h.home[e]) {
      if e != d {
        OtherPage(h, d, e, NULL);
      }
    }
    if c == a {
      forall e: nat ensures !LiveIn(k, e, b, a) {}
    } else {
      forall e: nat | e < |h.desc| ensures LiveIn(k, e, b, c) <==> LiveIn(h, e, b, c) {}
      LiveSame(h, k, b, c);
    }
  }

  // ---------- giving back an empty bucket ----------

  /** d, the i-th of its chain, leaves it for the spare descriptors, and its page goes back. */
  function Retire(h: Heap, d: nat, i: nat): (k: Heap)
    requires Sizes(h) && d < |h.desc| && h.home[d] < 9 && i < |h.lists[h.home[d]]| && (i > 0 ==>
        h.lists[h.home[d]][i - 1] < |h.desc|)
    ensures Sizes(k)
  {
    var b := h.home[d];
    var q := h.lists[b];
    var next := if i > 0 then h.next[q[i - 1] := h.next[d]] else h.next;
    h.(next := next[d := h.freeDesc], chain := if i == 0 then h.chain[b := h.next[d]] else h.chain, freeDesc := d,
       pages := h.pages + {h.desc[d].page}, lists := h.lists[b := Without(q, i)], spare := [d] + h.spare,
           home := h.home[d := 9])
  }

  lemma RetireKeeps(h: Heap, d: nat, i: nat)
    requires InvBut(h, d) && d < |h.desc| && h.home[d] < 9 && i < |h.lists[h.home[d]]| && h.lists[h.home[d]][i] == d
    ensures i > 0 ==> h.lists[h.home[d]][i - 1] < |h.desc|
    ensures Inv(Retire(h, d, i))
  {
    hide SizeOf, Objects, List, Threaded, Distinct;
    var b := h.home[d];
    var q := h.lists[b];
    assert Chained(h, b) && Kept(h, d, d);
    if i > 0 {
      assert q[i - 1] in q;
    }
    var k := Retire(h, d, i);
    RetireLists(h, d, i);
    forall e: nat | e < |k.desc| ensures Kept(k, e, NULL) {
      assert Kept(h, e, d);
      ListIsDistinct(h, b);
      DistinctWithout(q, i, |h.desc|);
      if e != d && h.home[e] < 9 {
        OtherPage(h, d, e, d);
      }
    }
  }

  lemma ListIsDistinct(h: Heap, b: nat)
    requires Sizes(h) && b < 9 && Chained(h, b)
    ensures Distinct(h.lists[b]) && InRange(h.lists[b], |h.desc|)
  {
    forall i | 0 <= i < |h.lists[b]| ensures h.lists[b][i] < |h.desc| {
      assert h.lists[b][i] in h.lists[b];
    }
  }

  lemma RetireLists(h: Heap, d: nat, i: nat)
    requires InvBut(h, d) && d < |h.desc| && h.home[d] < 9 && i < |h.lists[h.home[d]]| && h.lists[h.home[d]][i] == d
    requires i > 0 ==> h.lists[h.home[d]][i - 1] < |h.desc|
    ensures var k := Retire(h, d, i);
            && (forall c: nat :: c < 9 ==> Chained(k, c)) && List(k.next, k.freeDesc, k.spare)
            && forall e :: e in k.spare ==> e < |k.desc| && k.home[e] == 9
  {
    hide SizeOf, Objects, List, Threaded, Bucket, Kept;
    var b, k := h.home[d], Retire(h, d, i);
    var q := h.lists[b];
    assert Chained(h, b);
    ListIsDistinct(h, b);
    DistinctWithout(q, i, |h.desc|);
    ListRemove(h.next, h.chain[b], q, i);
    var next := if i > 0 then h.next[q[i - 1] := h.next[d]] else h.next;
    if i > 0 {
      assert q[i - 1] in q;
    }
    HeadOf(h, b);
    ListFrame(h.next, next, h.freeDesc, h.spare);
    assert d !in h.spare;
    ListPush(next, h.freeDesc, h.spare, d);
    forall c: nat | c < 9 ensures Chained(k, c) {
      assert Chained(h, c);
      if c == b {
        ListFrame(next, k.next, k.chain[b], Without(q, i));
      } else {
        ListFrame(h.next, k.next, h.chain[c], h.lists[c]);
      }
    }
  }

  lemma HeadOf(h: Heap, b: nat)
    requires Sizes(h) && b < 9 && Chained(h, b)
    ensures h.chain[b] == At(h.lists[b], 0)
  {
  }

  lemma RetireLive(h: Heap, d: nat, i: nat, b: nat, a: nat)
    requires InvBut(h, d) && d < |h.desc| && h.home[d] < 9 && i < |h.lists[h.home[d]]| && h.lists[h.home[d]][i] == d
    requires i > 0 ==> h.lists[h.home[d]][i - 1] < |h.desc|
    requires h.desc[d].refcnt == 0 && b < 9
    ensures Live(Retire(h, d, i), b, a) <==> Live(h, b, a)
  {
    hide SizeOf, Objects, List, Threaded;
    assert Kept(h, d, d);
    AllFree(h.frees[d], h.desc[d].page, h.home[d]);
    forall e: nat | e < |h.desc| ensures LiveIn(Retire(h, d, i), e, b, a) <==> LiveIn(h, e, b, a) {}
    LiveSame(h, Retire(h, d, i), b, a);
  }

  // ---------- a new bucket ----------

  function AllObjects(page: nat, b: nat): (s: seq<nat>)
    requires b < 9
    ensures |s| == Objects(b) && forall i :: 0 <= i < |s| ==> s[i] == Object(page, b, i)
  {
    seq(Objects(b), i requires i >= 0 => Object(page, b, i))
  }

  /** The first spare descriptor gets a page, threaded by word, and heads the chain of bucket b. */
  function Furnish(h: Heap, b: nat, page: nat, word: map<nat, nat>): (k: Heap)
    requires Sizes(h) && b < 9 && h.spare != [] && h.spare[0] < |h.desc|
    ensures Sizes(k)
  {
    var d := h.spare[0];
    h.(desc := h.desc[d := Desc(page, 4096 * page, 0, SizeOf(b))], next := h.next[d := h.chain[b]],
        chain := h.chain[b := d],
       freeDesc := h.next[d], word := word, pages := h.pages - {page}, lists := h.lists[b := [d] + h.lists[b]],
       spare := Without(h.spare, 0), home := h.home[d := b], frees := h.frees[d := AllObjects(page, b)])
  }

  /** What the set-up loop writes: a thread through all objects of the page, and nothing elsewhere. */
  ghost predicate Set(word: map<nat, nat>, word': map<nat, nat>, b: nat, page: nat)
    requires b < 9
  {
    && Threaded(word', 4096 * page, AllObjects(page, b))
    && forall a: nat :: a / 4096 != page ==> Word(word', a) == Word(word, a)
  }

  lemma FurnishKeeps(h: Heap, b: nat, page: nat, word: map<nat, nat>)
    requires Inv(h) && b < 9 && h.spare != [] && page in h.pages && Set(h.word, word, b, page)
    ensures h.spare[0] < |h.desc| && InvBut(Furnish(h, b, page, word), h.spare[0])
  {
    hide SizeOf, Objects, List, Threaded, Distinct;
    var d := h.spare[0];
    assert d in h.spare;
    var k := Furnish(h, b, page, word);
    SpareIsDistinct(h);
    DistinctWithout(h.spare, 0, |h.desc|);
    FurnishLists(h, b, page, word);
    FreshBucket(h, b, page, word);
    forall e: nat | e < |k.desc| ensures Kept(k, e, d) {
      assert Kept(h, e, NULL);
      if e != d && h.home[e] < 9 {
        ThreadFrame(h.word, k.word, h.desc[e].freeptr, h.frees[e]) by { InOwnPage(h, e); }
      }
    }
    forall e: nat | e < |h.desc| && h.home[e] < 9 ensures h.desc[e].page != page {
      assert Kept(h, e, NULL);
    }
  }

  lemma InOwnPage(h: Heap, e: nat)
    requires Inv(h) && e < |h.desc| && h.home[e] < 9
    ensures h.desc[e].page !in h.pages && forall a :: a in h.frees[e] ==> a / 4096 == h.desc[e].page
  {
    assert Kept(h, e, NULL);
  }

  lemma SpareIsDistinct(h: Heap)
    requires Inv(h)
    ensures Distinct(h.spare) && InRange(h.spare, |h.desc|)
  {
    forall i | 0 <= i < |h.spare| ensures h.spare[i] < |h.desc| {
      assert h.spare[i] in h.spare;
    }
  }

  lemma FreshBucket(h: Heap, b: nat, page: nat, word: map<nat, nat>)
    requires Inv(h) && b < 9 && h.spare != [] && h.spare[0] < |h.desc| && page in h.pages && Set(h.word, word, b, page)
    ensures Bucket(Furnish(h, b, page, word), h.spare[0], b)
  {
    hide SizeOf, Objects, List, Threaded;
    var s := AllObjects(page, b);
    forall i: nat | i < |s| ensures IsObject(s[i], page, b) && Number(s[i], b) == i {
      ObjectAt(page, b, i);
    }
    forall i, j | 0 <= i < j < |s| ensures s[i] != s[j] {
      assert Number(s[i], b) != Number(s[j], b);
    }
  }

  lemma FurnishLists(h: Heap, b: nat, page: nat, word: map<nat, nat>)
    requires Inv(h) && b < 9 && h.spare != [] && h.spare[0] < |h.desc|
    ensures var k := Furnish(h, b, page, word);
            && (forall c: nat :: c < 9 ==> Chained(k, c)) && List(k.next, k.freeDesc, k.spare)
            && forall e :: e in k.spare ==> e < |k.desc| && k.home[e] == 9
  {
    hide SizeOf, Objects, List, Threaded, Bucket, Kept;
    var d, k := h.spare[0], Furnish(h, b, page, word);
    assert d in h.spare;
    SpareIsDistinct(h);
    DistinctWithout(h.spare, 0, |h.desc|);
    ListRemove(h.next, h.freeDesc, h.spare, 0);
    ListFrame(h.next, k.next, k.freeDesc, k.spare);
    forall c: nat | c < 9 ensures Chained(k, c) {
      assert Chained(h, c);
      if c == b {
        ListPush(h.next, h.chain[b], h.lists[b], d);
      } else {
        ListFrame(h.next, k.next, h.chain[c], h.lists[c]);
      }
    }
  }

  lemma FurnishLive(h: Heap, b: nat, page: nat, word: map<nat, nat>, c: nat, a: nat)
    requires Inv(h) && b < 9 && h.spare != [] && h.spare[0] < |h.desc| && c < 9
    ensures Live(Furnish(h, b, page, word), c, a) <==> Live(h, c, a)
  {
    hide SizeOf, Objects, List, Threaded, Distinct;
    var d, k := h.spare[0], Furnish(h, b, page, word);
    assert d in h.spare;
    if IsObject(a, page, b) {
      ObjectNumber(a, page, b);
      assert AllObjects(page, b)[Number(a, b)] == a;
    }
    forall e: nat | e < |h.desc| ensures LiveIn(k, e, c, a) <==> LiveIn(h, e, c, a) {}
    LiveSame(h, k, c, a);
  }

  // ---------- a page of new descriptors ----------

  const DESCS: nat := 256 // PAGE_SIZE/sizeof(struct bucket_desc)

  /** init_bucket_desc with the page p. */
  function MoreDescs(h: Heap, p: nat): (k: Heap)
    requires Sizes(h)
    ensures Sizes(k)
  {
    var n := |h.desc|;
    h.(desc := h.desc + seq(DESCS, i => Desc(0, 0, 0, 0)),
       next := h.next + seq(DESCS - 1, i => n + i + 1) + [h.freeDesc],
       freeDesc := n, pages := h.pages - {p},
       spare := seq(DESCS, i requires 0 <= i => n + i) + h.spare, home := h.home + seq(DESCS, i => 9),
       frees := h.frees + seq(DESCS, i => []))
  }

  lemma MoreKeeps(h: Heap, p: nat)
    requires Inv(h)
    ensures Inv(MoreDescs(h, p)) && MoreDescs(h, p).spare != []
  {
    hide SizeOf, Objects, List, Threaded, Distinct;
    var k, n := MoreDescs(h, p), |h.desc|;
    MoreSpare(h, p);
    forall e: nat | e < |k.desc| ensures Kept(k, e, NULL) {
      if e < n {
        assert Kept(h, e, NULL);
      } else {
        assert k.spare[e - n] == e;
      }
    }
    forall b: nat | b < 9 ensures Chained(k, b) {
      assert Chained(h, b);
      ListFrame(h.next, k.next, h.chain[b], h.lists[b]);
    }
  }

  lemma MoreSpare(h: Heap, p: nat)
    requires Inv(h)
    ensures var k := MoreDescs(h, p);
            List(k.next, k.freeDesc, k.spare) && forall e :: e in k.spare ==> e < |k.desc| && k.home[e] == 9
  {
    hide SizeOf, Objects, Threaded, Kept, Chained;
    var k, n := MoreDescs(h, p), |h.desc|;
    SpareIsDistinct(h);
    forall i, j | 0 <= i < j < |k.spare| ensures k.spare[i] != k.spare[j] {
      if j >= DESCS {
        assert k.spare[j] == h.spare[j - DESCS];
        if i >= DESCS {
          Same(h.spare, i - DESCS, j - DESCS);
        }
      }
    }
    forall i: nat | i < |k.spare| ensures NodeAt(k.next, k.spare, i) {
      if i >= DESCS {
        ListLink(h.next, h.freeDesc, h.spare, i - DESCS);
      }
    }
  }

  lemma MoreLive(h: Heap, p: nat, b: nat, a: nat)
    requires Sizes(h) && b < 9
    ensures Live(MoreDescs(h, p), b, a) <==> Live(h, b, a)
  {
    var k := MoreDescs(h, p);
    forall e: nat | e < |h.desc| ensures LiveIn(k, e, b, a) <==> LiveIn(h, e, b, a) {}
    LiveSame(h, k, b, a);
  }
}
