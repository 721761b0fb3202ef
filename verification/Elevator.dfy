/** The request lists of kernel/blk_drv: add_request and end_request for requests of buffers. */
module Elevator {
  import opened LinkedLists

  const NR_REQUEST: nat := 32
  const NR_BLK_DEV: nat := 7

  /** READ is 0 and WRITE is 1; dev is -1 in a free slot. */
  datatype Request = Request(cmd: nat, dev: int, sector: nat)

  /** IN_ORDER. */
  predicate InOrder(s: Request, t: Request) {
    s.cmd < t.cmd || (s.cmd == t.cmd && (s.dev < t.dev || (s.dev == t.dev && s.sector < t.sector)))
  }

  lemma OrderIsTotal(s: Request, t: Request, u: Request)
    ensures s == t || InOrder(s, t) || InOrder(t, s)
    ensures !InOrder(s, s) && !(InOrder(s, t) && InOrder(t, s))
    ensures InOrder(s, t) && InOrder(t, u) ==> InOrder(s, u)
  {
  }

  // ---------- the order of a queue ----------

  ghost predicate Drop(q: seq<Request>, i: nat)
  {
    i + 1 < |q| && !InOrder(q[i], q[i + 1])
  }

  /** The queue is one sweep over the disk, or the rest of a sweep and then the next one. */
  ghost predicate TwoSweeps(q: seq<Request>) {
    forall i: nat, j: nat :: Drop(q, i) && Drop(q, j) ==> i == j
  }

  ghost predicate NoTwins(q: seq<Request>) {
    forall i, j :: 0 <= i < j < |q| ==> q[i] != q[j]
  }

  function Inserted<T>(q: seq<T>, k: nat, r: T): seq<T>
    requires k <= |q|
  {
    q[..k] + [r] + q[k..]
  }

  /** The test of add_request's loop for putting r after place i. */
  predicate GoesAfter(q: seq<Request>, i: nat, r: Request)
    requires i + 1 < |q|
  {
    (InOrder(q[i], r) || !InOrder(q[i], q[i + 1])) && InOrder(r, q[i + 1])
  }

  /** Where the loop stops: after the first place that will do, or after the last. */
  ghost predicate StopsAt(q: seq<Request>, k: nat, r: Request) {
    && 0 < k <= |q|
    && (forall i: nat :: i + 1 < k ==> !GoesAfter(q, i, r))
    && (k < |q| ==> GoesAfter(q, k - 1, r))
  }

  lemma InsertKeepsSweeps(q: seq<Request>, k: nat, r: Request)
    requires TwoSweeps(q) && StopsAt(q, k, r) && r !in q
    ensures TwoSweeps(Inserted(q, k, r))
  {
    var p := Inserted(q, k, r);
    forall i: nat, j: nat | Drop(p, i) && Drop(p, j) ensures i == j {
      if k < |q| {
        InsertMiddle(q, k, r, i);
        InsertMiddle(q, k, r, j);
      } else if i != j {
        InsertLast(q, r, i);
        InsertLast(q, r, j);
        var d := if i < j then i else j;
        NoPlaceLeft(q, r, d);
      }
    }
  }

  /** In the middle a drop of the new queue is a drop of the old one. */
  lemma InsertMiddle(q: seq<Request>, k: nat, r: Request, i: nat)
    requires 0 < k < |q| && GoesAfter(q, k - 1, r) && Drop(Inserted(q, k, r), i)
    ensures if i < k then Drop(q, i) else i > k && Drop(q, i - 1)
    ensures Drop(Inserted(q, k, r), k - 1) ==> Drop(q, k - 1)
  {
    OrderIsTotal(q[k - 1], r, q[k]);
  }

  lemma InsertLast(q: seq<Request>, r: Request, i: nat)
    requires q != [] && Drop(Inserted(q, |q|, r), i)
    ensures if i + 1 < |q| then Drop(q, i) else i == |q| - 1 && !InOrder(q[|q| - 1], r)
  {
  }

  /** With a drop at d, a request that found no place after it belongs behind the last one. */
  lemma NoPlaceLeft(q: seq<Request>, r: Request, d: nat)
    requires TwoSweeps(q) && Drop(q, d) && r !in q && forall i: nat :: i + 1 < |q| ==> !GoesAfter(q, i, r)
    ensures InOrder(q[|q| - 1], r)
  {
    assert !GoesAfter(q, d, r);
    OrderIsTotal(r, q[d + 1], r);
    Climb(q, r, d, d + 1);
  }

  lemma {:induction false} Climb(q: seq<Request>, r: Request, d: nat, i: nat)
    requires TwoSweeps(q) && Drop(q, d) && d < i < |q| && r !in q && InOrder(q[i], r)
    requires forall j: nat :: j + 1 < |q| ==> !GoesAfter(q, j, r)
    ensures InOrder(q[|q| - 1], r)
    decreases |q| - i
  {
    if i + 1 < |q| {
      assert !GoesAfter(q, i, r);
      OrderIsTotal(q[i + 1], r, r);
      Climb(q, r, d, i + 1);
    }
  }

  lemma TailKeepsSweeps(q: seq<Request>)
    requires TwoSweeps(q) && q != []
    ensures TwoSweeps(q[1..])
  {
    forall i: nat, j: nat | Drop(q[1..], i) && Drop(q[1..], j) ensures i == j {
      assert Drop(q, i + 1) && Drop(q, j + 1);
    }
  }

  /** r is served before s in a sweep: reads before writes, then by device, then by ascending sector. */
  predicate Earlier(r: Request, s: Request) {
    if r.cmd != s.cmd then r.cmd < s.cmd else if r.dev != s.dev then r.dev < s.dev else r.sector < s.sector
  }

  /** A queue is at most two sweeps, each ascending from its first to its last request. */
  lemma {:induction false} SweepsAscend(q: seq<Request>) returns (c: nat)
    requires TwoSweeps(q)
    ensures c <= |q|
    ensures forall i, j :: 0 <= i < j < |q| && (j < c || c <= i) ==> Earlier(q[i], q[j])
  {
    if d: nat :| Drop(q, d) {
      c := d + 1;
    } else {
      c := |q|;
    }
    forall i, j | 0 <= i < j < |q| && (j < c || c <= i) ensures Earlier(q[i], q[j]) {
      SweepAscends(q, i, j);
    }
  }

  lemma {:induction false} SweepAscends(q: seq<Request>, i: nat, j: nat)
    requires i < j < |q| && forall k: nat :: i <= k < j ==> !Drop(q, k)
    ensures Earlier(q[i], q[j])
    decreases j - i
  {
    assert !Drop(q, j - 1);
    if i + 1 < j {
      SweepAscends(q, i, j - 1);
    }
  }

  // ---------- the lists ----------

  function Major(dev: int): (m: int)
    ensures m * 256 <= dev < m * 256 + 256
  {
    dev / 256
  }

  /** All request slots, their links, and the list of each major number. */
  datatype Table = Table(slot: seq<Request>, next: seq<int>, current: seq<int>, queue: seq<seq<nat>>)

  ghost predicate Sizes(t: Table) {
    |t.slot| == |t.next| == NR_REQUEST && |t.current| == |t.queue| == NR_BLK_DEV
  }

  function Keys(slot: seq<Request>, q: seq<nat>): (k: seq<Request>)
    ensures |k| == |q|
  {
    seq(|q|, i requires 0 <= i < |q| => if q[i] < |slot| then slot[q[i]] else Request(0, -1, 0))
  }

  ghost predicate IsNode(t: Table, m: nat, i: nat)
    requires Sizes(t) && m < NR_BLK_DEV && i < |t.queue[m]|
  {
    var s := t.queue[m][i];
    s < NR_REQUEST && t.slot[s].dev >= 0 && Major(t.slot[s].dev) == m && t.next[s] == At(t.queue[m], i + 1)
  }

  /** The links from current_request on spell out the queue, in at most two sweeps. */
  ghost predicate IsList(t: Table, m: nat)
    requires Sizes(t) && m < NR_BLK_DEV
  {
    && t.current[m] == At(t.queue[m], 0) && (forall i: nat :: i < |t.queue[m]| ==> IsNode(t, m, i))
    && TwoSweeps(Keys(t.slot, t.queue[m])) && NoTwins(Keys(t.slot, t.queue[m]))
  }

  /** A slot is taken exactly when it is on the list of its device. */
  ghost predicate Accounted(t: Table, s: nat)
    requires Sizes(t) && s < NR_REQUEST
  {
    t.slot[s].dev >= 0 ==> Major(t.slot[s].dev) < NR_BLK_DEV && s in t.queue[Major(t.slot[s].dev)]
  }

  ghost predicate Inv(t: Table) {
    && Sizes(t) && (forall m: nat :: m < NR_BLK_DEV ==> IsList(t, m)) && (forall s: nat :: s < NR_REQUEST ==>
        Accounted(t, s))
  }

  /** The new request r in the free slot s at place k of its device's list. */
  ghost function Spliced(t: Table, s: nat, r: Request, k: nat): (u: Table)
    requires Sizes(t) && s < NR_REQUEST && r.dev >= 0 && Major(r.dev) < NR_BLK_DEV && k <= |t.queue[Major(r.dev)]|
    ensures Sizes(u)
  {
    var m := Major(r.dev);
    var q := t.queue[m];
    var linked := t.next[s := At(q, k)];
    Table(t.slot[s := r], if 0 < k && q[k - 1] < NR_REQUEST then linked[q[k - 1] := s] else linked,
          if k == 0 then t.current[m := s] else t.current, t.queue[m := Inserted(q, k, s)])
  }

  lemma NodeOf(t: Table, m: nat, i: nat)
    requires Inv(t) && m < NR_BLK_DEV && i < |t.queue[m]|
    ensures IsNode(t, m, i)
  {
    assert IsList(t, m);
  }

  lemma HeadAt(t: Table, m: nat)
    requires Inv(t) && m < NR_BLK_DEV
    ensures t.current[m] == At(t.queue[m], 0) && TwoSweeps(Keys(t.slot, t.queue[m])) &&
        NoTwins(Keys(t.slot, t.queue[m]))
  {
    assert IsList(t, m);
  }

  lemma SpliceKeeps(t: Table, s: nat, r: Request, k: nat)
    requires Inv(t) && s < NR_REQUEST && t.slot[s].dev < 0 && r.dev >= 0 && Major(r.dev) < NR_BLK_DEV
    requires var q := t.queue[Major(r.dev)]; if q == [] then k == 0 else StopsAt(Keys(t.slot, q), k, r)
    requires r !in Keys(t.slot, t.queue[Major(r.dev)])
    ensures Inv(Spliced(t, s, r, k))
  {
    hide TwoSweeps, NoTwins, GoesAfter, Keys;
    var m, u := Major(r.dev), Spliced(t, s, r, k);
    forall n: nat | n < NR_BLK_DEV ensures IsList(u, n) {
      SlotFree(t, s, n);
      HeadAt(t, n);
      if n == m {
        SplicedNodes(t, s, r, k);
        SplicedKeys(t, s, r, k);
      } else {
        KeysFrame(t.slot, u.slot, t.queue[n]);
        forall i: nat | i < |u.queue[n]| ensures IsNode(u, n, i) {
          NodeOf(t, n, i);
          if k > 0 {
              NodeOf(t, m, k - 1);
            }
        }
      }
    }
    forall x: nat | x < NR_REQUEST ensures Accounted(u, x) {
      assert Accounted(t, x);
      InsertedMembers(t.queue[m], k, s);
    }
  }

  lemma SlotFree(t: Table, s: nat, m: nat)
    requires Inv(t) && s < NR_REQUEST && t.slot[s].dev < 0 && m < NR_BLK_DEV
    ensures s !in t.queue[m]
  {
    hide TwoSweeps, NoTwins, Keys;
    if i: nat :| i < |t.queue[m]| && t.queue[m][i] == s {
      NodeOf(t, m, i);
    }
  }

  lemma InsertedMembers(q: seq<nat>, k: nat, s: nat)
    requires k <= |q|
    ensures forall x :: x in Inserted(q, k, s) <==> x == s || x in q
  {
    assert q == q[..k] + q[k..];
  }

  lemma SplicedNodes(t: Table, s: nat, r: Request, k: nat)
    requires Inv(t) && s < NR_REQUEST && t.slot[s].dev < 0 && r.dev >= 0 && Major(r.dev) < NR_BLK_DEV
    requires var q := t.queue[Major(r.dev)]; s !in q && if q == [] then k == 0 else 0 < k <= |q|
    ensures var u, m := Spliced(t, s, r, k), Major(r.dev);
            u.current[m] == At(u.queue[m], 0) && forall i: nat :: i < |u.queue[m]| ==> IsNode(u, m, i)
  {
    hide TwoSweeps, NoTwins, Keys;
    var u, m := Spliced(t, s, r, k), Major(r.dev);
    var q := t.queue[m];
    HeadAt(t, m);
    forall i: nat | i < |u.queue[m]| ensures IsNode(u, m, i) {
      if i < k {
        NodeOf(t, m, i);
        Once(t, m, i, k - 1);
      } else if i > k {
        NodeOf(t, m, i - 1);
        Once(t, m, i - 1, k - 1);
      } else if k > 0 {
        NodeOf(t, m, k - 1);
      }
    }
  }

  /** No slot is twice on a list. */
  lemma Once(t: Table, m: nat, i: nat, j: nat)
    requires Inv(t) && m < NR_BLK_DEV && i < |t.queue[m]| && j < |t.queue[m]|
    ensures t.queue[m][i] == t.queue[m][j] <==> i == j
  {
    hide TwoSweeps;
    assert IsList(t, m);
    assert Keys(t.slot, t.queue[m])[i] == Keys(t.slot, t.queue[m])[j] <==> i == j;
  }

  lemma SplicedKeys(t: Table, s: nat, r: Request, k: nat)
    requires Inv(t) && s < NR_REQUEST && r.dev >= 0 && Major(r.dev) < NR_BLK_DEV && s !in t.queue[Major(r.dev)]
    requires var q := t.queue[Major(r.dev)]; if q == [] then k == 0 else StopsAt(Keys(t.slot, q), k, r)
    requires r !in Keys(t.slot, t.queue[Major(r.dev)])
    ensures var u, m := Spliced(t, s, r, k), Major(r.dev);
            TwoSweeps(Keys(u.slot, u.queue[m])) && NoTwins(Keys(u.slot, u.queue[m]))
  {
    var u, m := Spliced(t, s, r, k), Major(r.dev);
    var q := t.queue[m];
    var keys := Keys(t.slot, q);
    assert IsList(t, m);
    SplicedKeysAre(t, s, r, k);
    if q != [] {
      InsertKeepsSweeps(keys, k, r);
    }
  }

  lemma SplicedKeysAre(t: Table, s: nat, r: Request, k: nat)
    requires Sizes(t) && s < NR_REQUEST && r.dev >= 0 && Major(r.dev) < NR_BLK_DEV && s !in t.queue[Major(r.dev)]
    requires k <= |t.queue[Major(r.dev)]|
    ensures var u, m := Spliced(t, s, r, k), Major(r.dev);
            Keys(u.slot, u.queue[m]) == Inserted(Keys(t.slot, t.queue[m]), k, r)
  {
    var u, m := Spliced(t, s, r, k), Major(r.dev);
    var q := t.queue[m];
    forall i | 0 <= i < |q| + 1 ensures Keys(u.slot, u.queue[m])[i] == Inserted(Keys(t.slot, q), k, r)[i] {
      if i != k {
        assert q[if i < k then i else i - 1] in q;
      }
    }
  }

  lemma KeysFrame(a: seq<Request>, b: seq<Request>, q: seq<nat>)
    requires |a| == |b| && forall s :: s in q && s < |a| ==> a[s] == b[s]
    ensures Keys(a, q) == Keys(b, q)
  {
    forall i | 0 <= i < |q| ensures Keys(a, q)[i] == Keys(b, q)[i] {
      assert q[i] in q;
    }
  }

  /** end_request on the list of m. */
  ghost function Popped(t: Table, m: nat): (u: Table)
    requires Sizes(t) && m < NR_BLK_DEV && t.queue[m] != [] && t.queue[m][0] < NR_REQUEST
    ensures Sizes(u)
  {
    var s := t.queue[m][0];
    t.(slot := t.slot[s := t.slot[s].(dev := -1)], current := t.current[m := t.next[s]],
        queue := t.queue[m := t.queue[m][1..]])
  }

  lemma PopKeeps(t: Table, m: nat)
    requires Inv(t) && m < NR_BLK_DEV && t.queue[m] != []
    ensures t.queue[m][0] < NR_REQUEST && Inv(Popped(t, m))
  {
    hide TwoSweeps, NoTwins, Keys;
    NodeOf(t, m, 0);
    var u, s := Popped(t, m), t.queue[m][0];
    forall n: nat | n < NR_BLK_DEV ensures IsList(u, n) {
      forall i: nat | i < |u.queue[n]| ensures IsNode(u, n, i) && u.queue[n][i] != s {
        if n == m {
          NodeOf(t, m, i + 1);
          Once(t, m, 0, i + 1);
        } else {
          NodeOf(t, n, i);
        }
      }
      KeysFrame(t.slot, u.slot, u.queue[n]);
      HeadAt(t, n);
      if n == m {
        TailKeys(t, m);
      }
    }
    forall x: nat | x < NR_REQUEST ensures Accounted(u, x) {
      assert Accounted(t, x);
    }
  }

  lemma PoppedKeysAre(t: Table, m: nat)
    requires Inv(t) && m < NR_BLK_DEV && t.queue[m] != [] && t.queue[m][0] < NR_REQUEST
    ensures Keys(Popped(t, m).slot, Popped(t, m).queue[m]) == Keys(t.slot, t.queue[m])[1..]
  {
    hide TwoSweeps, NoTwins;
    var q := t.queue[m];
    forall i: nat | 0 < i < |q| ensures q[i] != q[0] {
      Once(t, m, 0, i);
    }
    KeysFrame(t.slot, Popped(t, m).slot, q[1..]);
  }

  lemma TailKeys(t: Table, m: nat)
    requires Sizes(t) && m < NR_BLK_DEV && t.queue[m] != [] && IsList(t, m)
    ensures var k := Keys(t.slot, t.queue[m][1..]); TwoSweeps(k) && NoTwins(k)
  {
    var keys := Keys(t.slot, t.queue[m]);
    assert Keys(t.slot, t.queue[m][1..]) == keys[1..];
    TailKeepsSweeps(keys);
  }

  const READ: nat := 0

  class Requests {
    const slot: array<Request>
    const next: array<int>
    const current: array<int> // blk_dev[major].current_request
    ghost var queue: seq<seq<nat>>

    ghost function Abs(): Table
      reads this, slot, next, current
    {
      Table(slot[..], next[..], current[..], queue)
    }

    /** The last third of the slots is for reads only. */
    ghost predicate Valid()
      reads this, slot, next, current
    {
      next != current && Inv(Abs()) && forall s :: 21 <= s < NR_REQUEST && slot[s].dev >= 0 ==> slot[s].cmd == READ
    }

    constructor BlkDevInit()
      ensures Valid() && forall m :: 0 <= m < NR_BLK_DEV ==> queue[m] == []
    {
      slot := new Request[NR_REQUEST](i => Request(READ, -1, 0));
      next := new int[NR_REQUEST](i => NULL);
      current := new int[NR_BLK_DEV](i => NULL);
      queue := seq(NR_BLK_DEV, i => []);
    }

    /** make_request's search from the top down: the highest free slot that the command may use. */
    method FindSlot(cmd: nat) returns (s: int)
      requires slot.Length == NR_REQUEST
      ensures NULL <= s < (if cmd == READ then 32 else 21)
      ensures s != NULL ==> slot[s].dev < 0
      ensures forall i :: s < i < (if cmd == READ then 32 else 21) ==> slot[i].dev >= 0
    {
      s := (if cmd == READ then NR_REQUEST else NR_REQUEST * 2 / 3) - 1;
      while s >= 0 && slot[s].dev >= 0
        invariant NULL <= s < (if cmd == READ then 32 else 21)
        invariant forall i :: s < i < (if cmd == READ then 32 else 21) ==> slot[i].dev >= 0
      {
        s := s - 1;
      }
    }

    /** Filling slot s and add_request: the request in service stays first, the others keep their order. */
    method AddRequest(s: nat, r: Request) returns (ghost k: nat)
      requires Valid() && s < NR_REQUEST && slot[s].dev < 0 && (r.cmd == READ || s < 21)
      requires 0 <= r.dev && Major(r.dev) < NR_BLK_DEV && r !in Keys(slot[..], queue[Major(r.dev)])
      modifies this, slot, next, current
      ensures Valid() && k <= |old(queue)[Major(r.dev)]| && (k == 0 ==> old(queue)[Major(r.dev)] == [])
      ensures Abs() == Spliced(old(Abs()), s, r, k)
      ensures var keys := old(Keys(slot[..], queue[Major(r.dev)]));
        (keys != [] ==> StopsAt(keys, k, r)) && Keys(slot[..], queue[Major(r.dev)]) == Inserted(keys, k, r)
    {
      hide TwoSweeps, NoTwins, Keys, Accounted;
      ghost var t := Abs();
      var m := Major(r.dev);
      HeadAt(t, m);
      SlotFree(t, s, m);
      slot[s], next[s] := r, NULL;
      var tmp := current[m];
      if tmp == NULL {
        SpliceKeeps(t, s, r, 0);
        SplicedKeysAre(t, s, r, 0);
        current[m] := s;
        queue := queue[m := [s]];
        assert next[..] == t.next[s := NULL] && Inserted(t.queue[m], 0, s) == [s];
        return 0;
      }
      ghost var i;
      tmp, i := Place(m, s, r, t);
      k := i + 1;
      SpliceKeeps(t, s, r, k);
      SplicedKeysAre(t, s, r, k);
      next[s] := next[tmp];
      next[tmp] := s;
      queue := queue[m := Inserted(queue[m], k, s)];
      assert next[..] == t.next[s := At(t.queue[m], k)][tmp := s];
    }

    /** The loop of add_request: the request after which r, filled into slot s of the table t, is to go. */
    method Place(m: nat, s: nat, r: Request, ghost t: Table) returns (tmp: int, ghost i: nat)
      requires Inv(t) && m < NR_BLK_DEV && t.queue[m] != [] && s < NR_REQUEST && t.slot[s].dev < 0
      requires slot[..] == t.slot[s := r] && next[..] == t.next[s := NULL] && current[..] == t.current
      ensures i < |t.queue[m]| && tmp == t.queue[m][i] && 0 <= tmp < NR_REQUEST && tmp != s &&
          next[tmp] == At(t.queue[m], i + 1)
      ensures StopsAt(Keys(t.slot, t.queue[m]), i + 1, r)
    {
      hide TwoSweeps, NoTwins, Keys, Accounted;
      HeadAt(t, m);
      SlotFree(t, s, m);
      tmp := current[m];
      i := 0;
      ghost var q, keys := t.queue[m], Keys(t.slot, t.queue[m]);
      NodeOf(t, m, 0);
      while next[tmp] != NULL
        invariant i < |q| && tmp == q[i] && 0 <= tmp < NR_REQUEST && next[tmp] == At(q, i + 1)
        invariant forall j: nat :: j < i ==> !GoesAfter(keys, j, r)
        decreases |q| - i
      {
        NodeOf(t, m, i + 1);
        TestIs(t, m, i, r);
        if (InOrder(slot[tmp], r) || !InOrder(slot[tmp], slot[next[tmp]])) && InOrder(r, slot[next[tmp]]) {
          return;
        }
        tmp := next[tmp];
        i := i + 1;
      }
    }

    /** end_request on the device with major number m: the request in service leaves, its slot is free. */
    method EndRequest(m: nat)
      requires Valid() && m < NR_BLK_DEV && current[m] != NULL
      modifies this, slot, current
      ensures old(queue)[m] != [] && old(queue)[m][0] < NR_REQUEST && Valid() && Abs() == Popped(old(Abs()), m)
      ensures Keys(slot[..], queue[m]) == old(Keys(slot[..], queue[m]))[1..]
    {
      hide TwoSweeps, NoTwins, Keys, Accounted;
      ghost var t := Abs();
      HeadAt(t, m);
      PopKeeps(t, m);
      PoppedKeysAre(t, m);
      slot[current[m]] := slot[current[m]].(dev := -1);
      current[m] := next[current[m]];
      queue := queue[m := queue[m][1..]];
      assert slot[..] == Popped(t, m).slot && current[..] == Popped(t, m).current;
    }
  }

  lemma TestIs(t: Table, m: nat, i: nat, r: Request)
    requires Inv(t) && m < NR_BLK_DEV && i + 1 < |t.queue[m]|
    ensures var q := t.queue[m];
            && q[i] < NR_REQUEST && q[i + 1] < NR_REQUEST
            && Keys(t.slot, q)[i] == t.slot[q[i]] && Keys(t.slot, q)[i + 1] == t.slot[q[i + 1]]
  {
    NodeOf(t, m, i);
    NodeOf(t, m, i + 1);
  }

  // ---------- no request waits for ever ----------

  const RANKS: nat := 0x2_0000_0000_0000

  /** What the fields can hold. */
  predicate InBounds(r: Request) { r.cmd <= 1 && 0 <= r.dev < 0x1_0000 && r.sector < 0x1_0000_0000 }

  function Rank(r: Request): nat
    requires InBounds(r)
  {
    (r.cmd * 0x1_0000 + r.dev) * 0x1_0000_0000 + r.sector
  }

  lemma RankOrder(s: Request, t: Request)
    requires InBounds(s) && InBounds(t)
    ensures InOrder(s, t) <==> Rank(s) < Rank(t)
    ensures Rank(s) < RANKS
  {
  }

  ghost predicate AllInBounds(q: seq<Request>) { forall i :: 0 <= i < |q| ==> InBounds(q[i]) }

  ghost predicate DropBefore(q: seq<Request>, i: nat) { exists j: nat :: j < i && Drop(q, j) }

  /** How far the request at place i is ahead of the one in service, over this sweep and the next. */
  ghost function Distance(q: seq<Request>, i: nat): nat
    requires AllInBounds(q) && TwoSweeps(q) && i < |q|
  {
    Ascends(q, i);
    RankOrder(q[0], q[i]);
    (if DropBefore(q, i) then RANKS else 0) + Rank(q[i]) - Rank(q[0])
  }

  lemma {:induction false} Ascends(q: seq<Request>, i: nat)
    requires AllInBounds(q) && i < |q|
    ensures DropBefore(q, i) || Rank(q[0]) <= Rank(q[i])
  {
    if i > 0 && !DropBefore(q, i) {
      assert !Drop(q, i - 1);
      RankOrder(q[i - 1], q[i]);
      Ascends(q, i - 1);
    }
  }

  lemma PopDistance(q: seq<Request>, i: nat)
    requires AllInBounds(q) && TwoSweeps(q) && 0 < i < |q|
    ensures TwoSweeps(q[1..]) && Distance(q[1..], i - 1) < Distance(q, i)
  {
    TailKeepsSweeps(q);
    RankOrder(q[0], q[1]);
    RankOrder(q[1], q[0]);
    if DropBefore(q[1..], i - 1) {
      var j: nat :| j < i - 1 && Drop(q[1..], j);
      assert Drop(q, j + 1);
    }
    if Drop(q, 0) {
      assert DropBefore(q, i);
    }
  }

  lemma InsertDistance(q: seq<Request>, k: nat, r: Request, i: nat)
    requires AllInBounds(q) && TwoSweeps(q) && StopsAt(q, k, r) && r !in q && InBounds(r) && i < |q|
    ensures var p, j := Inserted(q, k, r), if i < k then i else i + 1;
            AllInBounds(p) && TwoSweeps(p) && p[j] == q[i] && Distance(p, j) <= Distance(q, i)
  {
    InsertKeepsSweeps(q, k, r);
    var p, i' := Inserted(q, k, r), if i < k then i else i + 1;
    if j: nat :| j < i' && Drop(p, j) {
      if k < |q| {
        InsertMiddle(q, k, r, j);
      } else {
        InsertLast(q, r, j);
      }
    }
  }

  datatype Event = Added(k: nat, r: Request) | Ended

  /** The queue of a device in service and the place of a waiting request, before and after an event. */
  ghost predicate Goes(q: seq<Request>, i: nat, e: Event, p: seq<Request>, j: nat) {
    && i < |q| && j < |p|
    && match e
       case Added(k, r) =>
         r !in q && InBounds(r) && StopsAt(q, k, r) && p == Inserted(q, k, r) && j == if i < k then i else i + 1
       case Ended => i > 0 && p == q[1..] && j == i - 1
  }

  function Ends(es: seq<Event>): nat { if es == [] then 0 else (if es[0].Ended? then 1 else 0) + Ends(es[1..]) }

  ghost predicate IsWait(qs: seq<seq<Request>>, at: seq<nat>, es: seq<Event>) {
    && |qs| == |at| == |es| + 1 && AllInBounds(qs[0]) && TwoSweeps(qs[0]) && at[0] < |qs[0]|
    && forall n: nat :: n < |es| ==> Goes(qs[n], at[n], es[n], qs[n + 1], at[n + 1])
  }

  /** However many requests are added meanwhile, a waiting one is in service after at most two sweeps' worth of
      others. */
  lemma {:induction false} NoStarvation(qs: seq<seq<Request>>, at: seq<nat>, es: seq<Event>)
    requires IsWait(qs, at, es)
    ensures Ends(es) <= Distance(qs[0], at[0]) < 2 * RANKS
    decreases |es|
  {
    var q, i := qs[0], at[0];
    RankOrder(q[0], q[i]);
    RankOrder(q[i], q[0]);
    if es != [] {
      assert Goes(q, i, es[0], qs[1], at[1]);
      match es[0] {
        case Added(k, r) => InsertDistance(q, k, r, i);
        case Ended => PopDistance(q, i);
      }
      forall n: nat | n < |es| - 1 ensures Goes(qs[1..][n], at[1..][n], es[1..][n], qs[1..][n + 1], at[1..][n + 1]) {
        assert Goes(qs[n + 1], at[n + 1], es[n + 1], qs[n + 2], at[n + 2]);
      }
      NoStarvation(qs[1..], at[1..], es[1..]);
    }
  }
}
