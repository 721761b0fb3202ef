/** kernel/chr_drv/tty_io.c: the ring queues, copy_to_cooked and tty_read. */
module Tty {
  import opened Options
  import opened LineEditing

  /** INC and DEC: one place on or back in the ring. */
  function Inc(a: nat): nat { if a == 1023 then 0 else a + 1 }
  function Back(a: nat): nat { if a == 0 then 1023 else a - 1 }

  /** k places on from a. */
  function On(a: nat, k: nat): nat { if a + k >= 1024 then a + k - 1024 else a + k }

  /** n characters of the ring from tail on. */
  function Round(buf: seq<schar>, tail: nat, n: nat): (s: seq<schar>)
    requires |buf| == 1024 && tail < 1024 && n <= 1024
    ensures |s| == n && forall k :: 0 <= k < n ==> s[k] == buf[On(tail, k)]
  {
    seq(n, k requires 0 <= k < n => buf[On(tail, k)])
  }

  lemma RoundFirst(buf: seq<schar>, tail: nat, n: nat)
    requires |buf| == 1024 && tail < 1024 && 0 < n <= 1024
    ensures Round(buf, tail, n) == [buf[tail]] + Round(buf, Inc(tail), n - 1)
  {
    var r := Round(buf, Inc(tail), n - 1);
    forall k | 0 <= k < n - 1 ensures r[k] == Round(buf, tail, n)[k + 1] {}
  }

  /** struct tty_queue: head and tail go round a buffer of 1024, which holds at most 1023 characters. */
  class Queue {
    const buf: array<schar>
    var head: nat
    var tail: nat
    var data: int

    ghost predicate Valid()
      reads this
    {
      buf.Length == 1024 && head < 1024 && tail < 1024
    }

    ghost function Chars(): nat
      reads this
      requires Valid()
    {
      if head >= tail then head - tail else head + 1024 - tail
    }

    ghost function Contents(): (s: seq<schar>)
      reads this, buf
      requires Valid()
      ensures |s| == Chars() <= CAPACITY
    {
      Round(buf[..], tail, Chars())
    }

    constructor ()
      ensures Valid() && Contents() == [] && data == 0 && fresh(buf)
    {
      buf := new schar[1024];
      head, tail, data := 0, 0, 0;
    }

    predicate Empty()
      reads this
    {
      head == tail
    }

    predicate Full()
      reads this
    {
      Inc(head) == tail
    }

    lemma Sizes()
      requires Valid()
      ensures Empty() <==> Contents() == []
      ensures Full() <==> |Contents()| == CAPACITY
    {
    }

    method GetCh() returns (c: schar)
      requires Valid() && !Empty()
      modifies `tail
      ensures Valid() && old(Contents()) == [c] + Contents()
    {
      RoundFirst(buf[..], tail, Chars());
      c := buf[tail];
      tail := Inc(tail);
    }

    method PutCh(c: schar)
      requires Valid() && !Full()
      modifies `head, buf
      ensures Valid() && Contents() == old(Contents()) + [c]
    {
      buf[head] := c;
      head := Inc(head);
    }

    /** What others have made of the queue. */
    method Become(s: seq<schar>)
      requires Valid() && |s| <= CAPACITY
      modifies this, buf
      ensures Valid() && Contents() == s && data == old(data)
    {
      tail, head := 0, |s|;
      var k := 0;
      while k < |s|
        modifies buf
        invariant 0 <= k <= |s| && forall j :: 0 <= j < k ==> buf[j] == s[j]
      {
        buf[k] := s[k];
        k := k + 1;
      }
    }

    /** LAST. */
    method Last() returns (c: schar)
      requires Valid() && !Empty()
      ensures Contents() != [] && c == Contents()[|Contents()| - 1]
    {
      c := buf[Back(head)];
    }

    /** DEC(head). */
    method Dec()
      requires Valid() && !Empty()
      modifies `head
      ensures Valid() && old(Contents()) != [] && Contents() == old(Contents())[..|old(Contents())| - 1]
    {
      head := Back(head);
    }
  }

  /** What a reader finds when it wakes up: both queues, a signal pending, its time run out. */
  datatype World = World(sec: seq<schar>, raw: seq<schar>, signalled: bool, expired: bool)

  /** Asleep: nobody has woken the reader yet. */
  datatype Outcome = Bytes(b: seq<schar>) | Restart | Asleep

  /** struct tty_struct, without its output side. */
  class Terminal {
    const termios: Termios
    const readQ: Queue
    const secondary: Queue
    var side: Side

    /** secondary->data is the number of line ends in the cooked queue. */
    ghost predicate Valid()
      reads readQ, secondary, secondary.buf
    {
      && readQ != secondary && readQ.buf != secondary.buf && readQ.Valid() && secondary.Valid()
      && secondary.data == Terms(termios, secondary.Contents())
    }

    constructor (t: Termios)
      ensures Valid() && termios == t && readQ.Contents() == [] && secondary.Contents() == []
    {
      termios, side := t, Side(false, []);
      var r := new Queue();
      var s := new Queue();
      readQ, secondary := r, s;
    }

    /** Removing the current line. */
    method KillLine()
      requires Valid()
      modifies secondary
      ensures Valid() && secondary.Contents() == Complete(termios, old(secondary.Contents()))
      ensures secondary.data == old(secondary.data)
    {
      hide Terms, Round, IsTerm, Queue.Chars;
      ghost var s := secondary.Contents();
      CompleteTerms(termios, s);
      while true
        invariant Valid() && secondary.data == old(secondary.data)
        invariant Complete(termios, secondary.Contents()) == Complete(termios, s)
        decreases |secondary.Contents()|
      {
        secondary.Sizes();
        if secondary.Empty() {
          break;
        }
        var c := secondary.Last();
        if IsTerm(termios, c) {
          break;
        }
        TermsLast(termios, secondary.Contents());
        secondary.Dec();
      }
    }

    /** The body of copy_to_cooked's loop after the mapping. */
    method Accept(c: schar, orphaned: bool)
      requires Valid() && |secondary.Contents()| < CAPACITY
      modifies secondary, secondary.buf, `side
      ensures Valid() && secondary.Contents() == Cook(termios, old(secondary.Contents()), c)
      ensures side == SideOf(termios, old(side), c, orphaned)
    {
      secondary.Sizes();
      CookTerms(termios, secondary.Contents(), c);
      if termios.icanon {
        if Is(c, termios.kill) {
          KillLine();
          return;
        }
        if Is(c, termios.erase) {
          if secondary.Empty() {
            return;
          }
          var d := secondary.Last();
          if IsTerm(termios, d) {
            return;
          }
          secondary.Dec();
          return;
        }
      }
      if termios.ixon {
        if Is(c, termios.stop) {
          side := side.(stopped := true);
          return;
        }
        if Is(c, termios.start) {
          side := side.(stopped := false);
          return;
        }
      }
      if termios.isig {
        if Is(c, termios.intr) {
          side := side.(signals := side.signals + [Interrupt]);
          return;
        }
        if Is(c, termios.quit) {
          side := side.(signals := side.signals + [Quit]);
          return;
        }
        if Is(c, termios.susp) {
          if !orphaned {
            side := side.(signals := side.signals + [Suspend]);
          }
          return;
        }
      }
      if IsTerm(termios, c) {
        secondary.data := secondary.data + 1;
      }
      secondary.PutCh(c);
    }

    method CopyToCooked(orphaned: bool)
      requires Valid()
      modifies readQ, secondary, secondary.buf, `side
      ensures Valid()
      ensures (secondary.Contents(), readQ.Contents()) == CookAll(termios, old(secondary.Contents()),
          old(readQ.Contents()))
      ensures side == SideAll(termios, old(secondary.Contents()), old(readQ.Contents()), old(side), orphaned)
    {
      hide Cook, SideOf, Terms;
      while true
        invariant Valid()
        invariant CookAll(termios, secondary.Contents(), readQ.Contents()) ==
                  CookAll(termios, old(secondary.Contents()), old(readQ.Contents()))
        invariant SideAll(termios, secondary.Contents(), readQ.Contents(), side, orphaned) ==
                  SideAll(termios, old(secondary.Contents()), old(readQ.Contents()), old(side), orphaned)
        decreases |readQ.Contents()|
      {
        readQ.Sizes();
        secondary.Sizes();
        if readQ.Empty() || secondary.Full() {
          break;
        }
        ghost var raw := readQ.Contents();
        var c := readQ.GetCh();
        assert raw[1..] == readQ.Contents() && raw[0] == c;
        match Mapped(termios, c) {
          case None =>
          case Some(d) => Accept(d, orphaned);
        }
      }
    }

    // ---------- tty_read ----------

    method TakeOne() returns (c: schar)
      requires Valid() && secondary.Contents() != []
      modifies secondary
      ensures Valid() && old(secondary.Contents()) == [c] + secondary.Contents()
    {
      hide Taken, Terms, IsTerm, Round;
      secondary.Sizes();
      ghost var now := secondary.Contents();
      c := secondary.GetCh();
      assert now[1..] == secondary.Contents();
      TakenFirst(termios, now, 1);
      if IsTerm(termios, c) {
        secondary.data := secondary.data - 1;
      }
    }

    /** The inner loop of tty_read. */
    method TakeSome(nr: nat) returns (b: seq<schar>)
      requires Valid() && secondary.Contents() != [] && nr > 0
      modifies secondary
      ensures Valid() && b == Copied(termios, old(secondary.Contents()), nr)
      ensures secondary.Contents() == old(secondary.Contents())[Taken(termios, old(secondary.Contents()), nr)..]
    {
      hide Copied, Taken, Terms, IsTerm, Round, Queue.Contents, Queue.Chars;
      b := [];
      var left := nr;
      ghost var s := secondary.Contents();
      assert [] + s == s;
      while true
        invariant Valid() && secondary.Contents() != [] && left > 0
        invariant s == b + secondary.Contents()
        invariant Taken(termios, s, nr) == |b| + Taken(termios, secondary.Contents(), left)
        decreases left
      {
        ghost var now := secondary.Contents();
        TakenFirst(termios, now, left);
        var c := TakeOne();
        assert now[1..] == secondary.Contents() && now[0] == c;
        secondary.Sizes();
        assert s == (b + [c]) + secondary.Contents();
        if Is(c, termios.eof) && termios.icanon {
          CopiedIs(termios, s, nr, |b| + 1);
          break;
        }
        b := b + [c];
        left := left - 1;
        if left == 0 || (c == NL && termios.icanon) || secondary.Empty() {
          CopiedIs(termios, s, nr, |b|);
          break;
        }
      }
    }

    /** Going to sleep and finding world w. */
    method WakeTo(w: World)
      requires Valid() && |w.sec| <= CAPACITY && |w.raw| <= CAPACITY
      modifies readQ, readQ.buf, secondary, secondary.buf
      ensures Valid() && secondary.Contents() == w.sec && readQ.Contents() == w.raw
    {
      readQ.Become(w.raw);
      secondary.Become(w.sec);
      secondary.data := Counted(termios, w.sec);
    }

    /** The test of tty_read for having to wait. */
    method MustWait() returns (wait: bool)
      requires Valid()
      ensures wait <==> Waits(termios, secondary.Contents(), readQ.Contents())
      ensures !wait ==> secondary.Contents() != []
    {
      readQ.Sizes();
      secondary.Sizes();
      wait := secondary.Empty() || (termios.icanon && !readQ.Full() && secondary.data == 0);
    }

    /**
      * tty_read for nr characters, waking up to the worlds in turn, m of them: a canonical read takes, once, a line of
      * the queue it found when it last woke up, a raw read takes what came in order. See ReadResult.
      */
    method TtyRead(nr: nat, vmin: nat, vtime: nat, signalled: bool, slaveHungUp: bool, worlds: seq<World>)
      returns (r: Outcome, ghost took: bool, m: nat)
      requires Valid() && forall k :: 0 <= k < |worlds| ==> |worlds[k].sec| <= CAPACITY && |worlds[k].raw| <= CAPACITY
      modifies readQ, readQ.buf, secondary, secondary.buf
      ensures Valid()
      ensures ReadResult(Call(termios, nr, vmin, vtime, signalled, slaveHungUp, old(secondary.Contents()),
          old(readQ.Contents()), worlds), r, took, m, secondary.Contents())
    {
      hide Taken, Copied, Terms, Round, Queue.Contents, Queue.Chars, Reading, ReadResult, Waits;
      ghost var c := Call(termios, nr, vmin, vtime, signalled, slaveHungUp, secondary.Contents(), readQ.Contents(),
          worlds);
      var minimum := if termios.icanon then nr else if vmin != 0 then vmin else nr;
      var timeout := termios.icanon || vmin != 0 || vtime != 0;
      if minimum > nr {
        minimum := nr;
      }
      var b, left, pending := [], nr, signalled;
      took, m := false, 0;
      ghost var over := false;
      ReadStart(c);
      while left > 0
        invariant m <= |worlds| && 0 <= left && |b| + left == nr && Valid() && !over
        invariant Reading(c, Progress(m, b, took, pending, timeout, secondary.Contents(), readQ.Contents()))
        decreases |worlds| - m, left
      {
        ghost var p := Progress(m, b, took, pending, timeout, secondary.Contents(), readQ.Contents());
        var wait := MustWait();
        if wait {
          if !timeout || pending || slaveHungUp {
            GivingUp(c, p);
            over := true;
            break;
          }
          SleepingOn(c, p);
          if m == |worlds| {
            return Asleep, took, m;
          }
          WakeTo(worlds[m]);
          pending := worlds[m].signalled;
          timeout := timeout && !worlds[m].expired;
          m := m + 1;
          continue;
        }
        CopiedSize(termios, secondary.Contents(), left);
        var got := TakeSome(left);
        took := true;
        b := b + got;
        left := left - |got|;
        if !termios.icanon && vmin != 0 && vtime != 0 {
          timeout := true;
        }
        Taking(c, p, got, secondary.Contents());
        if termios.icanon || |b| >= minimum {
          over := true;
          break;
        }
      }
      if !over {
        AllRead(c, Progress(m, b, took, pending, timeout, secondary.Contents(), readQ.Contents()));
      }
      r := if pending && b == [] then Restart else Bytes(b);
    }
  }

  /** How many characters a read waits for. */
  function Wanted(t: Termios, nr: nat, vmin: nat): nat { if t.icanon || vmin == 0 || vmin > nr then nr else vmin }

  /** current->timeout is set when the read begins. */
  predicate Timed(t: Termios, vmin: nat, vtime: nat) { t.icanon || vmin != 0 || vtime != 0 }

  /** Nothing to take, or in canonical mode no complete line while more can come. */
  predicate Waits(t: Termios, s: seq<schar>, raw: seq<schar>) {
    s == [] || (t.icanon && |raw| < CAPACITY && Terms(t, s) == 0)
  }

  /** A call of tty_read: its arguments, both queues, and the worlds it may wake up to. */
  datatype Call = Call(t: Termios, nr: nat, vmin: nat, vtime: nat, signalled: bool, slaveHungUp: bool, s0: seq<schar>,
    r0: seq<schar>, worlds: seq<World>)

  /** The cooked and the raw queue that the reader finds after m sleeps. */
  function Sec(c: Call, m: nat): seq<schar>
    requires m <= |c.worlds|
  {
    if m == 0 then c.s0 else c.worlds[m - 1].sec
  }

  function Raw(c: Call, m: nat): seq<schar>
    requires m <= |c.worlds|
  {
    if m == 0 then c.r0 else c.worlds[m - 1].raw
  }

  /** All that came to the cooked queue, for a raw reader, who empties it before each sleep. */
  function AllOf(c: Call, m: nat): seq<schar>
    requires m <= |c.worlds|
  {
    if m == 0 then c.s0 else AllOf(c, m - 1) + c.worlds[m - 1].sec
  }

  /** After j sleeps the read has not what it wants and has to wait. */
  ghost predicate HasToWait(c: Call, j: nat)
    requires j <= |c.worlds|
  {
    && c.nr > 0
    && if c.t.icanon then Waits(c.t, Sec(c, j), Raw(c, j)) else |AllOf(c, j)| < Wanted(c.t, c.nr, c.vmin)
  }

  /** A signal was pending when the reader last woke up. */
  predicate Pending(c: Call, m: nat)
    requires m <= |c.worlds|
  {
    if m == 0 then c.signalled else c.worlds[m - 1].signalled
  }

  /** A raw read with both a number and a time wanted starts the time again with each piece it takes. */
  predicate Rearms(c: Call) { !c.t.icanon && c.vmin != 0 && c.vtime != 0 }

  predicate NothingSince(c: Call, j: nat, m: nat)
    requires m <= |c.worlds|
  {
    forall i :: j <= i < m ==> c.worlds[i].sec == []
  }

  /** The time has run out, and nothing came since that would have started it again. */
  ghost predicate TimedOut(c: Call, m: nat)
    requires m <= |c.worlds|
  {
    exists j: nat :: j < m && c.worlds[j].expired && (Rearms(c) ==> NothingSince(c, j, m))
  }

  /** Why a read gives up instead of sleeping on: it need not wait at all, a signal is pending, or its time ran out. */
  ghost predicate GivesUp(c: Call, m: nat)
    requires m <= |c.worlds|
  {
    !Timed(c.t, c.vmin, c.vtime) || c.slaveHungUp || Pending(c, m) || TimedOut(c, m)
  }

  ghost predicate Sleeps(c: Call, m: nat)
    requires m <= |c.worlds|
  {
    HasToWait(c, m) && !GivesUp(c, m)
  }

  /** What a canonical read makes of the cooked queue s. */
  ghost predicate ReadLine(c: Call, s: seq<schar>, raw: seq<schar>, took: bool, r: Outcome, rest: seq<schar>) {
    if took then
      && c.nr > 0 && !Waits(c.t, s, raw) && rest == s[Taken(c.t, s, c.nr)..]
      && (r == Bytes(Copied(c.t, s, c.nr)) || (r == Restart && Copied(c.t, s, c.nr) == []))
    else
      rest == s && (c.nr == 0 || Waits(c.t, s, raw)) && (r.Bytes? ==> r.b == [])
  }

  /**
    * The result of a read after m sleeps. It slept only while it had to. A canonical read took the line of the queue it
    * woke up to, a complete one unless the raw queue is full; a raw read took what came, in order and without loss. A
    * short result has a reason, and a read that sleeps on has none.
    */
  ghost predicate ReadResult(c: Call, r: Outcome, took: bool, m: nat, rest: seq<schar>) {
    && m <= |c.worlds| && (forall j: nat :: j < m ==> Sleeps(c, j))
    && (if c.t.icanon then ReadLine(c, Sec(c, m), Raw(c, m), took, r, rest)
        else
          && (took <==> c.nr > 0 && AllOf(c, m) != [])
          && (r != Asleep ==>
                var b := if r.Bytes? then r.b else [];
                Joined(b, rest, AllOf(c, m)) && (rest == [] || |b| == c.nr)))
    && match r
       case Bytes(b) =>
         && |b| <= c.nr && (b == [] ==> !Pending(c, m))
         && (c.nr == 0 || (if c.t.icanon then took else |b| >= Wanted(c.t, c.nr, c.vmin)) || GivesUp(c, m))
       case Restart => Pending(c, m)
       case Asleep => m == |c.worlds| && Sleeps(c, m)
  }

  /**
    * A raw read returns as much as there is and fits. It sleeps as long as it has neither VMIN characters, if VMIN is
    * set, nor all it asked for, and returns with less only for a signal, a hangup or the time; with neither VMIN nor
    * VTIME it never sleeps.
    */
  lemma RawReads(c: Call, r: Outcome, took: bool, m: nat, rest: seq<schar>)
    requires ReadResult(c, r, took, m, rest) && !c.t.icanon && c.nr > 0
    ensures forall j: nat :: j < m ==> |AllOf(c, j)| < c.nr && (c.vmin == 0 || |AllOf(c, j)| < c.vmin)
    ensures r == Asleep ==> |AllOf(c, m)| < c.nr && (c.vmin == 0 || |AllOf(c, m)| < c.vmin)
    ensures r.Bytes? ==> r.b == AllOf(c, m)[..if |AllOf(c, m)| < c.nr then |AllOf(c, m)| else c.nr]
    ensures r == Restart ==> AllOf(c, m) == [] && (if m == 0 then c.signalled else c.worlds[m - 1].signalled)
    ensures r.Bytes? && |r.b| < c.nr && (c.vmin == 0 || |r.b| < c.vmin) ==>
      || (c.vmin == 0 && c.vtime == 0) || c.slaveHungUp || (if m == 0 then c.signalled else c.worlds[m - 1].signalled)
      || exists j :: 0 <= j < m && c.worlds[j].expired
    ensures m > 0 || r == Asleep ==> !c.slaveHungUp && (c.vmin > 0 || c.vtime > 0) && (m > 0 ==> !c.signalled)
  {
    hide TimedOut;
    forall j: nat | j < m ensures |AllOf(c, j)| < c.nr && (c.vmin == 0 || |AllOf(c, j)| < c.vmin) {
      assert Sleeps(c, j);
    }
    if r.Bytes? {
      assert (r.b + rest)[..|r.b|] == r.b;
    }
    if TimedOut(c, m) {
      SomeExpired(c, m);
    }
    assert m > 0 ==> Sleeps(c, 0);
  }

  /** A canonical read of a queue that holds a line, with room for it, does not sleep: it returns the first line as it
      was edited, without an end-of-file character, and leaves what follows. */
  lemma CanonicalReads(c: Call, e: Editor, r: Outcome, took: bool, m: nat, rest: seq<schar>)
    requires ReadResult(c, r, took, m, rest) && c.t.icanon && c.s0 == Text(e) && GoodEditor(c.t, e)
    requires e.lines != [] && c.nr >= |e.lines[0]|
    ensures m == 0 && took && rest == Text(Editor(e.lines[1..], e.cur))
    ensures var l := e.lines[0];
            var n := if Is(l[|l| - 1], c.t.eof) then |l| - 1 else |l|;
            l != [] && r == if n == 0 && c.signalled then Restart else Bytes(l[..n])
  {
    hide Taken, Copied, Terms, Flat, IsTerm;
    assert IsLine(c.t, e.lines[0]);
    ReadsALine(c.t, e, c.nr);
    EditorText(c.t, e);
    assert m > 0 ==> Sleeps(c, 0);
    assert e.lines[0][..|e.lines[0]|] == e.lines[0];
  }

  lemma SomeExpired(c: Call, m: nat)
    requires m <= |c.worlds| && TimedOut(c, m)
    ensures exists j :: 0 <= j < m && c.worlds[j].expired
  {
  }

  /** The local variables of the loop, and both queues. */
  datatype Progress = Progress(m: nat, b: seq<schar>, took: bool, pending: bool, timeout: bool, s: seq<schar>,
    raw: seq<schar>)

  /** current->timeout is set as long as the time has not run out; with something to take it is about to be set. */
  ghost predicate TimeIs(c: Call, p: Progress)
    requires p.m <= |c.worlds|
  {
    p.s == [] || !Rearms(c) ==> (p.timeout <==> Timed(c.t, c.vmin, c.vtime) && !TimedOut(c, p.m))
  }

  /** Whenever the loop comes to its test. */
  ghost predicate Reading(c: Call, p: Progress) {
    && p.m <= |c.worlds| && (forall j: nat :: j < p.m ==> Sleeps(c, j)) && p.pending == Pending(c, p.m)
    && (if c.t.icanon then !p.took && p.b == [] && p.s == Sec(c, p.m) && p.raw == Raw(c, p.m)
        else
          && Joined(p.b, p.s, AllOf(c, p.m)) && (p.took <==> p.b != [])
          && (|p.b| < c.nr ==> (p.s == [] || p.s == Sec(c, p.m)) && |p.b| < Wanted(c.t, c.nr, c.vmin)))
    && (|p.b| < c.nr ==> TimeIs(c, p))
  }

  function ResultOf(p: Progress): Outcome { if p.pending && p.b == [] then Restart else Bytes(p.b) }

  lemma ReadStart(c: Call)
    ensures Reading(c, Progress(0, [], false, c.signalled, Timed(c.t, c.vmin, c.vtime), c.s0, c.r0))
  {
    assert c.s0 == [] + c.s0;
  }

  lemma GivingUp(c: Call, p: Progress)
    requires Reading(c, p) && |p.b| < c.nr && Waits(c.t, p.s, p.raw) && (!p.timeout || p.pending || c.slaveHungUp)
    ensures ReadResult(c, ResultOf(p), p.took, p.m, p.s)
  {
    hide Taken, Copied;
  }

  lemma AllRead(c: Call, p: Progress)
    requires Reading(c, p) && |p.b| == c.nr
    ensures ReadResult(c, ResultOf(p), p.took, p.m, p.s)
  {
    hide Taken, Copied;
  }

  /** Going to sleep, and to which world the sleeper wakes up. */
  lemma SleepingOn(c: Call, p: Progress)
    requires Reading(c, p) && |p.b| < c.nr && Waits(c.t, p.s, p.raw) && p.timeout && !p.pending && !c.slaveHungUp
    ensures p.m == |c.worlds| ==> ReadResult(c, Asleep, p.took, p.m, p.s)
    ensures p.m < |c.worlds| ==>
      var w := c.worlds[p.m];
      Reading(c, Progress(p.m + 1, p.b, p.took, w.signalled, p.timeout && !w.expired, w.sec, w.raw))
  {
    hide Taken, Copied, Terms;
    assert Sleeps(c, p.m);
    if p.m < |c.worlds| {
      StillTime(c, p.m);
      assert !c.t.icanon ==> AllOf(c, p.m + 1) == p.b + c.worlds[p.m].sec;
    }
  }

  /** The time runs out at a wakeup exactly when that world says so, unless a piece that came starts it again. */
  lemma StillTime(c: Call, m: nat)
    requires m < |c.worlds| && !TimedOut(c, m)
    ensures c.worlds[m].sec == [] || !Rearms(c) ==> (TimedOut(c, m + 1) <==> c.worlds[m].expired)
  {
    if c.worlds[m].expired && (c.worlds[m].sec == [] || !Rearms(c)) {
      assert Rearms(c) ==> NothingSince(c, m, m + 1);
    }
    assert forall j: nat | NothingSince(c, j, m + 1) :: NothingSince(c, j, m);
  }

  /** A piece taken: a canonical read is done, a raw one goes on until it has enough. */
  lemma Taking(c: Call, p: Progress, got: seq<schar>, rest: seq<schar>)
    requires Reading(c, p) && |p.b| < c.nr && !Waits(c.t, p.s, p.raw)
    requires got == Copied(c.t, p.s, c.nr - |p.b|) && rest == p.s[Taken(c.t, p.s, c.nr - |p.b|)..]
    ensures var q := p.(b := p.b + got, took := true, timeout := p.timeout || Rearms(c), s := rest);
            if c.t.icanon || |q.b| >= Wanted(c.t, c.nr, c.vmin) then ReadResult(c, ResultOf(q), true, q.m, rest)
            else Reading(c, q)
  {
    hide Terms;
    CopiedSize(c.t, p.s, c.nr - |p.b|);
    if c.t.icanon {
      assert p.b + got == got;
    } else {
      RawTakes(c.t, p.s, c.nr - |p.b|);
      JoinMore(p.b, p.s, AllOf(c, p.m), |got|);
      Restarted(c, p.m);
      hide Taken, Copied, TimedOut;
    }
  }

  lemma RawTakes(t: Termios, s: seq<schar>, left: nat)
    requires !t.icanon && s != [] && left > 0
    ensures Taken(t, s, left) == (if left < |s| then left else |s|)
  {
  }

  lemma Restarted(c: Call, m: nat)
    requires m <= |c.worlds|
    ensures Rearms(c) && Sec(c, m) != [] ==> !TimedOut(c, m)
  {
  }

  /** Nothing is lost or reordered between what was read and what is left. */
  ghost predicate Joined(a: seq<schar>, b: seq<schar>, c: seq<schar>) { c == a + b }

  lemma JoinMore(b: seq<schar>, now: seq<schar>, all: seq<schar>, k: nat)
    requires Joined(b, now, all) && k <= |now|
    ensures Joined(b + now[..k], now[k..], all)
  {
    assert now == now[..k] + now[k..];
  }

  lemma TakenFirst(t: Termios, s: seq<schar>, nr: nat)
    requires s != [] && nr > 0
    ensures Terms(t, s) == (if IsTerm(t, s[0]) then 1 else 0) + Terms(t, s[1..])
    ensures IsTerm(t, s[0]) <==> s[0] == NL || Is(s[0], t.eof)
    ensures Taken(t, s, nr) ==
            if (t.icanon && IsTerm(t, s[0])) || nr == 1 || |s| == 1 then 1 else 1 + Taken(t, s[1..], nr - 1)
  {
  }

  lemma CopiedIs(t: Termios, s: seq<schar>, nr: nat, k: nat)
    requires s != [] && nr > 0 && k == Taken(t, s, nr)
    ensures Copied(t, s, nr) == if t.icanon && Is(s[k - 1], t.eof) then s[..k - 1] else s[..k]
  {
  }

  lemma CopiedSize(t: Termios, s: seq<schar>, nr: nat)
    requires s != [] && nr > 0
    ensures |Copied(t, s, nr)| <= nr
    ensures !t.icanon ==> |Copied(t, s, nr)| > 0 && Copied(t, s, nr) == s[..Taken(t, s, nr)]
  {
  }

  method Counted(t: Termios, s: seq<schar>) returns (n: nat)
    ensures n == Terms(t, s)
  {
    n := 0;
    var k := 0;
    while k < |s|
      invariant 0 <= k <= |s| && n + Terms(t, s[k..]) == Terms(t, s)
    {
      assert s[k..][1..] == s[k + 1..];
      n := n + (if IsTerm(t, s[k]) then 1 else 0);
      k := k + 1;
    }
  }
}
