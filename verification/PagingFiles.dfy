/** do_no_page and share_page of mm/memory.c from the side of the files: which file backs a page, which other tasks
    run it, and what is read from it. */
module PagingFiles {
  import opened Bytes
  import opened Options
  import opened PagingDemand
  import opened PagingState
  import opened PagingSteps
  import Paging

  const LIBRARY_OFFSET: nat := 0x3c0_0000 // TASK_SIZE - LIBRARY_SIZE
  const BLOCK_SIZE: nat := 1024

  /** What a task runs. */
  datatype Task = Task(executable: Option<nat>, library: Option<nat>, endData: nat)

  /** i_count, and the blocks of a file that bmap and bread_page find; anything else reads as zeros. */
  datatype Inode = Inode(count: nat, blocks: map<nat, seq<byte>>)

  ghost predicate Valid(tasks: seq<Option<Task>>, inodes: seq<Inode>) {
    && |tasks| == NR_TASKS
    && (forall t: Task | Some(t) in tasks ::
          (t.executable.Some? ==> t.executable.value < |inodes|) && (t.library.Some? ==> t.library.value < |inodes|))
    && (forall f | f in inodes :: Blocks(f))
  }

  predicate Blocks(f: Inode) { forall b | b in f.blocks :: |f.blocks[b]| == BLOCK_SIZE }

  /** Where the page lies in the window of its task, in bytes. */
  function Place(y: Slot): (at: nat)
    ensures at % PAGE_SIZE == 0 && Owner(y) * 0x400_0000 + at == (y.d * ENTRIES + y.i) * PAGE_SIZE
  {
    y.d % TASK_DIRS * 0x40_0000 + y.i * PAGE_SIZE
  }

  /** The file behind that place. */
  function Backing(t: Task, at: nat): Option<nat> {
    if at >= LIBRARY_OFFSET then t.library else if at < t.endData then t.executable else None
  }

  /** Byte k of the contents of a file, which follow a header of 1024 bytes. */
  function FileByte(f: Inode, k: nat): byte
    requires Blocks(f)
  {
    if (k + 1024) / 1024 in f.blocks then f.blocks[(k + 1024) / 1024][k % 1024] else 0
  }

  /** The page at the place: bytes of the executable or the library, and zeros from the end of the data on. */
  ghost predicate IsFilePage(f: Inode, at: nat, endData: nat, p: Page)
    requires Blocks(f)
  {
    && |p| == PAGE_SIZE
    && forall k | 0 <= k < PAGE_SIZE ::
         p[k] == if at < endData <= at + k then 0
                 else FileByte(f, k + if at >= LIBRARY_OFFSET then at - LIBRARY_OFFSET else at)
  }

  /** The end of do_no_page: bread_page into an empty page, and the clearing of its tail. */
  method ReadPage(f: Inode, at: nat, endData: nat) returns (p: Page)
    requires Blocks(f) && at % PAGE_SIZE == 0
    ensures IsFilePage(f, at, endData, p)
  {
    var page := new byte[PAGE_SIZE](_ => 0);
    var off: nat := if at >= LIBRARY_OFFSET then at - LIBRARY_OFFSET else at;
    var block := 1 + off / BLOCK_SIZE;
    for i := 0 to 4
      invariant forall k | 0 <= k < i * BLOCK_SIZE :: page[k] == FileByte(f, off + k)
      invariant forall k | i * BLOCK_SIZE <= k < PAGE_SIZE :: page[k] == 0
    {
      CopyBlock(f, off, block, i, page);
    }
    var n: int := at + PAGE_SIZE - endData;
    if n > PAGE_SIZE - 1 {
      n := 0;
    }
    var cleared, tmp := n, PAGE_SIZE;
    while n > 0
      invariant n <= cleared < PAGE_SIZE && tmp == PAGE_SIZE - (if cleared > 0 then cleared - n else 0)
      invariant cleared > 0 ==> n >= 0
      invariant forall k | 0 <= k < tmp :: page[k] == FileByte(f, off + k)
      invariant forall k | tmp <= k < PAGE_SIZE :: page[k] == 0
    {
      n := n - 1;
      tmp := tmp - 1;
      page[tmp] := 0;
    }
    p := page[..];
  }

  /** COPYBLK for one of the four blocks of a page, if the file has it. */
  method CopyBlock(f: Inode, ghost off: nat, block: nat, i: nat, page: array<byte>)
    requires Blocks(f) && page.Length == PAGE_SIZE && i < 4 && off % PAGE_SIZE == 0 && block == 1 + off / BLOCK_SIZE
    requires forall k | i * BLOCK_SIZE <= k < (i + 1) * BLOCK_SIZE :: page[k] == 0
    modifies page
    ensures forall k | 0 <= k < PAGE_SIZE :: page[k] ==
              if i * BLOCK_SIZE <= k < (i + 1) * BLOCK_SIZE then FileByte(f, off + k) else old(page[k])
  {
    if block + i in f.blocks {
      for j := 0 to BLOCK_SIZE
        invariant forall k | 0 <= k < PAGE_SIZE :: page[k] ==
                    if i * BLOCK_SIZE <= k < i * BLOCK_SIZE + j then f.blocks[block + i][k - i * BLOCK_SIZE]
                    else old(page[k])
      {
        page[i * BLOCK_SIZE + j] := f.blocks[block + i][j];
      }
    }
  }

  /** Task t runs file i, as its library above LIBRARY_OFFSET and as its executable below. */
  predicate Runs(t: Option<Task>, at: nat, i: nat) {
    t.Some? && (if at < LIBRARY_OFFSET then t.value.executable else t.value.library) == Some(i)
  }

  /** The loop of share_page: the tasks below n that run the file, from the last one down to the second. */
  function PeersOf(tasks: seq<Option<Task>>, me: nat, at: nat, i: nat, n: nat): (r: seq<nat>)
    requires n <= |tasks|
    ensures forall q :: q in r <==> 1 <= q < n && q != me && Runs(tasks[q], at, i)
    ensures forall j, k | 0 <= j < k < |r| :: r[j] > r[k]
  {
    if n <= 1 then []
    else
      var rest := PeersOf(tasks, me, at, i, n - 1);
      assert forall k | 0 <= k < |rest| :: rest[k] in rest;
      if n - 1 != me && Runs(tasks[n - 1], at, i) then [n - 1] + rest else rest
  }

  /** Another task that runs the file has the page clean in memory. */
  ghost predicate Gives(m: Mem, y: Slot, tasks: seq<Option<Task>>, inodes: seq<Inode>, i: nat, p: nat)
    requires IsSlot(y) && i < |inodes|
  {
    && inodes[i].count >= 2 && 1 <= p < NR_TASKS && p < |tasks| && p != Owner(y) && tasks[p].Some?
    && (if Place(y) >= 0x3c0_0000 then tasks[p].value.library else tasks[p].value.executable) == Some(i)
    && Sharable(m, AtTask(p, y))
  }

  ghost predicate SomeGives(m: Mem, y: Slot, tasks: seq<Option<Task>>, inodes: seq<Inode>, i: nat)
    requires IsSlot(y) && i < |inodes|
  {
    exists p :: Gives(m, y, tasks, inodes, i, p)
  }

  /** The page a task must find: its own from swap, or of the last task that can give it, or of the file, or empty. */
  ghost predicate Right(c: Config, m: Mem, y: Slot, tasks: seq<Option<Task>>, inodes: seq<Inode>, page: Page)
    requires Inv(c, m) && IsSlot(y) && Valid(tasks, inodes) && tasks[Owner(y)].Some?
  {
    hide CountsOk, SwapOk, ExclusiveOk, AlignedOk;
    var t := tasks[Owner(y)].value;
    var at := Place(y);
    assert Some(t) in tasks;
    if m.e[y] != Clear then Look(c, m, y) == Some(page)
    else match Backing(t, at)
      case None => page == ZeroPage()
      case Some(i) =>
        if SomeGives(m, y, tasks, inodes, i) then
          exists p ::
            && Gives(m, y, tasks, inodes, i, p) && (forall q | Gives(m, y, tasks, inodes, i, q) :: q <= p)
            && Look(c, m, AtTask(p, y)) == Some(page)
        else IsFilePage(inodes[i], at, t.endData, page)
  }

  /** The frames it takes. */
  ghost function Cost(m: Mem, y: Slot, tasks: seq<Option<Task>>, inodes: seq<Inode>): nat
    requires IsSlot(y) && y in m.e && |m.dirs| == DIRS && Valid(tasks, inodes) && tasks[Owner(y)].Some?
  {
    var t := tasks[Owner(y)].value;
    assert Some(t) in tasks;
    var i := Backing(t, Place(y));
    if m.e[y].InSwap? then 1
    else TableCost(m.dirs, y.d) + One(!(m.e[y] == Clear && i.Some? && SomeGives(m, y, tasks, inodes, i.value)))
  }

  lemma PeersAre(y: Slot, tasks: seq<Option<Task>>, i: nat)
    requires IsSlot(y) && |tasks| == NR_TASKS
    ensures ArePeers(y, PeersOf(tasks, Owner(y), Place(y), i, NR_TASKS))
  {
    hide Place;
    var peers := PeersOf(tasks, Owner(y), Place(y), i, NR_TASKS);
    forall j | 0 <= j < |peers| ensures 1 <= peers[j] < NR_TASKS && peers[j] != Owner(y) {
      assert peers[j] in peers;
    }
  }

  /** The first of some peers in falling order that can give the page is the highest one. */
  lemma FirstIsHighest(m: Mem, y: Slot, peers: seq<nat>, q: nat)
    requires IsSlot(y) && ArePeers(y, peers) && (forall j, k | 0 <= j < k < |peers| :: peers[j] > peers[k])
    requires q in peers && Sharable(m, AtTask(q, y))
    ensures Giver(m, y, peers, 0) < |peers| && q <= peers[Giver(m, y, peers, 0)]
  {
    hide Sharable, AtTask;
    var j :| 0 <= j < |peers| && peers[j] == q;
    assert Sharable(m, AtTask(peers[j], y)) && Giver(m, y, peers, 0) <= j;
  }

  /** The first peer that can give the page is the last task that can. */
  lemma GiverIsLast(m: Mem, y: Slot, tasks: seq<Option<Task>>, inodes: seq<Inode>, i: nat, peers: seq<nat>)
    requires IsSlot(y) && i < |inodes| && |tasks| == NR_TASKS
    requires peers == if inodes[i].count < 2 then [] else PeersOf(tasks, Owner(y), Place(y), i, NR_TASKS)
    ensures && ArePeers(y, peers)
            && var g := Giver(m, y, peers, 0);
               && (g < |peers| <==> SomeGives(m, y, tasks, inodes, i))
               && (g < |peers| ==> Gives(m, y, tasks, inodes, i, peers[g]) &&
                                   forall q | Gives(m, y, tasks, inodes, i, q) :: q <= peers[g])
  {
    hide Sharable, Place, AtTask;
    PeersAre(y, tasks, i);
    var g := Giver(m, y, peers, 0);
    forall q | Gives(m, y, tasks, inodes, i, q) ensures g < |peers| && q <= peers[g] {
      FirstIsHighest(m, y, peers, q);
    }
    if g < |peers| {
      assert peers[g] in peers;
      assert Gives(m, y, tasks, inodes, i, peers[g]);
    }
  }

  /** What do_no_page is handed for the page at y: nothing, or the page of the file and the tasks that run it. */
  ghost predicate Handed(y: Slot, tasks: seq<Option<Task>>, inodes: seq<Inode>, file: Option<Page>, peers: seq<nat>)
    requires IsSlot(y) && Valid(tasks, inodes) && tasks[Owner(y)].Some?
  {
    var t := tasks[Owner(y)].value;
    var at := Place(y);
    assert Some(t) in tasks;
    match Backing(t, at)
    case None => file == None && peers == []
    case Some(i) =>
      && file.Some? && IsFilePage(inodes[i], at, t.endData, file.value)
      && peers == if inodes[i].count < 2 then [] else PeersOf(tasks, Owner(y), at, i, NR_TASKS)
  }

  lemma FoundCases(c: Config, m: Mem, y: Slot, file: Option<Page>, peers: seq<nat>)
    requires Inv(c, m) && IsSlot(y) && ArePeers(y, peers) && (file.Some? ==> |file.value| == PAGE_SIZE)
    ensures var p := Found(c, m, y, file, peers);
            var g := Giver(m, y, peers, 0);
            if m.e[y] != Clear then Look(c, m, y) == Some(p)
            else if file.None? then p == ZeroPage()
            else if g < |peers| then Look(c, m, AtTask(peers[g], y)) == Some(p)
            else p == file.value
  {
    hide CountsOk, SwapOk, ExclusiveOk, AlignedOk;
  }

  lemma FoundIsRight(c: Config, m: Mem, y: Slot, tasks: seq<Option<Task>>, inodes: seq<Inode>, file: Option<Page>,
                     peers: seq<nat>)
    requires Inv(c, m) && IsSlot(y) && Valid(tasks, inodes) && tasks[Owner(y)].Some?
    requires Handed(y, tasks, inodes, file, peers)
    ensures (file.Some? ==> |file.value| == PAGE_SIZE) && ArePeers(y, peers)
    ensures Right(c, m, y, tasks, inodes, Found(c, m, y, file, peers))
  {
    hide Inv, Gives, Blocks, FileByte, PeersOf, Giver, Look, Found, Place, AllSlots;
    var t := tasks[Owner(y)].value;
    assert Some(t) in tasks;
    var inode := Backing(t, Place(y));
    if inode.Some? {
      GiverIsLast(m, y, tasks, inodes, inode.value, peers);
    }
    FoundCases(c, m, y, file, peers);
  }

  /**
    * A task that shares with nobody finds its executable below the end of its data, 1024 bytes further on in the file,
    * then zeros, and from 60 MB on its library; missing blocks are zeros.
    */
  lemma AloneFinds(c: Config, m: Mem, y: Slot, tasks: seq<Option<Task>>, inodes: seq<Inode>, page: Page)
    requires Inv(c, m) && IsSlot(y) && Valid(tasks, inodes) && tasks[Owner(y)].Some?
    requires Right(c, m, y, tasks, inodes, page) && y in m.e && m.e[y] == Clear
    requires forall p | 0 <= p < |tasks| && p != Owner(y) :: tasks[p].None?
    ensures var t := tasks[Owner(y)].value;
            var at := (y.d * 1024 + y.i) * 4096 - Owner(y) * 0x400_0000;
            && |page| == 4096 && 0 <= at < 0x400_0000
            && forall k | 0 <= k < 4096 ::
                 if at < 0x3c0_0000 then page[k] == FromFile(inodes, t.executable, at + k < t.endData, at + k)
                 else page[k] == FromFile(inodes, t.library, !(at < t.endData <= at + k), at - 0x3c0_0000 + k)
  {
    hide Inv, Look, Sharable;
    var t := tasks[Owner(y)].value;
    assert Some(t) in tasks;
    var at := Place(y);
    if Backing(t, at).Some? {
      assert !SomeGives(m, y, tasks, inodes, Backing(t, at).value);
    }
  }

  /** Byte k after the header of the file, when there is one and the byte is wanted. */
  ghost function FromFile(inodes: seq<Inode>, file: Option<nat>, wanted: bool, k: nat): byte
    requires forall f | f in inodes :: Blocks(f)
    requires file.Some? ==> file.value < |inodes|
  {
    if !wanted || file.None? then 0
    else
      assert inodes[file.value] in inodes && Blocks(inodes[file.value]);
      var blocks := inodes[file.value].blocks;
      if 1 + k / 1024 in blocks then blocks[1 + k / 1024][k % 1024] else 0
  }

  lemma CostIsRight(m: Mem, y: Slot, tasks: seq<Option<Task>>, inodes: seq<Inode>, file: Option<Page>, peers: seq<nat>)
    requires IsSlot(y) && y in m.e && |m.dirs| == DIRS && Valid(tasks, inodes) && tasks[Owner(y)].Some?
    requires Handed(y, tasks, inodes, file, peers)
    ensures ArePeers(y, peers) && LoadCost(m, y, file, peers) == Cost(m, y, tasks, inodes)
  {
    hide Gives, Sharable, Blocks, FileByte, PeersOf, Giver, Place, AllSlots, SomeGives, IsFilePage;
    var t := tasks[Owner(y)].value;
    assert Some(t) in tasks;
    var inode := Backing(t, Place(y));
    if inode.Some? {
      GiverIsLast(m, y, tasks, inodes, inode.value, peers);
    }
  }

  /** do_no_page for task Owner(y); it fails exactly when frames run short. */
  method NoPage(m: Paging.Machine, y: Slot, tasks: seq<Option<Task>>, inodes: seq<Inode>) returns (ok: bool)
    requires m.Valid() && IsSlot(y) && !m.Abs().e[y].Mapped?
    requires Valid(tasks, inodes) && tasks[Owner(y)].Some?
    modifies m.memMap, m.data, m.tables, m.dir, m.bitmap, m`held
    ensures m.Valid() && SameViews(m.cfg, old(m.Abs()), m.Abs(), {y}) && m.held == old(m.held)
    ensures ok <==> old(Free(m.Abs())) >= old(Cost(m.Abs(), y, tasks, inodes))
    ensures Free(m.Abs()) + (if ok then old(Cost(m.Abs(), y, tasks, inodes)) else 0) == old(Free(m.Abs()))
    ensures ok ==> m.Abs().e[y].Mapped? && Look(m.cfg, m.Abs(), y).Some? &&
                   Right(m.cfg, old(m.Abs()), y, tasks, inodes, Look(m.cfg, m.Abs(), y).value)
    ensures !ok ==> m.Abs().e == old(m.Abs()).e && Look(m.cfg, m.Abs(), y) == old(Look(m.cfg, m.Abs(), y))
  {
    hide CountsOk, SwapOk, ExclusiveOk, AlignedOk, SameViews, Free, Right, Cost, Found, LoadCost, IsFilePage, Shares;
    var t := tasks[Owner(y)].value;
    assert Some(t) in tasks;
    var at := Place(y);
    var inode := Backing(t, at);
    var file: Option<Page>, peers := None, [];
    if inode.Some? {
      var i := inode.value;
      var page := ReadPage(inodes[i], at, t.endData);
      file := Some(page);
      peers := if inodes[i].count < 2 then [] else PeersOf(tasks, Owner(y), at, i, NR_TASKS);
    }
    FoundIsRight(m.cfg, m.Abs(), y, tasks, inodes, file, peers);
    CostIsRight(m.Abs(), y, tasks, inodes, file, peers);
    ok := m.DoNoPage(y, file, peers);
  }
}
