/** The canonical mode of kernel/chr_drv/tty_io.c on sequences of characters. */
module LineEditing {
  import opened Options

  /** A signed char, as copy_to_cooked and tty_read hold it. */
  type schar = x: int | -128 <= x < 128

  type cc = x: int | 0 <= x < 256

  const CAPACITY: nat := 1023 // TTY_BUF_SIZE - 1
  const NL: schar := 10

  /** The flags and control characters that matter; a control character of 0 is switched off. */
  datatype Termios = Termios(
    icanon: bool, isig: bool, ixon: bool, icrnl: bool, igncr: bool, inlcr: bool, iuclc: bool,
    intr: cc, quit: cc, susp: cc, erase: cc, kill: cc, eof: cc, start: cc, stop: cc)

  predicate Is(c: schar, control: cc) { control != 0 && c == control }

  /** A newline, or the end-of-file character if there is one. */
  predicate IsTerm(t: Termios, c: schar) { c == NL || Is(c, t.eof) }

  /** Mapping of carriage returns, newlines and capitals; None for a return that is ignored. */
  function Mapped(t: Termios, c: schar): Option<schar> {
    if c == 13 && !t.icrnl && t.igncr then None
    else
      var d: schar := if c == 13 && t.icrnl then 10 else if c == 10 && t.inlcr then 13 else c;
      Some(if t.iuclc && 65 <= d <= 90 then d + 32 else d)
  }

  predicate IsControl(t: Termios, c: schar) {
    || (t.ixon && (Is(c, t.stop) || Is(c, t.start)))
    || (t.isig && (Is(c, t.intr) || Is(c, t.quit) || Is(c, t.susp)))
  }

  /** All complete lines at the front of s. */
  function Complete(t: Termios, s: seq<schar>): (p: seq<schar>)
    ensures p <= s
  {
    if s == [] || IsTerm(t, s[|s| - 1]) then s else Complete(t, s[..|s| - 1])
  }

  /** What a mapped character does to the cooked queue. */
  function Cook(t: Termios, s: seq<schar>, c: schar): seq<schar> {
    if t.icanon && Is(c, t.kill) then Complete(t, s)
    else if t.icanon && Is(c, t.erase) then (if s == [] || IsTerm(t, s[|s| - 1]) then s else s[..|s| - 1])
    else if IsControl(t, c) then s
    else s + [c]
  }

  function CookRaw(t: Termios, s: seq<schar>, c: schar): seq<schar> {
    match Mapped(t, c)
    case None => s
    case Some(d) => Cook(t, s, d)
  }

  /** copy_to_cooked: characters are taken until there are none or the cooked queue is full. */
  function CookAll(t: Termios, s: seq<schar>, raw: seq<schar>): (seq<schar>, seq<schar>)
    decreases |raw|
  {
    if raw == [] || |s| >= CAPACITY then (s, raw) else CookAll(t, CookRaw(t, s, raw[0]), raw[1..])
  }

  datatype Signal = Interrupt | Quit | Suspend

  /** Output stopped by the stop character, and the signals sent to the process group. */
  datatype Side = Side(stopped: bool, signals: seq<Signal>)

  /** A mapped character's effect elsewhere; an orphaned process group is not suspended. */
  function SideOf(t: Termios, x: Side, c: schar, orphaned: bool): Side {
    if t.icanon && (Is(c, t.kill) || Is(c, t.erase)) then x
    else if t.ixon && Is(c, t.stop) then x.(stopped := true)
    else if t.ixon && Is(c, t.start) then x.(stopped := false)
    else if t.isig && Is(c, t.intr) then x.(signals := x.signals + [Interrupt])
    else if t.isig && Is(c, t.quit) then x.(signals := x.signals + [Quit])
    else if t.isig && Is(c, t.susp) && !orphaned then x.(signals := x.signals + [Suspend])
    else x
  }

  function SideRaw(t: Termios, x: Side, c: schar, orphaned: bool): Side {
    match Mapped(t, c)
    case None => x
    case Some(d) => SideOf(t, x, d, orphaned)
  }

  function SideAll(t: Termios, s: seq<schar>, raw: seq<schar>, x: Side, orphaned: bool): Side
    decreases |raw|
  {
    if raw == [] || |s| >= CAPACITY then x
    else SideAll(t, CookRaw(t, s, raw[0]), raw[1..], SideRaw(t, x, raw[0], orphaned), orphaned)
  }

  /** The number of line ends in s. */
  function Terms(t: Termios, s: seq<schar>): nat {
    if s == [] then 0 else (if IsTerm(t, s[0]) then 1 else 0) + Terms(t, s[1..])
  }

  lemma {:induction false} TermsAppend(t: Termios, a: seq<schar>, b: seq<schar>)
    ensures Terms(t, a + b) == Terms(t, a) + Terms(t, b)
  {
    if a == [] {
      assert a + b == b;
    } else {
      TermsAppend(t, a[1..], b);
      assert (a + b)[1..] == a[1..] + b;
    }
  }

  lemma TermsLast(t: Termios, s: seq<schar>)
    requires s != []
    ensures Terms(t, s) == Terms(t, s[..|s| - 1]) + (if IsTerm(t, s[|s| - 1]) then 1 else 0)
  {
    var l := s[|s| - 1..];
    TermsAppend(t, s[..|s| - 1], l);
    assert s[..|s| - 1] + l == s;
    assert Terms(t, l) == (if IsTerm(t, l[0]) then 1 else 0) + Terms(t, l[1..]);
  }

  /** The count of line ends follows the queue: an end adds one, erase and kill take none. */
  lemma CookTerms(t: Termios, s: seq<schar>, c: schar)
    ensures Terms(t, Cook(t, s, c)) == Terms(t, s) + (if |Cook(t, s, c)| > |s| && IsTerm(t, c) then 1 else 0)
  {
    hide IsTerm, IsControl, Complete;
    CompleteTerms(t, s);
    if s != [] {
      TermsLast(t, s);
    }
    TermsLast(t, s + [c]);
    assert (s + [c])[..|s|] == s;
    assert |Complete(t, s)| <= |s|;
  }

  /** Killing a line removes no line end; the rest holds none. */
  lemma {:induction false} CompleteTerms(t: Termios, s: seq<schar>)
    ensures Terms(t, Complete(t, s)) == Terms(t, s)
    ensures forall k :: |Complete(t, s)| <= k < |s| ==> !IsTerm(t, s[k])
    ensures Complete(t, s) != [] ==> IsTerm(t, Complete(t, s)[|Complete(t, s)| - 1])
  {
    if !(s == [] || IsTerm(t, s[|s| - 1])) {
      CompleteTerms(t, s[..|s| - 1]);
      TermsLast(t, s);
    }
  }

  /** Erase and kill never touch a character at or before the last line end. */
  lemma LinesAreSafe(t: Termios, s: seq<schar>, c: schar)
    ensures Complete(t, s) <= CookRaw(t, s, c)
  {
  }

  // ---------- a line editor for reference ----------

  /** Lines entered, each with its end, and the line being typed. */
  datatype Editor = Editor(lines: seq<seq<schar>>, cur: seq<schar>)

  function Flat(lines: seq<seq<schar>>): seq<schar> {
    if lines == [] then [] else lines[0] + Flat(lines[1..])
  }

  function Text(e: Editor): seq<schar> { Flat(e.lines) + e.cur }

  ghost predicate IsLine(t: Termios, l: seq<schar>) {
    l != [] && IsTerm(t, l[|l| - 1]) && forall k :: 0 <= k < |l| - 1 ==> !IsTerm(t, l[k])
  }

  ghost predicate GoodEditor(t: Termios, e: Editor) {
    (forall i :: 0 <= i < |e.lines| ==> IsLine(t, e.lines[i])) && forall k :: 0 <= k < |e.cur| ==> !IsTerm(t, e.cur[k])
  }

  function Edit(t: Termios, e: Editor, c: schar): Editor {
    if Is(c, t.kill) then Editor(e.lines, [])
    else if Is(c, t.erase) then Editor(e.lines, if e.cur == [] then [] else e.cur[..|e.cur| - 1])
    else if IsControl(t, c) then e
    else if IsTerm(t, c) then Editor(e.lines + [e.cur + [c]], [])
    else Editor(e.lines, e.cur + [c])
  }

  lemma {:induction false} FlatAppend(a: seq<seq<schar>>, l: seq<schar>)
    ensures Flat(a + [l]) == Flat(a) + l
  {
    if a == [] {
      assert a + [l] == [l] && [l][1..] == [];
    } else {
      FlatAppend(a[1..], l);
      assert (a + [l])[1..] == a[1..] + [l];
    }
  }

  lemma {:induction false} FlatEnds(t: Termios, lines: seq<seq<schar>>)
    requires forall i :: 0 <= i < |lines| ==> IsLine(t, lines[i])
    ensures Terms(t, Flat(lines)) == |lines|
    ensures Flat(lines) == [] <==> lines == []
    ensures lines != [] ==> IsTerm(t, Flat(lines)[|Flat(lines)| - 1])
  {
    if lines != [] {
      var l, rest := lines[0], lines[1..];
      assert IsLine(t, l);
      FlatEnds(t, rest);
      TermsAppend(t, l, Flat(rest));
      LineTerms(t, l);
    }
  }

  lemma LineTerms(t: Termios, l: seq<schar>)
    requires IsLine(t, l)
    ensures Terms(t, l) == 1
  {
    TermsLast(t, l);
    NoTerms(t, l[..|l| - 1]);
  }

  lemma {:induction false} NoTerms(t: Termios, s: seq<schar>)
    requires forall k :: 0 <= k < |s| ==> !IsTerm(t, s[k])
    ensures Terms(t, s) == 0
  {
    if s != [] {
      NoTerms(t, s[1..]);
    }
  }

  lemma {:induction false} CompleteOfText(t: Termios, a: seq<schar>, cur: seq<schar>)
    requires (a == [] || IsTerm(t, a[|a| - 1])) && forall k :: 0 <= k < |cur| ==> !IsTerm(t, cur[k])
    ensures Complete(t, a + cur) == a
  {
    if cur == [] {
      assert a + cur == a;
    } else {
      var n := |cur| - 1;
      assert (a + cur)[..|a + cur| - 1] == a + cur[..n];
      CompleteOfText(t, a, cur[..n]);
    }
  }

  lemma EditorText(t: Termios, e: Editor)
    requires GoodEditor(t, e)
    ensures Complete(t, Text(e)) == Flat(e.lines) && Terms(t, Text(e)) == |e.lines|
    ensures Text(e) == [] || IsTerm(t, Text(e)[|Text(e)| - 1]) <==> e.cur == []
  {
    hide Complete, Flat, Terms, IsTerm;
    FlatEnds(t, e.lines);
    CompleteOfText(t, Flat(e.lines), e.cur);
    NoTerms(t, e.cur);
    TermsAppend(t, Flat(e.lines), e.cur);
  }

  /** In canonical mode the queue is edited exactly like the reference editor, and its line ends count the lines. */
  lemma CookIsEdit(t: Termios, e: Editor, c: schar)
    requires t.icanon && GoodEditor(t, e)
    ensures GoodEditor(t, Edit(t, e, c)) && Cook(t, Text(e), c) == Text(Edit(t, e, c))
    ensures Terms(t, Text(e)) == |e.lines|
  {
    hide Complete, Flat, Terms, IsTerm, IsControl;
    var a := Flat(e.lines);
    EditorText(t, e);
    FlatAppend(e.lines, e.cur + [c]);
    assert a + [] == a;
    if e.cur != [] {
      assert Text(e)[..|Text(e)| - 1] == a + e.cur[..|e.cur| - 1];
    }
    assert Text(e) + [c] == a + (e.cur + [c]);
    assert a + (e.cur + [c]) + [] == a + (e.cur + [c]);
  }

  // ---------- what single keys do ----------

  /** No character stands for two things. */
  predicate KeysApart(t: Termios) {
    var keys := [t.kill, t.erase, t.stop, t.start, t.intr, t.quit, t.susp];
    forall i, j :: 0 <= i < j < |keys| && keys[i] == keys[j] ==> keys[i] == 0
  }

  /** What each control character does to the cooked queue and elsewhere; any other character is added to the queue. */
  lemma KeyDoes(t: Termios, s: seq<schar>, x: Side, c: schar, orphaned: bool)
    requires KeysApart(t) && c > 0 && c != 10 && c != 13 && !(t.iuclc && 65 <= c <= 90)
    ensures var q, y := CookRaw(t, s, c), SideRaw(t, x, c, orphaned);
            if t.icanon && c == t.kill then y == x && q <= s && CookRaw(t, q, c) == q
            else if t.icanon && c == t.erase then
              var kept := s == [] || s[|s| - 1] == 10 || (t.eof != 0 && s[|s| - 1] == t.eof);
              y == x && q == if kept then s else s[..|s| - 1]
            else if t.ixon && c == t.stop then y == Side(true, x.signals) && q == s
            else if t.ixon && c == t.start then y == Side(false, x.signals) && q == s
            else if t.isig && c == t.intr then y == Side(x.stopped, x.signals + [Interrupt]) && q == s
            else if t.isig && c == t.quit then y == Side(x.stopped, x.signals + [Quit]) && q == s
            else if t.isig && c == t.susp then
              y == Side(x.stopped, if orphaned then x.signals else x.signals + [Suspend]) && q == s
            else y == x && q == s + [c]
  {
    var keys := [t.kill, t.erase, t.stop, t.start, t.intr, t.quit, t.susp];
    assert keys[0] == t.kill && keys[1] == t.erase && keys[2] == t.stop && keys[3] == t.start && keys[4] == t.intr &&
           keys[5] == t.quit && keys[6] == t.susp;
    CompleteTwice(t, s);
  }

  lemma {:induction false} CompleteTwice(t: Termios, s: seq<schar>)
    ensures Complete(t, Complete(t, s)) == Complete(t, s)
  {
    if !(s == [] || IsTerm(t, s[|s| - 1])) {
      CompleteTwice(t, s[..|s| - 1]);
    }
  }

  /** Return and newline keys: with icrnl a return ends the line being typed, as a newline does without inlcr. */
  lemma ReturnEndsLine(t: Termios, e: Editor, c: schar)
    requires t.icanon && GoodEditor(t, e) && (c == 13 || c == 10)
    requires !Is(10, t.kill) && !Is(10, t.erase) && !IsControl(t, 10)
    ensures (if c == 13 then t.icrnl else !t.inlcr) ==>
      CookRaw(t, Text(e), c) == Text(Editor(e.lines + [e.cur + [10]], []))
    ensures c == 13 && !t.icrnl && t.igncr ==> CookRaw(t, Text(e), c) == Text(e)
    ensures (if c == 13 then !t.icrnl && !t.igncr else t.inlcr) ==> CookRaw(t, Text(e), c) == Cook(t, Text(e), 13)
  {
    hide Text, GoodEditor, IsControl, Cook;
    CookIsEdit(t, e, 10);
  }

  /** With iuclc capitals count as small letters. */
  lemma CapitalsAreSmall(t: Termios, s: seq<schar>, x: Side, c: schar, orphaned: bool)
    requires t.iuclc && 65 <= c <= 90
    ensures CookRaw(t, s, c) == CookRaw(t, s, c + 32) && SideRaw(t, x, c, orphaned) == SideRaw(t, x, c + 32, orphaned)
  {
    hide Cook, SideOf;
  }

  function EditAll(t: Termios, e: Editor, raw: seq<schar>): Editor
    decreases |raw|
  {
    if raw == [] then e
    else EditAll(t, Typed(t, e, raw[0]), raw[1..])
  }

  /** However much is typed ahead, what copy_to_cooked took of it has become what the reference editor makes of it. */
  lemma {:induction false} CookAllIsEdit(t: Termios, e: Editor, raw: seq<schar>)
    requires t.icanon && GoodEditor(t, e)
    ensures var r := CookAll(t, Text(e), raw);
            && |r.1| <= |raw| && r.1 == raw[|raw| - |r.1|..] && r.0 == Text(EditAll(t, e, raw[..|raw| - |r.1|]))
            && (r.1 == [] || |r.0| >= CAPACITY)
            && GoodEditor(t, EditAll(t, e, raw[..|raw| - |r.1|]))
    decreases |raw|
  {
    hide Edit, Cook, CookRaw, Text, Mapped, GoodEditor, EditAll, CookAll;
    CookAllStep(t, Text(e), raw);
    if raw != [] && |Text(e)| < CAPACITY {
      var f := Typed(t, e, raw[0]);
      TypedIs(t, e, raw[0]);
      CookAllIsEdit(t, f, raw[1..]);
      var n := |raw| - |CookAll(t, Text(e), raw).1|;
      assert raw[n..] == raw[1..][n - 1..];
      assert raw[..n][1..] == raw[1..][..n - 1];
      EditAllStep(t, e, raw[..n]);
    } else {
      assert raw[|raw| - |raw|..] == raw && raw[..0] == [];
      EditAllStep(t, e, []);
    }
  }

  lemma CookAllStep(t: Termios, s: seq<schar>, raw: seq<schar>)
    ensures CookAll(t, s, raw) ==
            if raw == [] || |s| >= CAPACITY then (s, raw) else CookAll(t, CookRaw(t, s, raw[0]), raw[1..])
  {
  }

  lemma EditAllStep(t: Termios, e: Editor, raw: seq<schar>)
    ensures EditAll(t, e, raw) == if raw == [] then e else EditAll(t, Typed(t, e, raw[0]), raw[1..])
  {
  }

  /** One character typed at the reference editor. */
  function Typed(t: Termios, e: Editor, c: schar): Editor {
    match Mapped(t, c)
    case None => e
    case Some(d) => Edit(t, e, d)
  }

  lemma TypedIs(t: Termios, e: Editor, c: schar)
    requires t.icanon && GoodEditor(t, e)
    ensures GoodEditor(t, Typed(t, e, c)) && CookRaw(t, Text(e), c) == Text(Typed(t, e, c))
  {
    hide Edit, Cook, Text, Mapped, GoodEditor;
    if Mapped(t, c).Some? {
      CookIsEdit(t, e, Mapped(t, c).value);
    }
  }

  // ---------- reading ----------

  /** How many characters the inner loop of tty_read takes from the queue s for a read of nr. */
  function Taken(t: Termios, s: seq<schar>, nr: nat): (k: nat)
    requires s != [] && nr > 0
    ensures 0 < k <= |s| && k <= nr
    decreases |s|
  {
    var c := s[0];
    if t.icanon && IsTerm(t, c) then 1
    else if nr == 1 || |s| == 1 then 1
    else 1 + Taken(t, s[1..], nr - 1)
  }

  /** What it copies: an end-of-file character ends a canonical read but is not part of it. */
  function Copied(t: Termios, s: seq<schar>, nr: nat): (b: seq<schar>)
    requires s != [] && nr > 0
  {
    var k := Taken(t, s, nr);
    if t.icanon && Is(s[k - 1], t.eof) then s[..k - 1] else s[..k]
  }

  /** A canonical read returns at most one line. */
  lemma {:induction false} OneLine(t: Termios, s: seq<schar>, nr: nat)
    requires t.icanon && s != [] && nr > 0
    ensures var k := Taken(t, s, nr);
            && (forall i :: 0 <= i < k - 1 ==> !IsTerm(t, s[i]))
            && (IsTerm(t, s[k - 1]) || k == nr || k == |s|) && k <= nr
  {
    if !(IsTerm(t, s[0]) || nr == 1 || |s| == 1) {
      OneLine(t, s[1..], nr - 1);
    }
  }

  /** A canonical read with room for it takes exactly the first line entered, and leaves the others. */
  lemma ReadsALine(t: Termios, e: Editor, nr: nat)
    requires t.icanon && GoodEditor(t, e) && e.lines != [] && nr >= |e.lines[0]|
    ensures Text(e) != [] && nr > 0
    ensures var k, l := Taken(t, Text(e), nr), e.lines[0];
            && k == |l| && Text(e)[k..] == Text(Editor(e.lines[1..], e.cur))
            && Copied(t, Text(e), nr) == if Is(l[|l| - 1], t.eof) then l[..|l| - 1] else l
  {
    var l := e.lines[0];
    assert IsLine(t, l);
    assert Text(e) == l + Text(Editor(e.lines[1..], e.cur));
    TakenLine(t, l, Text(Editor(e.lines[1..], e.cur)), nr);
  }

  lemma {:induction false} TakenLine(t: Termios, l: seq<schar>, rest: seq<schar>, nr: nat)
    requires t.icanon && IsLine(t, l) && nr >= |l|
    ensures Taken(t, l + rest, nr) == |l|
  {
    if |l| > 1 {
      assert (l + rest)[1..] == l[1..] + rest;
      TakenLine(t, l[1..], rest, nr - 1);
    }
  }
}
