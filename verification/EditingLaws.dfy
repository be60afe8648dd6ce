/** What editing a line means to the person who types it: sessions of keys, and the text a program then reads
    (student-distrib/idt_handlers.c, syscall_handlers.c). */
module EditingLaws {
  import opened Common
  import opened TextLayout
  import opened EditedLine
  import opened LineEditor

  function Chars(s: seq<byte>): (ks: seq<Key>)
    ensures |ks| == |s|
  {
    seq(|s|, i requires 0 <= i < |s| => Char(s[i]))
  }

  function Times(k: Key, n: nat): (ks: seq<Key>)
    ensures |ks| == n
  {
    seq(n, _ => k)
  }

  predicate Printable(s: seq<byte>) {
    forall i :: 0 <= i < |s| ==> s[i] != 0 && s[i] != 10 && s[i] != 13
  }

  /** The cursor stands behind the last character. */
  predicate AtEnd(l: Line) {
    LineOk(l) && l.cursor == |l.text|
  }

  // ---------------------------------------------------------------- one key

  /** Backspace takes the character before the cursor off the end of a line, and blanks it inside one. */
  lemma BackspaceLaw(l: Line)
    requires LineOk(l)
    ensures var r := Press(l, Backspace);
      && (l.cursor == 0 ==> r == l)
      && (0 < l.cursor ==> r.cursor == l.cursor - 1 && r.echo)
      && (0 < l.cursor == |l.text| ==> |r.text| == |l.text| - 1 && r.text <= l.text)
      && (0 < l.cursor < |l.text| ==>
            |r.text| == |l.text| && forall i :: 0 <= i < |l.text| ==>
              r.text[i] == if i == l.cursor - 1 then 32 else l.text[i])
      && r.last == l.last && r.current == l.current && r.recalled == l.recalled
  {
  }

  /** A character goes behind the end of a line, or over the character at the cursor; a cursor behind 127
      characters takes none and switches the echo off. */
  lemma CharLaw(l: Line, b: byte)
    requires LineOk(l) && b != 0 && b != 10 && b != 13
    ensures var r := Press(l, Char(b));
      && (l.cursor == 127 ==> r.text == l.text && r.cursor == 127 && !r.echo)
      && (l.cursor < 127 ==> r.cursor == l.cursor + 1 && r.echo == l.echo && r.text[l.cursor] == b)
      && (l.cursor < 127 ==> |r.text| == |l.text| + if l.cursor == |l.text| then 1 else 0)
      && (l.cursor < 127 ==> forall i :: 0 <= i < |l.text| && i != l.cursor ==> r.text[i] == l.text[i])
      && r.last == l.last && r.recalled == l.recalled
      && r.current == if l.recalled then l.current else r.text[..r.cursor]
  {
  }

  /** The cursor keys move within the line and leave the text alone. Arrow right stays where the screen's cursor
      cannot move. */
  lemma CursorLaw(l: Line, moved: bool)
    requires LineOk(l)
    ensures var r := Stroke(l, Left, moved);
      r.cursor == (if l.cursor == 0 then 0 else l.cursor - 1) && r.text == l.text
    ensures var r := Stroke(l, Right, moved);
      r.cursor == (if moved && l.cursor < |l.text| then l.cursor + 1 else l.cursor) && r.text == l.text
  {
  }

  // ---------------------------------------------------------------- sessions

  lemma {:induction false} PressJoin(l: Line, a: seq<Key>, b: seq<Key>, moves: seq<bool>, more: seq<bool>)
    requires LineOk(l) && AllOk(a) && AllOk(b) && |moves| == |a| && |more| == |b|
    ensures PressAll(l, a + b, moves + more) == PressAll(PressAll(l, a, moves), b, more)
    decreases |a|
  {
    if a == [] {
      assert a + b == b && moves + more == more;
    } else {
      assert (a + b)[1..] == a[1..] + b && (moves + more)[1..] == moves[1..] + more;
      PressJoin(Stroke(l, a[0], moves[0]), a[1..], b, moves[1..], more);
    }
  }

  /** What is typed at the end of a line is appended to it, and is what arrow down would bring back. */
  lemma {:induction false} TypedBehind(l: Line, s: seq<byte>, moves: seq<bool>)
    requires AtEnd(l) && Printable(s) && |l.text| + |s| <= 127 && |moves| == |s|
    ensures AllOk(Chars(s))
    ensures var r := PressAll(l, Chars(s), moves);
      && AtEnd(r) && r.text == l.text + s
      && r.last == l.last && r.recalled == l.recalled && r.echo == l.echo
      && (!l.recalled && (s != [] || l.current == l.text) ==> r.current == r.text)
    decreases |s|
  {
    if s == [] {
      assert l.text + s == l.text;
    } else {
      var n := Stroke(l, Char(s[0]), moves[0]);
      assert Chars(s)[1..] == Chars(s[1..]);
      assert n.text == l.text + [s[0]] && n.text[..n.cursor] == n.text;
      TypedBehind(n, s[1..], moves[1..]);
      assert n.text + s[1..] == l.text + s;
    }
  }

  /** Backspaces at the end of a line take as many characters off it. */
  lemma {:induction false} ErasedFromEnd(l: Line, n: nat, moves: seq<bool>)
    requires AtEnd(l) && n <= |l.text| && |moves| == n
    ensures AllOk(Times(Backspace, n))
    ensures var r := PressAll(l, Times(Backspace, n), moves);
      AtEnd(r) && r.text == l.text[..|l.text| - n] && r.last == l.last && r.recalled == l.recalled
    decreases n
  {
    if n > 0 {
      var next := Stroke(l, Backspace, moves[0]);
      assert Times(Backspace, n)[1..] == Times(Backspace, n - 1);
      BackspaceLaw(l);
      ErasedFromEnd(next, n - 1, moves[1..]);
      assert next.text[..|next.text| - (n - 1)] == l.text[..|l.text| - n];
    }
  }

  /** Typing a text and erasing it again gives back line and cursor. */
  lemma ErasingUndoesTyping(l: Line, t: seq<byte>, moves: seq<bool>, more: seq<bool>)
    requires AtEnd(l) && Printable(t) && |l.text| + |t| <= 127 && |moves| == |more| == |t|
    ensures AllOk(Chars(t) + Times(Backspace, |t|))
    ensures var r := PressAll(l, Chars(t) + Times(Backspace, |t|), moves + more);
      r.text == l.text && r.cursor == l.cursor
  {
    TypedBehind(l, t, moves);
    var typed := PressAll(l, Chars(t), moves);
    ErasedFromEnd(typed, |t|, more);
    PressJoin(l, Chars(t), Times(Backspace, |t|), moves, more);
    assert (l.text + t)[..|l.text|] == l.text;
  }

  /** A program reads the text that was typed, corrections left out, and a newline: all of it, unless it asked
      for fewer bytes. */
  lemma CorrectedTextIsRead(l: Line, s: seq<byte>, t: seq<byte>, m: seq<bool>, moves: seq<bool>, more: seq<bool>,
                            nbytes: nat)
    requires AtEnd(l) && l.text == [] && Printable(s) && Printable(t) && |s| + |t| <= 127
    requires |m| == |s| && |moves| == |more| == |t|
    ensures AllOk(Chars(s) + (Chars(t) + Times(Backspace, |t|)))
    ensures var end := PressAll(l, Chars(s) + (Chars(t) + Times(Backspace, |t|)), m + (moves + more));
      Keyboard.Delivery(end.text, nbytes) == s[..Min(|s|, nbytes)] + [10]
  {
    TypedBehind(l, s, m);
    var typed := PressAll(l, Chars(s), m);
    ErasingUndoesTyping(typed, t, moves, more);
    PressJoin(l, Chars(s), Chars(t) + Times(Backspace, |t|), m, moves + more);
    assert [] + s == s;
  }

  lemma {:induction false} MovedLeft(l: Line, n: nat, moves: seq<bool>)
    requires LineOk(l) && n <= l.cursor && |moves| == n
    ensures AllOk(Times(Left, n))
    ensures var r := PressAll(l, Times(Left, n), moves);
      r.text == l.text && r.cursor == l.cursor - n
    decreases n
  {
    if n > 0 {
      assert Times(Left, n)[1..] == Times(Left, n - 1);
      MovedLeft(Stroke(l, Left, moves[0]), n - 1, moves[1..]);
    }
  }

  /** A text written over another, from position `at` on. */
  function Over(text: seq<byte>, at: nat, s: seq<byte>): seq<byte>
    requires at + |s| <= |text|
  {
    text[..at] + s + text[at + |s|..]
  }

  lemma OverStep(text: seq<byte>, at: nat, s: seq<byte>)
    requires s != [] && at + |s| <= |text|
    ensures Over(text[at := s[0]], at + 1, s[1..]) == Over(text, at, s)
  {
    assert text[at := s[0]][..at + 1] == text[..at] + [s[0]];
    assert text[..at] + [s[0]] + s[1..] == text[..at] + s;
  }

  lemma OverOne(l: Line, b: byte, moved: bool)
    requires LineOk(l) && IsPrintable(b) && l.cursor < |l.text|
    ensures var r := Stroke(l, Char(b), moved);
      r.text == l.text[l.cursor := b] && r.cursor == l.cursor + 1
  {
  }

  lemma {:induction false} TypedOver(l: Line, s: seq<byte>, moves: seq<bool>)
    requires LineOk(l) && Printable(s) && l.cursor + |s| <= |l.text| && |moves| == |s|
    ensures AllOk(Chars(s))
    ensures var r := PressAll(l, Chars(s), moves);
      r.text == Over(l.text, l.cursor, s) && r.cursor == l.cursor + |s|
    decreases |s|
  {
    assert s == [] ==> Over(l.text, l.cursor, s) == l.text;
    hide Stroke, LineOk, Text, Printable, Over;
    if s != [] {
      FirstTyped(l, s, moves);
      var n := Stroke(l, Char(s[0]), moves[0]);
      OverOne(l, s[0], moves[0]);
      OverStep(l.text, l.cursor, s);
      TypedOver(n, s[1..], moves[1..]);
    }
  }

  lemma FirstTyped(l: Line, s: seq<byte>, moves: seq<bool>)
    requires LineOk(l) && Printable(s) && s != [] && |moves| == |s|
    ensures IsPrintable(s[0]) && Printable(s[1..])
    ensures AllOk(Chars(s)) && AllOk(Chars(s[1..]))
    ensures PressAll(l, Chars(s), moves) == PressAll(Stroke(l, Char(s[0]), moves[0]), Chars(s[1..]), moves[1..])
  {
    assert Chars(s)[1..] == Chars(s[1..]);
  }

  /** Going back over the last `n` characters and typing replaces as many characters as are typed. */
  lemma TypingReplaces(l: Line, n: nat, s: seq<byte>, moves: seq<bool>, more: seq<bool>)
    requires AtEnd(l) && |s| <= n <= |l.text| && Printable(s) && |moves| == n && |more| == |s|
    ensures AllOk(Times(Left, n) + Chars(s))
    ensures var at := |l.text| - n;
      PressAll(l, Times(Left, n) + Chars(s), moves + more).text
        == l.text[..at] + s + l.text[at + |s|..]
  {
    hide PressAll, Text;
    MovedLeft(l, n, moves);
    TypedOver(PressAll(l, Times(Left, n), moves), s, more);
    PressJoin(l, Times(Left, n), Chars(s), moves, more);
  }

  /** After a text has been entered and another begun, arrow up shows the first, once, and arrow down brings
      back the second, after which arrow up shows the first again. The echo is on after a line has been entered. */
  lemma UpAndDown(l: Line, s: seq<byte>, t: seq<byte>, m: seq<bool>, moves: seq<bool>)
    requires AtEnd(l) && l.text == [] && Printable(s) && Printable(t) && 0 < |s| <= 127 && |t| <= 127
    requires |m| == |s| && |moves| == |t|
    ensures AllOk(Chars(s)) && AllOk(Chars(t))
    ensures var begun := PressAll(Entered(PressAll(l, Chars(s), m)), Chars(t), moves);
      var up := Press(begun, Up);
      && begun.text == t && begun.echo
      && up.text == s && up.cursor == |s| && Press(up, Up) == up
      && Press(up, Down).text == t && Press(up, Down).cursor == |t|
      && Press(Press(up, Down), Up) == up
  {
    TypedBehind(l, s, m);
    assert [] + s == s;
    TypedBehind(Entered(PressAll(l, Chars(s), m)), t, moves);
    assert [] + t == t;
  }
}
