/**
 * Editor coordinates ({line, ch}) and the arithmetic the controller does on
 * them. The reference point is `PosAfter(prefix)`: the coordinate of the gap
 * that follows `prefix` in any text beginning with `prefix`, that is, the
 * number of newlines before the gap and the distance back to the start of its
 * line.
 */
module EditorCoords {
  import opened Wire

  /** Number of newline characters in `s`. */
  function Newlines(s: string): nat
  {
    if s == [] then 0 else Newlines(s[..|s| - 1]) + (if s[|s| - 1] == '\n' then 1 else 0)
  }

  /** Index just after the last newline of `s`, or 0 when there is none. */
  function LineStart(s: string): (k: nat)
    ensures k <= |s|
  {
    if s == [] then 0 else if s[|s| - 1] == '\n' then |s| else LineStart(s[..|s| - 1])
  }

  /** The coordinate of the gap right after `prefix`. */
  function PosAfter(prefix: string): Pos
  {
    Pos(Newlines(prefix), |prefix| - LineStart(prefix))
  }

  /** The coordinate reached from `p` by passing over the text `s`. */
  function Shift(p: Pos, s: string): Pos
  {
    if Newlines(s) == 0 then Pos(p.line, p.ch + |s|)
    else Pos(p.line + Newlines(s), |s| - LineStart(s))
  }

  /** Passing over one character: a newline moves to the start of the next line. */
  function Step(c: char, p: Pos): Pos
  {
    if c == '\n' then Pos(p.line + 1, 0) else Pos(p.line, p.ch + 1)
  }

  lemma {:induction false} NewlinesAppend(a: string, b: string)
    ensures Newlines(a + b) == Newlines(a) + Newlines(b)
    decreases |b|
  {
    if b == [] {
      assert a + b == a;
    } else {
      var b' := b[..|b| - 1];
      assert (a + b)[..|a + b| - 1] == a + b';
      NewlinesAppend(a, b');
    }
  }

  lemma {:induction false} LineStartAppend(a: string, b: string)
    ensures LineStart(a + b) == if Newlines(b) == 0 then LineStart(a) else |a| + LineStart(b)
    decreases |b|
  {
    if b == [] {
      assert a + b == a;
    } else {
      var b' := b[..|b| - 1];
      assert (a + b)[..|a + b| - 1] == a + b';
      LineStartAppend(a, b');
    }
  }

  /** Walking over `a` and then over `b` ends where walking over `a + b` ends. */
  lemma PosAfterAppend(a: string, b: string)
    ensures PosAfter(a + b) == Shift(PosAfter(a), b)
  {
    NewlinesAppend(a, b);
    LineStartAppend(a, b);
  }

  /** Passing over one more character is one `Step`. */
  lemma ShiftStep(p: Pos, s: string, c: char)
    ensures Shift(p, s + [c]) == Step(c, Shift(p, s))
  {
    NewlinesAppend(s, [c]);
    LineStartAppend(s, [c]);
    assert [c][..0] == [];
  }

  /**
   * Where the insert loop places each character of `chars`, starting at
   * `start`: character `i` goes where the cursor is after passing over the
   * `i` characters before it.
   */
  function Placements(chars: string, start: Pos): (ps: seq<Pos>)
    ensures |ps| == |chars|
  {
    seq(|chars|, i requires 0 <= i < |chars| => Shift(start, chars[..i]))
  }

  /**
   * The first character goes at the start; a character that follows a newline
   * goes to column 0 of the next line; any other goes one column to the right
   * of its predecessor. Its line is the start line plus the newlines before it.
   */
  lemma PlacementStep(chars: string, start: Pos, i: nat)
    requires i < |chars|
    ensures i == 0 ==> Placements(chars, start)[i] == start
    ensures 0 < i ==> (Placements(chars, start)[i] ==
      if chars[i - 1] == '\n'
      then Pos(Placements(chars, start)[i - 1].line + 1, 0)
      else Pos(Placements(chars, start)[i - 1].line, Placements(chars, start)[i - 1].ch + 1))
    ensures Placements(chars, start)[i].line == start.line + Newlines(chars[..i])
  {
    if i > 0 {
      assert chars[..i] == chars[..i - 1] + [chars[i - 1]];
      ShiftStep(start, chars[..i - 1], chars[i - 1]);
    }
  }

  /**
   * Inserted at the gap after `pre`, each character lands at the coordinate it
   * has in the text that results: the gap after `pre` and the characters before it.
   */
  lemma PlacementsInText(pre: string, chars: string, i: nat)
    requires i < |chars|
    ensures Placements(chars, PosAfter(pre))[i] == PosAfter(pre + chars[..i])
  {
    PosAfterAppend(pre, chars[..i]);
  }

  /** The cursor after the insert loop: one column right of the last character placed. */
  function FinalCursor(chars: string, start: Pos): Pos
  {
    if chars == [] then start
    else
      var last := Shift(start, chars[..|chars| - 1]);
      Pos(last.line, last.ch + 1)
  }

  /**
   * The loop moves down one line per newline among all characters but the
   * last. The cursor ends right after the inserted text unless the text ends
   * with a newline, in which case it stays on that newline's line.
   */
  lemma FinalCursorAfterText(chars: string, start: Pos)
    requires chars != []
    ensures FinalCursor(chars, start).line == start.line + Newlines(chars[..|chars| - 1])
    ensures chars[|chars| - 1] != '\n' ==> FinalCursor(chars, start) == Shift(start, chars)
    ensures chars[|chars| - 1] == '\n' ==> FinalCursor(chars, start).line + 1 == Shift(start, chars).line
  {
    var n := |chars|;
    assert chars == chars[..n - 1] + [chars[n - 1]];
    ShiftStep(start, chars[..n - 1], chars[n - 1]);
  }

  /** The range handed to the editor for a remote insert of text at `pos`. */
  function InsertRange(pos: Pos): Range
  {
    Range(pos, pos)
  }

  /** The range handed to the editor for a remote delete of `value` at `pos`. */
  function DeleteRange(value: string, pos: Pos): Range
  {
    if value == "\n" then Range(pos, Pos(pos.line + 1, 0))
    else Range(pos, Pos(pos.line, pos.ch + 1))
  }

  /**
   * At the gap after `pre`, the insert range is empty, and the delete range of
   * a character `c` placed there runs from that gap to the gap after `c`:
   * exactly one character, a newline included.
   */
  lemma DeleteRangeCoversChar(pre: string, c: char)
    ensures InsertRange(PosAfter(pre)).from == PosAfter(pre) == InsertRange(PosAfter(pre)).to
    ensures DeleteRange([c], PosAfter(pre)) == Range(PosAfter(pre), PosAfter(pre + [c]))
  {
    PosAfterAppend(pre, [c]);
    assert [c][..0] == [];
  }
}
