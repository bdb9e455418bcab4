/**
 * The test runner's display helpers: `colorcode`, which paints every digit
 * of a program's input or output in its own terminal colour, and `indent`,
 * which prefixes every non-blank line with a marker.
 */
module Display {
  import opened Wrappers
  import opened Chars

  /** The ANSI escape character. */
  const Esc: char := 27 as char

  /** The escape sequence that resets the terminal's colours. */
  const Reset: string := [Esc] + "[0m"

  /** The SGR parameter `colorcode` uses for each digit. */
  function SgrCode(d: char): string
    requires IsDigit(d)
  {
    match d
    case '0' => "2"
    case '1' => "31"
    case '2' => "32"
    case '3' => "34"
    case '4' => "33"
    case '5' => "91"
    case '6' => "36"
    case '7' => "95"
    case '8' => "35"
    case _ => "37"
  }

  /** What `colorcode` emits for one character. */
  function Colored(c: char): string
  {
    if IsDigit(c) then [Esc] + "[" + SgrCode(c) + "m" + [c] + Reset else [c]
  }

  /** The pieces `f` gives the characters of `s`, concatenated in order. */
  function FlatMap(f: char -> string, s: string): string
  {
    if s == [] then [] else FlatMap(f, s[..|s| - 1]) + f(s[|s| - 1])
  }

  /** `colorcode(s)`. */
  function ColorCode(s: string): string
  {
    FlatMap(Colored, s)
  }

  /** The loop of `colorcode`: one piece appended per character. */
  method ColorCodeLoop(s: string) returns (output: string)
    ensures output == ColorCode(s)
  {
    output := "";
    for i := 0 to |s|
      invariant output == ColorCode(s[..i])
    {
      assert s[..i + 1][..i] == s[..i];
      output := output + Colored(s[i]);
    }
    assert s[..|s|] == s;
  }

  lemma {:induction false} FlatMapAppend(f: char -> string, s: string, t: string)
    ensures FlatMap(f, s + t) == FlatMap(f, s) + FlatMap(f, t)
    decreases |t|
  {
    if t == [] {
      assert s + t == s;
    } else {
      var t' := t[..|t| - 1];
      assert (s + t)[..|s + t| - 1] == s + t';
      FlatMapAppend(f, s, t');
    }
  }

  /** `colorcode` distributes over concatenation. */
  lemma ColorCodeAppend(s: string, t: string)
    ensures ColorCode(s + t) == ColorCode(s) + ColorCode(t)
  {
    FlatMapAppend(Colored, s, t);
  }

  /** Every character of `s` contributes its own piece, the first one first. */
  lemma ColorCodeCons(s: string)
    requires s != []
    ensures ColorCode(s) == Colored(s[0]) + ColorCode(s[1..])
  {
    assert s == [s[0]] + s[1..];
    FlatMapAppend(Colored, [s[0]], s[1..]);
    assert [s[0]][..0] == [];
  }

  /** A string without digits comes back unchanged. */
  lemma {:induction false} ColorCodeNoDigits(s: string)
    requires forall i :: 0 <= i < |s| ==> !IsDigit(s[i])
    ensures ColorCode(s) == s
  {
    if s != [] {
      ColorCodeNoDigits(s[..|s| - 1]);
      assert ColorCode(s) == ColorCode(s[..|s| - 1]) + Colored(s[|s| - 1]);
      assert s[..|s| - 1] + [s[|s| - 1]] == s;
    }
  }

  /** A digit is wrapped in its escape and the reset; anything else is copied. */
  lemma ColorCodeChar(c: char)
    ensures IsDigit(c) ==> ColorCode([c]) == [Esc, '['] + SgrCode(c) + ['m', c, Esc, '[', '0', 'm']
    ensures !IsDigit(c) ==> ColorCode([c]) == [c]
  {
    assert [c][..0] == [];
    assert ColorCode([c]) == FlatMap(Colored, []) + Colored(c);
  }

  /** The digit whose piece starts `o`, trying '0' to '9' from `d` on. */
  function PieceFrom(o: string, d: char): (r: Option<char>)
    requires IsDigit(d)
    ensures r.Some? ==> IsDigit(r.value) && Colored(r.value) <= o
    decreases '9' as int - d as int
  {
    if Colored(d) <= o then Some(d)
    else if d == '9' then None
    else PieceFrom(o, (d as int + 1) as char)
  }

  /** Removes the colour escapes `colorcode` adds: its left inverse. */
  function Uncolor(o: string): string
    decreases |o|
  {
    if o == [] then []
    else match PieceFrom(o, '0')
      case Some(d) => [d] + Uncolor(o[|Colored(d)|..])
      case None => [o[0]] + Uncolor(o[1..])
  }

  /** No two digits' pieces can both start the same string. */
  lemma PiecesDistinct(d: char, e: char, o: string)
    requires IsDigit(d) && IsDigit(e)
    requires Colored(d) <= o && Colored(e) <= o
    ensures d == e
  {
    assert o[2] == Colored(d)[2] == Colored(e)[2];
    assert o[3] == Colored(d)[3] == Colored(e)[3];
  }

  lemma {:induction false} PieceFromFinds(o: string, d: char, e: char)
    requires IsDigit(d) && IsDigit(e) && d <= e
    requires Colored(e) <= o
    ensures PieceFrom(o, d) == Some(e)
    decreases '9' as int - d as int
  {
    if Colored(d) <= o {
      PiecesDistinct(d, e, o);
    } else {
      PieceFromFinds(o, (d as int + 1) as char, e);
    }
  }

  /** Stripping the colours from `colorcode(s)` gives back `s`, as long as
      `s` holds no escape character of its own. */
  lemma {:induction false} UncolorColorCode(s: string)
    requires Esc !in s
    ensures Uncolor(ColorCode(s)) == s
    decreases |s|
  {
    if s != [] {
      ColorCodeCons(s);
      var o := ColorCode(s);
      var c := s[0];
      if IsDigit(c) {
        PieceFromFinds(o, '0', c);
        assert o[|Colored(c)|..] == ColorCode(s[1..]);
      } else {
        assert o[0] == c;
        assert o[1..] == ColorCode(s[1..]);
      }
      UncolorColorCode(s[1..]);
      assert s == [c] + s[1..];
    }
  }

  /** `s.rstrip()` followed by one newline: the text `indent` walks. The
      `s[-1] != '\n'` test in the source always passes after `rstrip`. */
  function Prepared(s: string): (t: string)
    ensures t == RStrip(s) + "\n"
  {
    var t := RStrip(s);
    if t == [] || t[|t| - 1] != '\n' then t + "\n" else t
  }

  /** The text `indent`'s loop appends for `t`, where `wasN` says whether
      the character before `t` was a newline. */
  function IndentFrom(t: string, ind: string, wasN: bool): string
    decreases |t|
  {
    if t == [] then []
    else (if wasN && t[0] != '\n' then ind else []) + [t[0]] + IndentFrom(t[1..], ind, t[0] == '\n')
  }

  /** `indent(s, ind)`. */
  function Indented(s: string, ind: string): string
  {
    ind + IndentFrom(Prepared(s), ind, false)
  }

  /** Walking one more character extends the output at its end. */
  lemma {:induction false} IndentFromSnoc(t: string, c: char, ind: string, wasN: bool)
    ensures IndentFrom(t + [c], ind, wasN)
      == IndentFrom(t, ind, wasN)
         + (if (if t == [] then wasN else t[|t| - 1] == '\n') && c != '\n' then ind else [])
         + [c]
    decreases |t|
  {
    if t == [] {
      assert [c][1..] == [];
    } else {
      assert (t + [c])[1..] == t[1..] + [c];
      IndentFromSnoc(t[1..], c, ind, t[0] == '\n');
    }
  }

  /** The loop of `indent`, with its one-bit state `was_n`. */
  method Indent(s: string, ind: string) returns (out: string)
    ensures out == Indented(s, ind)
  {
    var t := RStrip(s);
    if t == [] || t[|t| - 1] != '\n' {
      t := t + "\n";
    }
    out := ind;
    var wasN := false;
    for i := 0 to |t|
      invariant out == ind + IndentFrom(t[..i], ind, false)
      invariant wasN == (i > 0 && t[i - 1] == '\n')
    {
      var c := t[i];
      assert t[..i + 1] == t[..i] + [c];
      IndentFromSnoc(t[..i], c, ind, false);
      if wasN && c != '\n' {
        out := out + ind;
      }
      wasN := c == '\n';
      out := out + [c];
    }
    assert t[..|t|] == t;
  }

  /** Whitespace at the end of the input never changes the display. */
  lemma IndentIgnoresTrailingSpace(s: string, w: string, ind: string)
    requires AllSpace(w)
    ensures Indented(s + w, ind) == Indented(s, ind)
  {
    RStripIgnoresTrailingSpace(s, w);
  }

  /** The output starts with `ind` and ends in a newline that does not follow
      another newline, unless the input is blank and `ind` itself ends in one. */
  lemma IndentedShape(s: string, ind: string)
    ensures var r := Indented(s, ind);
      ind <= r && |r| >= |ind| + 1 && r[|r| - 1] == '\n'
      && (RStrip(s) != [] ==> |r| >= 2 && r[|r| - 2] == RStrip(s)[|RStrip(s)| - 1] != '\n')
      && (RStrip(s) == [] ==> r == ind + "\n")
  {
    var u := RStrip(s);
    IndentFromSnoc(u, '\n', ind, false);
    if u != [] {
      var u' := u[..|u| - 1];
      assert u == u' + [u[|u| - 1]];
      IndentFromSnoc(u', u[|u| - 1], ind, false);
    }
  }

  /** Undoes `IndentFrom` past its first line: a newline followed by a
      non-newline must be followed by `ind`, which is dropped. */
  function DedentLines(o: string, ind: string): Option<string>
    decreases |o|
  {
    if o == [] then Some([])
    else
      var head := o[0];
      var rest := o[1..];
      if head == '\n' && rest != [] && rest[0] != '\n' then
        if ind <= rest then Cons(head, DedentLines(rest[|ind|..], ind)) else None
      else Cons(head, DedentLines(rest, ind))
  }

  function Cons(c: char, r: Option<string>): Option<string>
  {
    if r.Some? then Some([c] + r.value) else None
  }

  /** Removes every `ind` that `indent` inserts; `None` when `o` lacks one
      where `indent` would have put it. */
  function Dedent(o: string, ind: string): Option<string>
  {
    if ind <= o then DedentLines(o[|ind|..], ind) else None
  }

  lemma {:induction false} DedentIndentFrom(t: string, ind: string)
    requires ind == [] || ind[0] != '\n'
    ensures DedentLines(IndentFrom(t, ind, false), ind) == Some(t)
    decreases |t|
  {
    if t != [] {
      var c, t' := t[0], t[1..];
      var rest := IndentFrom(t', ind, c == '\n');
      assert IndentFrom(t, ind, false) == [c] + rest;
      assert ([c] + rest)[1..] == rest;
      DedentIndentFrom(t', ind);
      if c == '\n' && t' != [] && t'[0] != '\n' {
        assert rest == ind + IndentFrom(t', ind, false);
        assert rest[|ind|..] == IndentFrom(t', ind, false);
      } else if c == '\n' && t' != [] {
        assert rest == IndentFrom(t', ind, false);
      }
      assert t == [c] + t';
    }
  }

  /** Deleting the inserted copies of `ind` from `indent(s, ind)` gives back
      `s.rstrip() + '\n'`: `ind` sits exactly at the start and after each
      newline that is followed by a non-newline, so blank lines get none. */
  lemma IndentRoundTrip(s: string, ind: string)
    requires ind == [] || ind[0] != '\n'
    ensures Dedent(Indented(s, ind), ind) == Some(RStrip(s) + "\n")
  {
    var r := Indented(s, ind);
    assert r[|ind|..] == IndentFrom(Prepared(s), ind, false);
    DedentIndentFrom(Prepared(s), ind);
  }
}
