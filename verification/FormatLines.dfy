/** The line-ending normaliser again, one line at a time, as a reference for the
    five substitutions over the whole text. */
module FormatLines {
  import opened Common
  import opened FormatDos

  // -------------------------------------------------------- the reference

  predicate AllBlank(s: seq<Byte>) {
    forall i | 0 <= i < |s| :: Blank(s[i])
  }

  /** Drops the blanks at the end. */
  function RStrip(s: seq<Byte>): seq<Byte> {
    if AllBlank(s) then [] else [s[0]] + RStrip(s[1..])
  }

  /** What it drops are the blanks and tabs at the end, all of them. */
  lemma {:induction false} RStripExactly(s: seq<Byte>)
    ensures var t := RStrip(s);
      && t <= s && (forall i | |t| <= i < |s| :: s[i] == 0x20 || s[i] == 0x09)
      && (t != [] ==> t[|t| - 1] != 0x20 && t[|t| - 1] != 0x09)
  {
    if !AllBlank(s) {
      RStripExactly(s[1..]);
      if RStrip(s[1..]) == [] { assert AllBlank(s[1..]); }
      assert s == [s[0]] + s[1..];
    }
  }

  function UpToLf(s: seq<Byte>): (b: seq<Byte>)
    ensures LF !in b && |b| <= |s| && s[..|b|] == b
    ensures |b| < |s| ==> s[|b|] == LF
  {
    if s == [] || s[0] == LF then [] else [s[0]] + UpToLf(s[1..])
  }

  /** The CR that may stand before the LF of a line is not part of it. */
  function WithoutCr(line: seq<Byte>): seq<Byte> {
    if line != [] && line[|line| - 1] == CR then line[..|line| - 1] else line
  }

  function FormatLine(line: seq<Byte>): seq<Byte> {
    Tabs(RStrip(line)) + [CR, LF]
  }

  /** What follows the last LF: nothing, a text with a CR at its end, which is
      taken for ended and keeps its blanks, or a line to be ended. */
  function LastPart(s: seq<Byte>): seq<Byte> {
    if s == [] then []
    else if s[|s| - 1] == CR then Tabs(s)
    else FormatLine(s)
  }

  function ByLines(s: seq<Byte>): seq<Byte> {
    var line := UpToLf(s);
    if |line| == |s| then LastPart(s)
    else FormatLine(WithoutCr(line)) + ByLines(s[|line| + 1..])
  }

  // ------------------------------------------------------- step by step

  predicate EndsInCr(line: seq<Byte>, afterCr: bool) {
    if line == [] then afterCr else line[|line| - 1] == CR
  }

  lemma {:induction false} InsertLine(line: seq<Byte>, rest: seq<Byte>, afterCr: bool)
    requires LF !in line
    ensures InsertCr(line + ([LF] + rest), afterCr)
         == line + ((if EndsInCr(line, afterCr) then [LF] else [CR, LF]) + InsertCr(rest, false))
  {
    if line == [] {
      assert line + ([LF] + rest) == [LF] + rest;
      InsertCrCons(LF, rest, afterCr);
    } else {
      var tail := line[1..];
      assert line == [line[0]] + tail && line[0] in line;
      InsertLine(tail, rest, line[0] == CR);
      Assoc([line[0]], tail, [LF] + rest);
      InsertCrCons(line[0], tail + ([LF] + rest), afterCr);
      Assoc([line[0]], tail, (if EndsInCr(line, afterCr) then [LF] else [CR, LF]) + InsertCr(rest, false));
    }
  }

  lemma LineEndTogether(line: seq<Byte>, rest: seq<Byte>)
    ensures line + [CR] + ([LF] + rest) == line + ([CR, LF] + rest)
  {
  }

  lemma InsertWhole(line: seq<Byte>, rest: seq<Byte>)
    requires LF !in line
    ensures InsertCr(line + ([LF] + rest), false) == WithoutCr(line) + ([CR, LF] + InsertCr(rest, false))
  {
    InsertLine(line, rest, false);
    if EndsInCr(line, false) {
      assert line == WithoutCr(line) + [CR];
      LineEndTogether(WithoutCr(line), InsertCr(rest, false));
    }
  }

  lemma {:induction false} NoLf(s: seq<Byte>, afterCr: bool)
    requires LF !in s
    ensures LfAfterCr(s, afterCr) && NoBlankBeforeEnd(s)
  {
    if s != [] {
      assert s[0] in s;
      NoLf(s[1..], s[0] == CR);
    }
  }

  /** A text closed as the third substitution closes it. */
  function Ended(s: seq<Byte>): seq<Byte> {
    if Closed(s) then s else s + [CR, LF]
  }

  lemma EndedLine(line: seq<Byte>, rest: seq<Byte>)
    ensures Ended(line + ([CR, LF] + rest)) == line + ([CR, LF] + Ended(rest))
  {
    var all := line + ([CR, LF] + rest);
    if rest == [] {
      assert all[|all| - 1] == LF;
    } else {
      assert all[|all| - 1] == rest[|rest| - 1];
    }
  }

  lemma {:induction false} BlankLine(line: seq<Byte>, rest: seq<Byte>)
    requires LF !in line
    ensures BlankToEnd(line + ([CR, LF] + rest)) <==> AllBlank(line)
  {
    var all := line + ([CR, LF] + rest);
    if line == [] {
      assert all[0] == CR && all[1] == LF;
    } else {
      BlankLine(line[1..], rest);
      assert all[1..] == line[1..] + ([CR, LF] + rest);
      assert line == [line[0]] + line[1..];
      assert |line| > 1 ==> line[1] in line;
    }
  }

  lemma DropCons(c: Byte, rest: seq<Byte>)
    ensures DropBlanks([c] + rest) == (if Blank(c) && BlankToEnd([c] + rest) then [] else [c]) + DropBlanks(rest)
  {
    assert ([c] + rest)[1..] == rest;
  }

  lemma {:induction false} DropLine(line: seq<Byte>, rest: seq<Byte>)
    requires LF !in line
    ensures DropBlanks(line + ([CR, LF] + rest)) == RStrip(line) + ([CR, LF] + DropBlanks(rest))
  {
    BlankLine(line, rest);
    if line == [] {
      assert line + ([CR, LF] + rest) == [CR] + ([LF] + rest);
      DropCons(CR, [LF] + rest);
      DropCons(LF, rest);
      Assoc([CR], [LF], DropBlanks(rest));
      assert RStrip(line) + ([CR, LF] + DropBlanks(rest)) == [CR, LF] + DropBlanks(rest);
    } else {
      var c, tail := line[0], line[1..];
      DropLine(tail, rest);
      assert line == [c] + tail;
      Assoc([c], tail, [CR, LF] + rest);
      DropCons(c, tail + ([CR, LF] + rest));
      if AllBlank(line) {
        assert AllBlank(tail);
        assert [] + DropBlanks(tail + ([CR, LF] + rest)) == DropBlanks(tail + ([CR, LF] + rest));
      } else {
        Assoc([c], RStrip(tail), [CR, LF] + DropBlanks(rest));
      }
    }
  }

  /** Tabs are expanded one by one, wherever they stand. */
  lemma {:induction false} TabsAppend(a: seq<Byte>, b: seq<Byte>)
    ensures Tabs(a + b) == Tabs(a) + Tabs(b)
  {
    if a == [] {
      assert a + b == b;
    } else {
      TabsAppend(a[1..], b);
      assert (a + b)[1..] == a[1..] + b;
      Assoc(if a[0] == TAB then [SP, SP] else [a[0]], Tabs(a[1..]), Tabs(b));
    }
  }

  /** Each into two blanks. */
  lemma TabsExactly(c: Byte)
    ensures Tabs([c]) == if c == 0x09 then [0x20, 0x20] else [c]
  {
    assert [c][1..] == [];
  }

  lemma {:induction false} TabsWiden(s: seq<Byte>)
    ensures |Tabs(s)| == |s| + multiset(s)[0x09]
  {
    if s != [] {
      TabsWiden(s[1..]);
      assert s == [s[0]] + s[1..];
    }
  }

  lemma TabsLine(line: seq<Byte>, rest: seq<Byte>)
    ensures Tabs(RStrip(line) + ([CR, LF] + rest)) == FormatLine(line) + Tabs(rest)
  {
    TabsAppend(RStrip(line), [CR, LF] + rest);
    TabsAppend([CR, LF], rest);
    NoTabs([CR, LF]);
    Assoc(Tabs(RStrip(line)), [CR, LF], Tabs(rest));
  }

  function Rest(s: seq<Byte>): seq<Byte> {
    Tabs(DropBlanks(Ended(InsertCr(s, false))))
  }

  lemma RestOfLine(line: seq<Byte>, rest: seq<Byte>)
    requires LF !in line
    ensures Rest(line + ([LF] + rest)) == FormatLine(WithoutCr(line)) + Rest(rest)
  {
    var w, r := WithoutCr(line), InsertCr(rest, false);
    InsertWhole(line, rest);
    EndedLine(w, r);
    DropLine(w, Ended(r));
    TabsLine(w, DropBlanks(Ended(r)));
  }

  lemma RestOfLastPart(s: seq<Byte>)
    requires LF !in s
    ensures Rest(s) == LastPart(s)
  {
    NoLf(s, false);
    InsertNothing(s, false);
    if Closed(s) {
      assert s != [] ==> s[|s| - 1] in s;
      DropNothing(s);
    } else {
      assert s + ([CR, LF] + []) == s + [CR, LF];
      DropLine(s, []);
      TabsLine(s, []);
      assert FormatLine(s) + Tabs([]) == FormatLine(s);
    }
  }

  lemma {:induction false} RestByLines(s: seq<Byte>)
    ensures Rest(s) == ByLines(s)
    decreases |s|
  {
    var line := UpToLf(s);
    if |line| == |s| {
      assert s == line;
      RestOfLastPart(s);
    } else {
      var rest := s[|line| + 1..];
      assert s == line + ([LF] + rest);
      RestOfLine(line, rest);
      RestByLines(rest);
    }
  }

  /** The five substitutions do to every text what formatting it line by line
      does: each line loses its blanks at the end, has its tabs expanded and
      ends in CRLF. */
  lemma SameAsByLines(content: seq<Byte>)
    ensures Format(content) == ByLines(content)
  {
    TwoStepsInsertCr(content, true, false);
    InsertedCrs(content, false);
    Closes(InsertCr(content, false));
    RunsAreBlanks(LastLine(InsertCr(content, false)));
    RestByLines(content);
  }
}
