/** The substitutions of the line-ending normaliser, and their normal form. */
module FormatDos {
  import opened Common

  const CR: Byte := 0x0D
  const LF: Byte := 0x0A
  const SP: Byte := 0x20
  const TAB: Byte := 0x09

  predicate Blank(c: Byte) { c == SP || c == TAB }

  predicate Eol(c: Byte) { c == CR || c == LF }

  // ---------------------------------------------------------- the pipeline

  /** `([^\r])\n` becomes `\1\r\n`; a match consumes both bytes. */
  function CrBeforeLf(s: seq<Byte>): seq<Byte> {
    if |s| < 2 then s
    else if s[0] != CR && s[1] == LF then [s[0], CR, LF] + CrBeforeLf(s[2..])
    else [s[0]] + CrBeforeLf(s[1..])
  }

  /** `^\n`, with `^` matching after every newline, becomes `\r\n`. */
  function EmptyLines(s: seq<Byte>, atStart: bool): seq<Byte> {
    if s == [] then []
    else (if s[0] == LF && atStart then [CR, LF] else [s[0]]) + EmptyLines(s[1..], s[0] == LF)
  }

  /** `([^\r\n])$` becomes `\1\r\n`; `$` also matches before a final newline. */
  function LastLine(s: seq<Byte>): seq<Byte> {
    var n := |s|;
    if n >= 1 && !Eol(s[n - 1]) then s + [CR, LF]
    else if n >= 2 && s[n - 1] == LF && !Eol(s[n - 2]) then s[..n - 1] + [CR, LF] + [LF]
    else s
  }

  function BlankRun(s: seq<Byte>): (n: nat)
    ensures n <= |s|
  {
    if s != [] && Blank(s[0]) then 1 + BlankRun(s[1..]) else 0
  }

  predicate StartsCrLf(s: seq<Byte>) {
    |s| >= 2 && s[0] == CR && s[1] == LF
  }

  /** `[ \t]+(\r\n)` becomes `\1`. */
  function TrailingBlanks(s: seq<Byte>): seq<Byte> {
    if s == [] then []
    else
      var n := BlankRun(s);
      if n > 0 && StartsCrLf(s[n..]) then [CR, LF] + TrailingBlanks(s[n + 2..])
      else [s[0]] + TrailingBlanks(s[1..])
  }

  function Tabs(s: seq<Byte>): seq<Byte> {
    if s == [] then [] else (if s[0] == TAB then [SP, SP] else [s[0]]) + Tabs(s[1..])
  }

  function Format(content: seq<Byte>): seq<Byte> {
    Tabs(TrailingBlanks(LastLine(EmptyLines(CrBeforeLf(content), true))))
  }

  // ----------------------------------------------------- single-pass forms

  /** A CR before each LF that has none. */
  function InsertCr(s: seq<Byte>, afterCr: bool): seq<Byte> {
    if s == [] then []
    else (if s[0] == LF && !afterCr then [CR, LF] else [s[0]]) + InsertCr(s[1..], s[0] == CR)
  }

  /** Only blanks stand between here and a CRLF. */
  predicate BlankToEnd(s: seq<Byte>) {
    if s != [] && Blank(s[0]) then BlankToEnd(s[1..]) else StartsCrLf(s)
  }

  function DropBlanks(s: seq<Byte>): seq<Byte> {
    if s == [] then []
    else (if Blank(s[0]) && BlankToEnd(s) then [] else [s[0]]) + DropBlanks(s[1..])
  }

  lemma EmptyLinesCons(c: Byte, rest: seq<Byte>, atStart: bool)
    ensures EmptyLines([c] + rest, atStart)
         == (if c == LF && atStart then [CR, LF] else [c]) + EmptyLines(rest, c == LF)
  {
    assert ([c] + rest)[1..] == rest;
  }

  lemma InsertCrCons(c: Byte, rest: seq<Byte>, afterCr: bool)
    ensures InsertCr([c] + rest, afterCr)
         == (if c == LF && !afterCr then [CR, LF] else [c]) + InsertCr(rest, c == CR)
  {
    assert ([c] + rest)[1..] == rest;
  }

  /** A match of the first step: what the second makes of its three bytes. */
  lemma MatchedPair(c: Byte, rest: seq<Byte>, atStart: bool, afterCr: bool)
    requires c != CR && (atStart ==> !afterCr) && (!atStart && c == LF ==> afterCr)
    ensures EmptyLines([c, CR, LF] + rest, atStart)
         == (if c == LF && !afterCr then [CR, LF] else [c]) + ([CR, LF] + EmptyLines(rest, true))
  {
    EmptyLinesCons(c, [CR] + ([LF] + rest), atStart);
    EmptyLinesCons(CR, [LF] + rest, c == LF);
    EmptyLinesCons(LF, rest, false);
    assert [c, CR, LF] + rest == [c] + ([CR] + ([LF] + rest));
    assert [CR] + ([LF] + EmptyLines(rest, true)) == [CR, LF] + EmptyLines(rest, true);
  }

  /** The first two substitutions together insert the missing CRs, although the
      matches of the first do not overlap: an LF it skips starts a line. */
  lemma {:induction false} TwoStepsInsertCr(s: seq<Byte>, atStart: bool, afterCr: bool)
    requires atStart ==> !afterCr
    requires !atStart && s != [] && s[0] == LF ==> afterCr
    ensures EmptyLines(CrBeforeLf(s), atStart) == InsertCr(s, afterCr)
  {
    if |s| >= 2 && s[0] != CR && s[1] == LF {
      TwoStepsInsertCr(s[2..], true, false);
      MatchedPair(s[0], CrBeforeLf(s[2..]), atStart, afterCr);
      InsertCrCons(s[0], [LF] + s[2..], afterCr);
      InsertCrCons(LF, s[2..], false);
      assert s == [s[0]] + ([LF] + s[2..]);
    } else if s != [] {
      var rest := s[1..];
      TwoStepsInsertCr(rest, s[0] == LF, s[0] == CR);
      InsertCrCons(s[0], rest, afterCr);
      EmptyLinesCons(s[0], CrBeforeLf(rest), atStart);
      assert s == [s[0]] + rest;
      assert |s| == 1 ==> rest == [] && CrBeforeLf(rest) == [];
      assert CrBeforeLf(s) == [s[0]] + CrBeforeLf(rest);
    }
  }

  lemma {:induction false} RunToEnd(s: seq<Byte>)
    ensures BlankToEnd(s) <==> StartsCrLf(s[BlankRun(s)..])
  {
    if s != [] && Blank(s[0]) {
      RunToEnd(s[1..]);
      assert s[BlankRun(s)..] == s[1..][BlankRun(s[1..])..];
    }
  }

  lemma {:induction false} RunDropped(s: seq<Byte>)
    requires BlankToEnd(s)
    ensures var n := BlankRun(s); StartsCrLf(s[n..]) && DropBlanks(s) == [CR, LF] + DropBlanks(s[n + 2..])
  {
    RunToEnd(s);
    if s != [] && Blank(s[0]) {
      RunDropped(s[1..]);
      assert s[BlankRun(s) + 2..] == s[1..][BlankRun(s[1..]) + 2..];
      assert DropBlanks(s) == DropBlanks(s[1..]);
    } else {
      assert s[1..][1..] == s[2..];
      assert DropBlanks(s[1..]) == [LF] + DropBlanks(s[2..]);
      Assoc([CR], [LF], DropBlanks(s[2..]));
    }
  }

  /** The substitution of whole runs drops each blank before a CRLF. */
  lemma {:induction false} RunsAreBlanks(s: seq<Byte>)
    ensures TrailingBlanks(s) == DropBlanks(s)
    decreases |s|
  {
    if s != [] {
      var n := BlankRun(s);
      RunToEnd(s);
      if n > 0 && StartsCrLf(s[n..]) {
        RunDropped(s);
        RunsAreBlanks(s[n + 2..]);
      } else {
        RunsAreBlanks(s[1..]);
      }
    }
  }

  // ------------------------------------------------------------ normal form

  predicate LfAfterCr(s: seq<Byte>, afterCr: bool) {
    s == [] || ((s[0] == LF ==> afterCr) && LfAfterCr(s[1..], s[0] == CR))
  }

  predicate NoBlankBeforeEnd(s: seq<Byte>) {
    s == [] || (!(Blank(s[0]) && StartsCrLf(s[1..])) && NoBlankBeforeEnd(s[1..]))
  }

  predicate Closed(s: seq<Byte>) {
    s == [] || Eol(s[|s| - 1])
  }

  predicate Normal(s: seq<Byte>) {
    LfAfterCr(s, false) && NoBlankBeforeEnd(s) && TAB !in s && Closed(s)
  }

  predicate LfHasCr(s: seq<Byte>, i: nat, afterCr: bool)
    requires i < |s|
  {
    s[i] == 0x0A ==> if i == 0 then afterCr else s[i - 1] == 0x0D
  }

  predicate EachLfAfterCr(s: seq<Byte>, afterCr: bool) {
    forall i | 0 <= i < |s| :: LfHasCr(s, i, afterCr)
  }

  predicate NoBlankAtEnd(s: seq<Byte>) {
    forall i | 0 <= i < |s| - 2 && s[i + 1] == 0x0D && s[i + 2] == 0x0A :: s[i] != 0x20 && s[i] != 0x09
  }

  lemma {:induction false} LfsExactly(s: seq<Byte>, afterCr: bool)
    ensures LfAfterCr(s, afterCr) <==> EachLfAfterCr(s, afterCr)
  {
    if s != [] {
      var rest, cr := s[1..], s[0] == CR;
      LfsExactly(rest, cr);
      if EachLfAfterCr(rest, cr) && LfHasCr(s, 0, afterCr) {
        forall i | 0 <= i < |s| ensures LfHasCr(s, i, afterCr) {
          if i > 0 { LfNext(s, i - 1, afterCr); }
        }
      }
      if EachLfAfterCr(s, afterCr) {
        forall i | 0 <= i < |rest| ensures LfHasCr(rest, i, cr) { LfNext(s, i, afterCr); }
        assert LfHasCr(s, 0, afterCr);
      }
    }
  }

  lemma LfNext(s: seq<Byte>, i: nat, afterCr: bool)
    requires i + 1 < |s|
    ensures LfHasCr(s[1..], i, s[0] == CR) <==> LfHasCr(s, i + 1, afterCr)
  {
  }

  lemma {:induction false} BlanksExactly(s: seq<Byte>)
    ensures NoBlankBeforeEnd(s) <==> NoBlankAtEnd(s)
  {
    if s != [] {
      var rest := s[1..];
      BlanksExactly(rest);
      assert forall i | 0 <= i < |rest| :: rest[i] == s[i + 1];
      if NoBlankAtEnd(rest) && !(Blank(s[0]) && StartsCrLf(rest)) {
        forall i | 0 <= i < |s| - 2 && s[i + 1] == 0x0D && s[i + 2] == 0x0A ensures s[i] != 0x20 && s[i] != 0x09 {
          if i > 0 { assert rest[i - 1] == s[i] && rest[i] == 0x0D && rest[i + 1] == 0x0A; }
        }
      }
      if NoBlankAtEnd(s) {
        forall i | 0 <= i < |rest| - 2 && rest[i + 1] == 0x0D && rest[i + 2] == 0x0A
          ensures rest[i] != 0x20 && rest[i] != 0x09
        {
          assert s[i + 2] == 0x0D && s[i + 3] == 0x0A;
        }
      }
    }
  }

  /** The normal form, byte by byte. */
  lemma NormalExactly(s: seq<Byte>)
    ensures Normal(s) <==>
      && (forall i | 0 <= i < |s| && s[i] == 0x0A :: i > 0 && s[i - 1] == 0x0D)
      && (forall i | 0 <= i < |s| - 2 && s[i + 1] == 0x0D && s[i + 2] == 0x0A :: s[i] != 0x20 && s[i] != 0x09)
      && 0x09 !in s && (s != [] ==> s[|s| - 1] == 0x0D || s[|s| - 1] == 0x0A)
  {
    LfsExactly(s, false);
    BlanksExactly(s);
    assert forall i | 0 <= i < |s| :: LfHasCr(s, i, false) <==> (s[i] == 0x0A ==> i > 0 && s[i - 1] == 0x0D);
  }

  lemma {:induction false} InsertedCrs(s: seq<Byte>, afterCr: bool)
    ensures LfAfterCr(InsertCr(s, afterCr), afterCr)
  {
    if s != [] {
      InsertedCrs(s[1..], s[0] == CR);
      var t := InsertCr(s, afterCr);
      var rest := InsertCr(s[1..], s[0] == CR);
      if s[0] == LF && !afterCr {
        assert t[1..] == [LF] + rest;
        assert t[1..][1..] == rest;
      } else {
        assert t[1..] == rest;
      }
    }
  }

  lemma {:induction false} LfAfterCrAppend(s: seq<Byte>, afterCr: bool)
    requires LfAfterCr(s, afterCr)
    ensures LfAfterCr(s + [CR, LF], afterCr)
  {
    if s == [] {
      assert [CR, LF][1..] == [LF] && [LF][1..] == [];
      assert s + [CR, LF] == [CR, LF];
    } else {
      LfAfterCrAppend(s[1..], s[0] == CR);
      assert (s + [CR, LF])[1..] == s[1..] + [CR, LF];
    }
  }

  lemma {:induction false} LastTwo(s: seq<Byte>, afterCr: bool)
    requires LfAfterCr(s, afterCr) && |s| >= 2 && s[|s| - 1] == LF
    ensures s[|s| - 2] == CR
  {
    if |s| > 2 { LastTwo(s[1..], s[0] == CR); }
  }

  /** The third step closes the text and keeps the CRs right. */
  lemma Closes(s: seq<Byte>)
    requires LfAfterCr(s, false)
    ensures LastLine(s) == (if Closed(s) then s else s + [CR, LF])
    ensures LfAfterCr(LastLine(s), false) && Closed(LastLine(s))
  {
    if |s| >= 2 && s[|s| - 1] == LF { LastTwo(s, false); }
    LfAfterCrAppend(s, false);
  }

  lemma {:induction false} DroppingStarts(s: seq<Byte>)
    ensures StartsCrLf(DropBlanks(s)) <==> BlankToEnd(s)
  {
    if s != [] {
      DroppingStarts(s[1..]);
      if Blank(s[0]) && BlankToEnd(s) {
        assert DropBlanks(s) == DropBlanks(s[1..]);
      } else if |s| >= 2 {
        assert DropBlanks(s)[1..] == DropBlanks(s[1..]);
        DropHead(s[1..]);
      }
    }
  }

  /** What a text starts with after its blanks have been dropped is not LF
      unless it was LF before. */
  lemma {:induction false} DropHead(s: seq<Byte>)
    ensures DropBlanks(s) != [] && DropBlanks(s)[0] == LF ==> s[0] == LF
  {
    if s != [] && Blank(s[0]) && BlankToEnd(s) {
      RunDropped(s);
    }
  }

  lemma {:induction false} Dropped(s: seq<Byte>, afterCr: bool)
    requires LfAfterCr(s, afterCr)
    ensures NoBlankBeforeEnd(DropBlanks(s))
    ensures LfAfterCr(DropBlanks(s), afterCr)
    ensures Closed(s) ==> Closed(DropBlanks(s)) && (s != [] ==> DropBlanks(s) != [])
  {
    if s != [] {
      Dropped(s[1..], s[0] == CR);
      DroppingStarts(s[1..]);
      var d := DropBlanks(s[1..]);
      if Blank(s[0]) && BlankToEnd(s) {
        RunDropped(s);
        assert DropBlanks(s) == d;
        assert d[0] == CR;
      } else {
        assert DropBlanks(s)[1..] == d;
        assert Closed(s) && |s| > 1 ==> Closed(s[1..]);
      }
    }
  }

  lemma NormalCons(c: Byte, rest: seq<Byte>, afterCr: bool)
    ensures LfAfterCr([c] + rest, afterCr) <==> (c == LF ==> afterCr) && LfAfterCr(rest, c == CR)
    ensures NoBlankBeforeEnd([c] + rest) <==> !(Blank(c) && StartsCrLf(rest)) && NoBlankBeforeEnd(rest)
    ensures Closed([c] + rest) <==> if rest == [] then Eol(c) else Closed(rest)
    ensures StartsCrLf([c] + rest) <==> c == CR && rest != [] && rest[0] == LF
    ensures TAB in [c] + rest <==> c == TAB || TAB in rest
  {
    assert ([c] + rest)[1..] == rest;
    if rest != [] { assert ([c] + rest)[|rest|] == rest[|rest| - 1]; }
  }

  lemma {:induction false} TabsNormal(s: seq<Byte>, afterCr: bool)
    requires LfAfterCr(s, afterCr) && NoBlankBeforeEnd(s)
    ensures LfAfterCr(Tabs(s), afterCr) && NoBlankBeforeEnd(Tabs(s)) && TAB !in Tabs(s)
    ensures StartsCrLf(Tabs(s)) <==> StartsCrLf(s)
    ensures Closed(s) ==> Closed(Tabs(s))
    ensures s == [] <==> Tabs(s) == []
    ensures s != [] ==> (s[0] == LF <==> Tabs(s)[0] == LF)
  {
    if s != [] {
      TabsNormal(s[1..], s[0] == CR);
      var t := Tabs(s[1..]);
      assert s == [s[0]] + s[1..];
      NormalCons(s[0], s[1..], afterCr);
      if s[0] == TAB {
        assert Tabs(s) == [SP] + ([SP] + t);
        NormalCons(SP, [SP] + t, afterCr);
        NormalCons(SP, t, false);
      } else {
        NormalCons(s[0], t, afterCr);
      }
    }
  }

  /** Every text comes out in normal form. */
  lemma FormatIsNormal(content: seq<Byte>)
    ensures Normal(Format(content))
  {
    TwoStepsInsertCr(content, true, false);
    InsertedCrs(content, false);
    var a := InsertCr(content, false);
    Closes(a);
    RunsAreBlanks(LastLine(a));
    Dropped(LastLine(a), false);
    TabsNormal(DropBlanks(LastLine(a)), false);
  }

  // -------------------------------------------------- normal texts are fixed

  lemma {:induction false} InsertNothing(s: seq<Byte>, afterCr: bool)
    requires LfAfterCr(s, afterCr)
    ensures InsertCr(s, afterCr) == s
  {
    if s != [] { InsertNothing(s[1..], s[0] == CR); }
  }

  lemma {:induction false} BlankBeforeEnd(s: seq<Byte>)
    requires NoBlankBeforeEnd(s) && s != [] && Blank(s[0])
    ensures !BlankToEnd(s)
  {
    if |s| > 1 && Blank(s[1]) { BlankBeforeEnd(s[1..]); }
  }

  lemma {:induction false} DropNothing(s: seq<Byte>)
    requires NoBlankBeforeEnd(s)
    ensures DropBlanks(s) == s
  {
    if s != [] {
      if Blank(s[0]) { BlankBeforeEnd(s); }
      DropNothing(s[1..]);
    }
  }

  lemma {:induction false} NoTabs(s: seq<Byte>)
    requires TAB !in s
    ensures Tabs(s) == s
  {
    if s != [] {
      assert s[0] in s;
      NoTabs(s[1..]);
    }
  }

  /** The normal texts are exactly those that formatting leaves alone. */
  lemma FixedExactlyWhenNormal(content: seq<Byte>)
    ensures Format(content) == content <==> Normal(content)
  {
    FormatIsNormal(content);
    if Normal(content) {
      TwoStepsInsertCr(content, true, false);
      InsertNothing(content, false);
      Closes(content);
      RunsAreBlanks(content);
      DropNothing(content);
      NoTabs(content);
    }
  }

  lemma Idempotent(content: seq<Byte>)
    ensures Format(Format(content)) == Format(content)
  {
    FormatIsNormal(content);
    FixedExactlyWhenNormal(Format(content));
  }

  // ---------------------------------------------------------- what is kept

  /** The bytes that are neither line ends nor blanks, in order. */
  function Text(s: seq<Byte>): seq<Byte> {
    if s == [] then []
    else (if Eol(s[0]) || Blank(s[0]) then [] else [s[0]]) + Text(s[1..])
  }

  function Lines(s: seq<Byte>): nat {
    if s == [] then 0 else (if s[0] == LF then 1 else 0) + Lines(s[1..])
  }

  /** What one byte contributes to the text. */
  function TextOf(c: Byte): seq<Byte> {
    if Eol(c) || Blank(c) then [] else [c]
  }

  lemma Cons(c: Byte, rest: seq<Byte>)
    ensures Text([c] + rest) == TextOf(c) + Text(rest)
    ensures Lines([c] + rest) == (if c == LF then 1 else 0) + Lines(rest)
  {
    assert ([c] + rest)[1..] == rest;
  }

  lemma {:induction false} Append(s: seq<Byte>, t: seq<Byte>)
    ensures Text(s + t) == Text(s) + Text(t) && Lines(s + t) == Lines(s) + Lines(t)
  {
    if s == [] {
      assert s + t == t;
    } else {
      Append(s[1..], t);
      Assoc([s[0]], s[1..], t);
      assert [s[0]] + s[1..] == s;
      Cons(s[0], s[1..]);
      Cons(s[0], s[1..] + t);
      Assoc(TextOf(s[0]), Text(s[1..]), Text(t));
    }
  }

  lemma {:induction false} InsertKeeps(s: seq<Byte>, afterCr: bool)
    ensures Text(InsertCr(s, afterCr)) == Text(s) && Lines(InsertCr(s, afterCr)) == Lines(s)
  {
    if s != [] {
      InsertKeeps(s[1..], s[0] == CR);
      var rest := InsertCr(s[1..], s[0] == CR);
      Cons(s[0], rest);
      Cons(s[0], s[1..]);
      assert [s[0]] + s[1..] == s;
      if s[0] == LF && !afterCr {
        Assoc([CR], [LF], rest);
        Cons(CR, [LF] + rest);
      }
    }
  }

  lemma {:induction false} InsertCloses(s: seq<Byte>, afterCr: bool)
    ensures (s == [] <==> InsertCr(s, afterCr) == []) && Closed(InsertCr(s, afterCr)) == Closed(s)
  {
    if s != [] {
      InsertCloses(s[1..], s[0] == CR);
    }
  }

  lemma {:induction false} DropKeeps(s: seq<Byte>)
    ensures Text(DropBlanks(s)) == Text(s) && Lines(DropBlanks(s)) == Lines(s)
  {
    if s != [] {
      DropKeeps(s[1..]);
      Cons(s[0], s[1..]);
      Cons(s[0], DropBlanks(s[1..]));
      assert [s[0]] + s[1..] == s;
      assert [] + DropBlanks(s[1..]) == DropBlanks(s[1..]);
      assert [] + Text(s[1..]) == Text(s[1..]);
    }
  }

  lemma {:induction false} TabsKeep(s: seq<Byte>)
    ensures Text(Tabs(s)) == Text(s) && Lines(Tabs(s)) == Lines(s)
  {
    if s != [] {
      TabsKeep(s[1..]);
      var t := Tabs(s[1..]);
      Cons(s[0], s[1..]);
      assert [s[0]] + s[1..] == s;
      if s[0] == TAB {
        Assoc([SP], [SP], t);
        Cons(SP, [SP] + t);
        Cons(SP, t);
      } else {
        Cons(s[0], t);
      }
    }
  }

  lemma LineEnd()
    ensures Text([CR, LF]) == [] && Lines([CR, LF]) == 1
  {
    assert [CR, LF][1..] == [LF] && [LF][1..] == [];
    assert Text([LF]) == [] + Text([]) && Lines([LF]) == 1 + Lines([]);
  }

  /** Only line ends and blanks change: the other bytes stay, in order, and so
      does the number of lines, but for a last line that was not ended. */
  lemma ContentKept(content: seq<Byte>)
    ensures Text(Format(content)) == Text(content)
    ensures Lines(Format(content)) == Lines(content) + if Closed(content) then 0 else 1
  {
    TwoStepsInsertCr(content, true, false);
    InsertedCrs(content, false);
    InsertKeeps(content, false);
    InsertCloses(content, false);
    var a := InsertCr(content, false);
    Closes(a);
    Append(a, [CR, LF]);
    LineEnd();
    RunsAreBlanks(LastLine(a));
    DropKeeps(LastLine(a));
    TabsKeep(DropBlanks(LastLine(a)));
  }

  lemma {:induction false} TextCounts(s: seq<Byte>, c: Byte)
    ensures c !in [0x09, 0x0A, 0x0D, 0x20] ==> multiset(Text(s))[c] == multiset(s)[c]
    ensures Lines(s) == multiset(s)[0x0A]
  {
    if s != [] {
      TextCounts(s[1..], c);
      CountFirst(s, c);
      CountFirst(s, 0x0A);
      if TextOf(s[0]) != [] {
        assert Text(s)[1..] == Text(s[1..]);
        CountFirst(Text(s), c);
      } else {
        assert Text(s) == Text(s[1..]);
      }
    }
  }

  lemma CountFirst(s: seq<Byte>, c: Byte)
    requires s != []
    ensures multiset(s)[c] == (if s[0] == c then 1 else 0) + multiset(s[1..])[c]
  {
    assert s == [s[0]] + s[1..];
  }

  /** So every byte but those four occurs as often as before, and LF as often, or
      once more after a last line that was not ended. */
  lemma BytesKept(content: seq<Byte>, c: Byte)
    ensures c !in [0x09, 0x0A, 0x0D, 0x20] ==> multiset(Format(content))[c] == multiset(content)[c]
    ensures multiset(Format(content))[0x0A] == multiset(content)[0x0A]
      + if content != [] && content[|content| - 1] != 0x0D && content[|content| - 1] != 0x0A then 1 else 0
  {
    ContentKept(content);
    TextCounts(content, c);
    TextCounts(Format(content), c);
  }
}
