/** The checker for the contents of a git diff. */
module PatchCheck {
  // ------------------------------------------------------------ added lines

  /** What Python's str.isspace says of one character. */
  predicate IsSpace(c: char) {
    var k := c as int;
    || 0x09 <= k <= 0x0D || 0x1C <= k <= 0x20 || k == 0x85 || k == 0xA0 || k == 0x1680
    || 0x2000 <= k <= 0x200A || k == 0x2028 || k == 0x2029 || k == 0x202F || k == 0x205F || k == 0x3000
  }

  predicate EndsWith(s: string, e: string) {
    |e| <= |s| && s[|s| - |e|..] == e
  }

  function RStrip(s: string): (t: string)
    ensures |t| <= |s| && (|t| < |s| <==> s != [] && IsSpace(s[|s| - 1]))
    ensures t == [] ==> forall i | 0 <= i < |s| :: IsSpace(s[i])
  {
    if s != [] && IsSpace(s[|s| - 1]) then RStrip(s[..|s| - 1]) else s
  }

  const LINE_ENDINGS: seq<string> := ["\r\n", "\n\r", "\n", "\r"]

  /** The loop over the line endings from the k-th on: it does not stop at the
      first that matches. */
  function StripEols(line: string, eol: string, k: nat): (string, string)
    decreases |LINE_ENDINGS| - k
  {
    if k >= |LINE_ENDINGS| then (line, eol)
    else if EndsWith(line, LINE_ENDINGS[k]) then
      StripEols(line[..|line| - |LINE_ENDINGS[k]|], LINE_ENDINGS[k], k + 1)
    else StripEols(line, eol, k + 1)
  }

  /** The four checks of an added line, without its '+'. */
  predicate AddedOk(line: string, forceCrlf: bool, oldDebug: string -> bool) {
    var (body, eol) := StripEols(line, "", 0);
    && (forceCrlf ==> eol == "\r\n")
    && '\t' !in body && |RStrip(body)| == |body| && !oldDebug(body)
  }

  predicate CleanBody(body: string, oldDebug: string -> bool) {
    '\t' !in body && (body != [] ==> !IsSpace(body[|body| - 1])) && !oldDebug(body)
  }

  lemma StripCrlf(b: string)
    ensures StripEols(b + "\r\n", "", 0) == StripEols(b, "\r\n", 1)
  {
    var line := b + "\r\n";
    assert line[|line| - 2..] == "\r\n" && line[..|line| - 2] == b;
  }

  lemma EndsInCrlf(b: string, oldDebug: string -> bool)
    ensures AddedOk(b + "\r\n", true, oldDebug) <==> CleanBody(b, oldDebug)
  {
    StripCrlf(b);
    if b == [] || !IsSpace(b[|b| - 1]) {
      NoEol(b, "\r\n");
    } else {
      EolOverwritten(b);
    }
  }

  /** A line that must end in CRLF passes exactly when it is a body with neither
      tab, nor white space at its end, nor old debug macro, followed by CRLF. */
  lemma CrlfLineExactly(line: string, oldDebug: string -> bool)
    ensures AddedOk(line, true, oldDebug) <==>
      EndsWith(line, "\r\n") && CleanBody(line[..|line| - 2], oldDebug)
  {
    if EndsWith(line, "\r\n") {
      assert line[..|line| - 2] + "\r\n" == line;
      EndsInCrlf(line[..|line| - 2], oldDebug);
    } else {
      NoCrlf(line, "", 1);
    }
  }

  lemma LastChar(b: string, e: string)
    requires e != []
    ensures EndsWith(b, e) ==> b != [] && b[|b| - 1] == e[|e| - 1]
  {
    if EndsWith(b, e) {
      assert b[|b| - |e|..][|e| - 1] == b[|b| - 1];
    }
  }

  lemma NoEol(b: string, eol: string)
    requires b == [] || !IsSpace(b[|b| - 1])
    ensures StripEols(b, eol, 1) == (b, eol)
  {
    LastChar(b, "\n\r");
    LastChar(b, "\n");
    LastChar(b, "\r");
    assert StripEols(b, eol, 4) == (b, eol);
    assert StripEols(b, eol, 3) == (b, eol);
    assert StripEols(b, eol, 2) == (b, eol);
  }

  lemma {:induction false} NoCrlf(line: string, eol: string, k: nat)
    requires 1 <= k <= 4 && eol != "\r\n"
    ensures StripEols(line, eol, k).1 != "\r\n"
    decreases 4 - k
  {
    if k < 4 {
      if EndsWith(line, LINE_ENDINGS[k]) {
        NoCrlf(line[..|line| - |LINE_ENDINGS[k]|], LINE_ENDINGS[k], k + 1);
      } else {
        NoCrlf(line, eol, k + 1);
      }
    }
  }

  /** After a CRLF another line ending replaces it, other white space stays. */
  lemma EolOverwritten(b: string)
    requires b != [] && IsSpace(b[|b| - 1])
    ensures StripEols(b, "\r\n", 1).1 != "\r\n" || StripEols(b, "\r\n", 1).0 == b
  {
    if EndsWith(b, "\n\r") {
      NoCrlf(b[..|b| - 2], "\n\r", 2);
    } else if EndsWith(b, "\n") {
      NoCrlf(b[..|b| - 1], "\n", 3);
    } else if EndsWith(b, "\r") {
      NoCrlf(b[..|b| - 1], "\r", 4);
    } else {
      assert StripEols(b, "\r\n", 4) == (b, "\r\n");
    }
  }

  // ------------------------------------------------- lines of .sh files

  function Cut(s: string, e: string): string {
    if EndsWith(s, e) then s[..|s| - |e|] else s
  }

  lemma {:induction false} OnlyTheLine(line: string, eol: string, other: string, k: nat)
    ensures StripEols(line, eol, k).0 == StripEols(line, other, k).0
    decreases |LINE_ENDINGS| - k
  {
    if k < |LINE_ENDINGS| && !EndsWith(line, LINE_ENDINGS[k]) { OnlyTheLine(line, eol, other, k + 1); }
  }

  lemma StripOne(line: string, k: nat)
    requires k < |LINE_ENDINGS|
    ensures StripEols(line, "", k).0 == StripEols(Cut(line, LINE_ENDINGS[k]), "", k + 1).0
  {
    if EndsWith(line, LINE_ENDINGS[k]) { OnlyTheLine(Cut(line, LINE_ENDINGS[k]), LINE_ENDINGS[k], "", k + 1); }
  }

  lemma StripThird(s: string)
    ensures StripEols(s, "", 2).0 == Cut(Cut(s, "\n"), "\r")
  {
    StripOne(s, 2);
    StripOne(Cut(s, "\n"), 3);
  }

  lemma StripSecond(s: string)
    ensures StripEols(s, "", 1).0 == Cut(Cut(Cut(s, "\n\r"), "\n"), "\r")
  {
    StripOne(s, 1);
    StripThird(Cut(s, "\n\r"));
  }

  /** The loop cuts off each ending once, in this order. */
  lemma StripIsCut(line: string)
    ensures StripEols(line, "", 0).0 == Cut(Cut(Cut(Cut(line, "\r\n"), "\n\r"), "\n"), "\r")
  {
    StripOne(line, 0);
    StripSecond(Cut(line, "\r\n"));
  }

  /** Line endings that may follow one another, each at most once. */
  function Endings(r: bool, n: bool, nr: bool, rn: bool): string {
    (if r then "\r" else "") + (if n then "\n" else "") + (if nr then "\n\r" else "") + (if rn then "\r\n" else "")
  }

  predicate CleanEnd(body: string) {
    body != [] ==> !IsSpace(body[|body| - 1])
  }

  predicate OfEndings(e: string) {
    e == "\r\n" || e == "\n\r" || e == "\n" || e == "\r"
  }

  lemma EndsAt(s: string, e: string, i: nat)
    requires EndsWith(s, e) && i < |e|
    ensures s[|s| - |e| + i] == e[i]
  {
    assert s[|s| - |e|..][i] == e[i];
  }

  lemma NoShortEnding(body: string, w: string, e: string)
    requires CleanEnd(body) && OfEndings(e) && |w| < |e|
    ensures !EndsWith(body + w, e)
  {
    if EndsWith(body + w, e) { EndsAt(body + w, e, |e| - 1 - |w|); }
  }

  lemma LongEnding(body: string, w: string, e: string)
    requires |w| >= |e|
    ensures EndsWith(body + w, e) <==> EndsWith(w, e)
    ensures (body + w)[..|body| + |w| - |e|] == body + w[..|w| - |e|]
  {
    assert (body + w)[|body| + |w| - |e|..] == w[|w| - |e|..];
  }

  lemma CutBehind(body: string, w: string, e: string)
    requires CleanEnd(body) && OfEndings(e)
    ensures Cut(body + w, e) == body + Cut(w, e)
  {
    if |w| >= |e| { LongEnding(body, w, e); } else { NoShortEnding(body, w, e); }
  }

  lemma CutAppended(p: string, e: string)
    ensures Cut(p + e, e) == p
  {
    assert (p + e)[|p|..] == e && (p + e)[..|p|] == p;
  }

  lemma CutNothing(e: string)
    requires e != ""
    ensures Cut("", e) == ""
  {
  }

  lemma EndingsCut(r: bool, n: bool, nr: bool, rn: bool)
    ensures Cut(Cut(Cut(Cut(Endings(r, n, nr, rn), "\r\n"), "\n\r"), "\n"), "\r") == ""
  {
    if rn {
      CutAppended(Endings(r, n, nr, false), "\r\n");
      assert Endings(r, n, nr, true) == Endings(r, n, nr, false) + "\r\n";
      ShortEndingsCut(r, n, nr);
    } else if r && n && !nr {
      assert Endings(r, n, nr, rn) == "" + "\r\n";
      CutAppended("", "\r\n");
    } else {
      LastChar(Endings(r, n, nr, rn), "\r\n");
      assert !nr ==> |Endings(r, n, nr, rn)| < 2;
      assert nr ==> Endings(r, n, nr, rn)[|Endings(r, n, nr, rn)| - 1] == '\r';
      ShortEndingsCut(r, n, nr);
    }
  }

  lemma CutLfCr(r: bool, n: bool, nr: bool)
    ensures Cut(Endings(r, n, nr, false), "\n\r") == Endings(r, n, false, false)
  {
    var w := Endings(r, n, false, false);
    if nr {
      CutAppended(w, "\n\r");
      assert Endings(r, n, true, false) == w + "\n\r";
    } else if |w| == 2 {
      assert w[1] == '\n';
      LastChar(w, "\n\r");
    }
  }

  lemma CutLf(r: bool, n: bool)
    ensures Cut(Endings(r, n, false, false), "\n") == Endings(r, false, false, false)
  {
    if n {
      CutAppended(Endings(r, false, false, false), "\n");
      assert Endings(r, true, false, false) == Endings(r, false, false, false) + "\n";
    } else {
      LastChar(Endings(r, false, false, false), "\n");
    }
  }

  lemma CutCr(r: bool)
    ensures Cut(Endings(r, false, false, false), "\r") == ""
  {
    CutAppended("", "\r");
    assert Endings(true, false, false, false) == "" + "\r";
  }

  lemma ShortEndingsCut(r: bool, n: bool, nr: bool)
    ensures Cut(Cut(Cut(Endings(r, n, nr, false), "\n\r"), "\n"), "\r") == ""
  {
    CutLfCr(r, n, nr);
    CutLf(r, n);
    CutCr(r);
  }

  lemma EndingsStripped(body: string, r: bool, n: bool, nr: bool, rn: bool)
    requires CleanEnd(body)
    ensures StripEols(body + Endings(r, n, nr, rn), "", 0).0 == body
  {
    var w := Endings(r, n, nr, rn);
    var w1 := Cut(w, "\r\n");
    var w2 := Cut(w1, "\n\r");
    var w3 := Cut(w2, "\n");
    StripIsCut(body + w);
    CutBehind(body, w, "\r\n");
    CutBehind(body, w1, "\n\r");
    CutBehind(body, w2, "\n");
    CutBehind(body, w3, "\r");
    EndingsCut(r, n, nr, rn);
    assert body + "" == body;
  }

  lemma CutOff(s: string, e: string)
    ensures s == Cut(s, e) + if EndsWith(s, e) then e else ""
  {
  }

  predicate BodyAndEndings(line: string, body: string, r: bool, n: bool, nr: bool, rn: bool) {
    line == body + Endings(r, n, nr, rn)
  }

  lemma StrippedEndings(line: string) returns (r: bool, n: bool, nr: bool, rn: bool)
    ensures BodyAndEndings(line, StripEols(line, "", 0).0, r, n, nr, rn)
  {
    var s1 := Cut(line, "\r\n");
    var s2 := Cut(s1, "\n\r");
    var s3 := Cut(s2, "\n");
    var s4 := Cut(s3, "\r");
    StripIsCut(line);
    rn, nr, n, r := EndsWith(line, "\r\n"), EndsWith(s1, "\n\r"), EndsWith(s2, "\n"), EndsWith(s3, "\r");
    CutOff(line, "\r\n");
    CutOff(s1, "\n\r");
    CutOff(s2, "\n");
    CutOff(s3, "\r");
    RegroupEndings(s4, if r then "\r" else "", if n then "\n" else "",
                   if nr then "\n\r" else "", if rn then "\r\n" else "");
  }

  lemma RegroupEndings(s: string, a: string, b: string, c: string, d: string)
    ensures s + a + b + c + d == s + (a + b + c + d)
  {
  }

  lemma StrippedExactly(body: string)
    ensures |RStrip(body)| == |body| <==> CleanEnd(body)
  {
  }

  /** A line that may end in anything passes exactly when it is a clean body and
      some line endings, in the order CR, LF, LF CR, CR LF and each at most once. */
  lemma PlainLineExactly(line: string, oldDebug: string -> bool)
    ensures AddedOk(line, false, oldDebug) <==>
      exists body, r, n, nr, rn :: BodyAndEndings(line, body, r, n, nr, rn) && CleanBody(body, oldDebug)
  {
    if AddedOk(line, false, oldDebug) {
      var body := StripEols(line, "", 0).0;
      var r, n, nr, rn := StrippedEndings(line);
      StrippedExactly(body);
      assert BodyAndEndings(line, body, r, n, nr, rn) && CleanBody(body, oldDebug);
    }
    if body, r, n, nr, rn :| BodyAndEndings(line, body, r, n, nr, rn) && CleanBody(body, oldDebug) {
      EndingsStripped(body, r, n, nr, rn);
      StrippedExactly(body);
    }
  }

  // ------------------------------------------------------ lines in context

  predicate IsDiff(line: string) { "diff --git" <= line }

  predicate IsHunk(line: string) { "@@ " <= line }

  predicate IsBinary(line: string) { "GIT binary patch" <= line || "Binary files" <= line }

  const PRE_PATCH_PREFIXES: seq<string> := [
    "--- ", "+++ ", "index ", "new file ", "deleted file ", "old mode ", "new mode ",
    "similarity index ", "rename "]

  predicate HasPrefix(line: string) {
    exists k | 0 <= k < |PRE_PATCH_PREFIXES| :: PRE_PATCH_PREFIXES[k] <= line
  }

  predicate IsBody(line: string) {
    line != [] && (line[0] == ' ' || line[0] == '-' || line[0] == '+' || "\\ No newline " <= line)
  }

  /** The file name in a header: from column 13 to the next space. */
  function FileName(line: string): string {
    if |line| <= 13 then [] else UpToSpace(line[13..])
  }

  function UpToSpace(s: string): string {
    if s == [] || s[0] == ' ' then [] else [s[0]] + UpToSpace(s[1..])
  }

  function ForceCrlf(line: string): bool {
    !EndsWith(FileName(line), ".sh")
  }

  predicate IsShell(name: string) {
    |name| >= 3 && name[|name| - 3..] == ".sh"
  }

  lemma {:induction false} NameEnds(name: string, tail: string)
    requires ' ' !in name
    ensures UpToSpace(name + " " + tail) == name
  {
    var s := name + " " + tail;
    if name != [] {
      assert s[0] == name[0] && name[0] in name && s[1..] == name[1..] + " " + tail;
      NameEnds(name[1..], tail);
      assert [name[0]] + name[1..] == name;
    }
  }

  lemma HeaderName(name: string, tail: string)
    requires ' ' !in name
    ensures var line := "diff --git a/" + name + " " + tail; IsDiff(line) && FileName(line) == name
  {
    var line := "diff --git a/" + name + " " + tail;
    assert line[13..] == name + " " + tail;
    NameEnds(name, tail);
  }

  /** A header is read for the name of its file, and the file's lines must end in
      CRLF unless that name ends in ".sh". */
  lemma HeaderExactly(c: Context, name: string, tail: string)
    requires c != Ended && ' ' !in name
    ensures After(c, "diff --git a/" + name + " " + tail) == Header(!IsShell(name))
  {
    HeaderName(name, tail);
  }

  /** Where a line stands in the diff. */
  datatype Context = Preamble | Header(crlf: bool) | Text(crlf: bool) | BinaryData(crlf: bool) | Ended

  /** The context after a line, from the shape of the line alone. */
  function After(c: Context, line: string): Context {
    if c == Ended || (c == Preamble && !IsDiff(line)) then c
    else if IsDiff(line) then Header(ForceCrlf(line))
    else if IsHunk(line) then Text(c.crlf)
    else match c
      case Header(f) => if IsBinary(line) then BinaryData(f) else c
      case Text(_) => if IsBody(line) || line == [] then c else Ended
      case BinaryData(_) => c
  }

  function ContextAt(lines: seq<string>, i: nat): Context
    requires i <= |lines|
  {
    if i == 0 then Preamble else After(ContextAt(lines, i - 1), lines[i - 1])
  }

  /** What a line must be like where it stands. */
  predicate LineOk(c: Context, line: string, oldDebug: string -> bool) {
    if c == Ended then !IsDiff(line)
    else if IsDiff(line) then true
    else match c
      case Preamble => |RStrip(line)| == 0
      case Header(_) => IsHunk(line) || IsBinary(line) || HasPrefix(line)
      case Text(f) => line != [] && (line[0] == '+' ==> AddedOk(line[1..], f, oldDebug))
      case BinaryData(_) => true
  }

  predicate OkAt(lines: seq<string>, i: nat, oldDebug: string -> bool)
    requires i < |lines|
  {
    LineOk(ContextAt(lines, i), lines[i], oldDebug)
  }

  /** Which lines are in order. */
  function Marks(lines: seq<string>, oldDebug: string -> bool): (r: seq<bool>)
    ensures |r| == |lines| && forall i | 0 <= i < |lines| :: r[i] == OkAt(lines, i, oldDebug)
  {
    seq(|lines|, i requires 0 <= i < |lines| => OkAt(lines, i, oldDebug))
  }

  predicate AllTrue(marks: seq<bool>, n: nat)
    requires n <= |marks|
  {
    n == 0 || (AllTrue(marks, n - 1) && marks[n - 1])
  }

  lemma {:induction false} AllTrueExactly(marks: seq<bool>, n: nat)
    requires n <= |marks|
    ensures AllTrue(marks, n) <==> forall i | 0 <= i < n :: marks[i]
  {
    if n > 0 { AllTrueExactly(marks, n - 1); }
  }

  /** The first n lines are in order. */
  predicate AllOk(lines: seq<string>, n: nat, oldDebug: string -> bool)
    requires n <= |lines|
  {
    AllTrue(Marks(lines, oldDebug), n)
  }

  lemma AllOkExactly(lines: seq<string>, n: nat, oldDebug: string -> bool)
    requires n <= |lines|
    ensures AllOk(lines, n, oldDebug) <==> forall i | 0 <= i < n :: OkAt(lines, i, oldDebug)
  {
    var marks := Marks(lines, oldDebug);
    AllTrueExactly(marks, n);
    assert forall i | 0 <= i < n :: marks[i] == OkAt(lines, i, oldDebug);
  }

  lemma EndedNext(lines: seq<string>, i: nat)
    requires i < |lines| && ContextAt(lines, i) == Ended
    ensures ContextAt(lines, i + 1) == Ended
  {
  }

  lemma {:induction false} EndedStays(lines: seq<string>, i: nat, j: nat)
    requires i <= j <= |lines| && ContextAt(lines, i) == Ended
    ensures ContextAt(lines, j) == Ended
    decreases j - i
  {
    if i < j {
      EndedNext(lines, i);
      EndedStays(lines, i + 1, j);
    }
  }

  /** After the end of the patch only headers are out of order. */
  lemma TailExactly(lines: seq<string>, i: nat, oldDebug: string -> bool)
    requires i <= |lines| && ContextAt(lines, i) == Ended
    ensures AllOk(lines, |lines|, oldDebug) <==>
      AllOk(lines, i, oldDebug) && forall j | i <= j < |lines| :: !IsDiff(lines[j])
  {
    var marks := Marks(lines, oldDebug);
    AllTrueExactly(marks, |lines|);
    AllTrueExactly(marks, i);
    forall j | i <= j < |lines| ensures marks[j] <==> !IsDiff(lines[j]) {
      EndedStays(lines, i, j);
    }
  }

  /** What `ok` and `format_ok` say after the first n lines. */
  predicate Verdict(lines: seq<string>, n: nat, ok: bool, formatOk: bool, oldDebug: string -> bool)
    requires n <= |lines|
  {
    && (formatOk ==> (ok <==> AllOk(lines, n, oldDebug)))
    && (!formatOk ==> !ok && !AllOk(lines, |lines|, oldDebug))
  }

  lemma VerdictNext(lines: seq<string>, n: nat, before: bool, ok: bool, formatOk: bool, oldDebug: string -> bool)
    requires n < |lines| && Verdict(lines, n, before, true, oldDebug)
    requires ok <==> before && OkAt(lines, n, oldDebug)
    requires !formatOk ==> !OkAt(lines, n, oldDebug)
    ensures Verdict(lines, n + 1, ok, formatOk, oldDebug)
  {
    AllTrueExactly(Marks(lines, oldDebug), |lines|);
  }

  lemma VerdictTail(lines: seq<string>, n: nat, before: bool, clean: bool, oldDebug: string -> bool)
    requires n < |lines| && Verdict(lines, n, before, true, oldDebug)
    requires ContextAt(lines, n) != Ended && ContextAt(lines, n + 1) == Ended
    requires clean <==> forall j | n + 1 <= j < |lines| :: !IsDiff(lines[j])
    ensures Verdict(lines, |lines|, before && clean, clean, oldDebug)
  {
    EndsInText(ContextAt(lines, n), lines[n], oldDebug);
    TailExactly(lines, n + 1, oldDebug);
  }

  // ------------------------------------------------------------ the checker

  datatype Phase = START | PRE_PATCH | PATCH

  /** `index 0+..` */
  predicate NewFilePrefix(line: string) {
    "index 0" <= line && ZerosThenDots(line[7..])
  }

  predicate ZerosThenDots(s: string) {
    if s != [] && s[0] == '0' then ZerosThenDots(s[1..]) else ".." <= s
  }

  class GitDiffCheck {
    var ok: bool
    var formatOk: bool
    const lines: seq<string>
    var lineNum: nat
    var state: Phase
    var newBin: seq<string>
    var filename: string
    var isNewfile: bool
    var forceCrlf: bool
    var binary: bool
    const oldDebug: string -> bool

    /** The fields agree with the context of the line they are about to read. */
    ghost predicate InContext(c: Context)
      reads this
    {
      match c
      case Preamble => state == START
      case Header(f) => state == PRE_PATCH && forceCrlf == f
      case Text(f) => state == PATCH && !binary && forceCrlf == f
      case BinaryData(f) => state == PATCH && binary && forceCrlf == f
      case Ended => false
    }

    /** `ok` tells whether the lines read so far were in order. */
    ghost predicate Valid()
      reads this
    {
      && lineNum <= |lines|
      && Verdict(lines, lineNum, ok, formatOk, oldDebug)
      && (formatOk && lineNum < |lines| ==> InContext(ContextAt(lines, lineNum)))
    }

    /** Reads the whole diff.  It terminates, and `ok` holds at the end exactly
        when every line is as its context requires. */
    constructor (diffLines: seq<string>, oldDebugRe: string -> bool)
      ensures lines == diffLines && oldDebug == oldDebugRe
      ensures ok <==> forall i | 0 <= i < |lines| :: OkAt(lines, i, oldDebug)
      ensures formatOk ==> lineNum == |lines|
    {
      ok, formatOk := true, true;
      lines := diffLines;
      oldDebug := oldDebugRe;
      lineNum := 0;
      state := START;
      newBin := [];
      filename, isNewfile, forceCrlf, binary := "", false, false, false;
      new;
      while lineNum < |lines| && formatOk
        invariant Valid()
        decreases |lines| - lineNum
      {
        var before := lineNum;
        Run();
        assert lineNum > before;
      }
      AllOkExactly(lines, |lines|, oldDebug);
    }

    method FormatError()
      modifies `ok, `formatOk
      ensures !ok && !formatOk
    {
      formatOk := false;
      ok := false;
    }

    method CheckAddedLine(added: string)
      modifies `ok
      ensures ok <==> old(ok) && AddedOk(added, forceCrlf, oldDebug)
    {
      var line, eol := added, "";
      for k := 0 to |LINE_ENDINGS|
        invariant StripEols(added, "", 0) == StripEols(line, eol, k)
      {
        var anEol := LINE_ENDINGS[k];
        if EndsWith(line, anEol) {
          eol := anEol;
          line := line[..|line| - |eol|];
        }
      }
      var stripped := RStrip(line);
      if forceCrlf && eol != "\r\n" { ok := false; }
      if '\t' in line { ok := false; }
      if |stripped| < |line| { ok := false; }
      if oldDebug(line) { ok := false; }
    }

    /** The scan of the lines from `i` on, after the end of the patch. */
    method CheckTail(i: nat)
      requires i <= |lines|
      modifies this
      ensures var clean := forall j | i <= j < |lines| :: !IsDiff(lines[j]);
        ok == (old(ok) && clean) && formatOk == (old(formatOk) && clean)
      ensures lineNum == |lines|
    {
      var j := i;
      while j < |lines|
        invariant i <= j <= |lines| && formatOk == old(formatOk) && ok == old(ok)
        invariant forall k | i <= k < j :: !IsDiff(lines[k])
      {
        if IsDiff(lines[j]) {
          FormatError();
          break;
        }
        j := j + 1;
      }
      lineNum := |lines|;
    }

    /** What reading `line` in context `c` must do to the fields. */
    ghost predicate Handled(okBefore: bool, c: Context, line: string)
      reads this
    {
      && (ok <==> okBefore && LineOk(c, line, oldDebug))
      && (formatOk ==> InContext(After(c, line)))
      && (!formatOk ==> !LineOk(c, line, oldDebug))
    }

    method ReadStart(line: string, ghost c: Context)
      requires formatOk && state == START && c != Ended && (c == Preamble || IsDiff(line))
      modifies this
      ensures Handled(old(ok), c, line) && lineNum == old(lineNum)
    {
      if IsDiff(line) {
        state := PRE_PATCH;
        filename := FileName(line);
        isNewfile := false;
        forceCrlf := !EndsWith(filename, ".sh");
      } else if |RStrip(line)| != 0 {
        FormatError();
      }
    }

    method ReadPrePatch(line: string, ghost c: Context)
      requires formatOk && state == PRE_PATCH && !IsDiff(line) && c != Ended && c != Preamble && forceCrlf == c.crlf
      requires c.Header? || IsHunk(line)
      modifies this
      ensures Handled(old(ok), c, line) && lineNum == old(lineNum)
    {
      if IsHunk(line) {
        state := PATCH;
        binary := false;
        StartsUnlike(line);
      } else if IsBinary(line) {
        state := PATCH;
        binary := true;
        if isNewfile { newBin := newBin + [filename]; }
      } else {
        isNewfile := NewFilePrefix(line);
        if !HasPrefix(line) { FormatError(); }
      }
    }

    method ReadPatch(line: string, ghost c: Context)
      requires formatOk && InContext(c) && (c.Text? || c.BinaryData?) && !IsDiff(line) && !IsHunk(line)
      requires c.Text? ==> IsBody(line) || line == []
      modifies this
      ensures Handled(old(ok), c, line) && lineNum == old(lineNum)
    {
      if binary {
      } else if "-" <= line {
      } else if "+" <= line {
        CheckAddedLine(line[1..]);
      } else if "\\ No newline " <= line {
      } else if !(" " <= line) {
        FormatError();
      }
    }

    /** The first part of run: a header or a hunk marker changes the state, and
        in a text hunk a line of any other shape ends the patch. */
    method Reclassify(line: string, ghost c: Context) returns (ended: bool)
      requires InContext(c)
      modifies `state
      ensures ended <==> After(c, line) == Ended
      ensures !ended && IsDiff(line) ==> state == START
      ensures !ended && !IsDiff(line) && IsHunk(line) && (c.Text? || c.BinaryData?) ==> state == PRE_PATCH
      ensures !ended && !IsDiff(line) && (IsHunk(line) ==> c.Preamble? || c.Header?) ==> state == old(state)
    {
      ended := false;
      if state == PRE_PATCH || state == PATCH {
        if IsDiff(line) { state := START; }
      }
      if state == PATCH {
        if IsHunk(line) {
          state := PRE_PATCH;
        } else if |line| >= 1 && line[0] !in " -+" && !("\\ No newline " <= line) && !binary {
          ended := true;
        }
      }
    }

    method ReadLine(line: string, ghost c: Context)
      requires formatOk && c != Ended && After(c, line) != Ended
      requires c != Preamble ==> forceCrlf == c.crlf
      requires IsDiff(line) ==> state == START
      requires !IsDiff(line) && (c == Preamble || (c.Header? && !IsHunk(line)) || !IsHunk(line)) ==> InContext(c)
      requires !IsDiff(line) && IsHunk(line) && c != Preamble ==> state == PRE_PATCH
      modifies this
      ensures Handled(old(ok), c, line) && lineNum == old(lineNum)
    {
      if state == START {
        ReadStart(line, c);
      } else if state == PRE_PATCH {
        ReadPrePatch(line, c);
      } else {
        ReadPatch(line, c);
      }
    }

    /** Reads one line, or all that are left when the patch has ended. */
    method Run()
      requires Valid() && formatOk && lineNum < |lines|
      modifies this
      ensures Valid() && lineNum > old(lineNum)
    {
      ghost var c := ContextAt(lines, lineNum);
      var line := lines[lineNum];
      var ended := Reclassify(line, c);
      if ended {
        ghost var n := lineNum;
        CheckTail(lineNum + 1);
        VerdictTail(lines, n, old(ok), formatOk, oldDebug);
      } else {
        ReadLine(line, c);
        VerdictNext(lines, lineNum, old(ok), ok, formatOk, oldDebug);
        lineNum := lineNum + 1;
      }
    }
  }

  lemma EndsInText(c: Context, line: string, oldDebug: string -> bool)
    requires c != Ended && After(c, line) == Ended
    ensures c.Text? && LineOk(c, line, oldDebug)
  {
  }

  lemma StartsUnlike(line: string)
    requires IsHunk(line)
    ensures line != [] && line[0] == '@' && !IsBinary(line)
  {
  }

  // ----------------------------------------------------------- consequences

  /** In an accepted diff every 'diff --git' line was read as a file header. */
  lemma HeadersWereRead(lines: seq<string>, i: nat, oldDebug: string -> bool)
    requires AllOk(lines, |lines|, oldDebug) && i < |lines| && IsDiff(lines[i])
    ensures ContextAt(lines, i) != Ended && ContextAt(lines, i + 1) == Header(ForceCrlf(lines[i]))
  {
    AllOkExactly(lines, |lines|, oldDebug);
    assert OkAt(lines, i, oldDebug);
  }

  /** After a hunk marker, and as long as hunk lines follow, a line stands in a
      text hunk of the same file. */
  lemma {:induction false} HunkGoesOn(lines: seq<string>, j: nat, i: nat)
    requires j < i <= |lines| && IsHunk(lines[j])
    requires ContextAt(lines, j) != Ended && ContextAt(lines, j) != Preamble
    requires forall k | j < k < i :: IsBody(lines[k])
    ensures ContextAt(lines, i) == Text(ContextAt(lines, j).crlf)
  {
    HunkStarts(ContextAt(lines, j), lines[j]);
    if j + 1 < i {
      HunkGoesOn(lines, j, i - 1);
      BodyKeeps(ContextAt(lines, i - 1), lines[i - 1]);
    }
  }

  lemma HunkStarts(c: Context, line: string)
    requires IsHunk(line) && c != Ended && c != Preamble
    ensures After(c, line) == Text(c.crlf)
  {
    StartsUnlike(line);
  }

  lemma BodyKeeps(c: Context, line: string)
    requires c.Text? && IsBody(line)
    ensures After(c, line) == c
  {
    BodyUnlike(line);
  }

  lemma BodyUnlike(line: string)
    requires IsBody(line)
    ensures !IsDiff(line) && !IsHunk(line)
  {
    assert line[0] in [' ', '-', '+', '\\'];
  }

  /** So an accepted diff has passed the four checks on each of its '+' lines,
      and one '+' line that fails them is enough to have it rejected. */
  lemma AddedLinesWereChecked(lines: seq<string>, j: nat, i: nat, oldDebug: string -> bool)
    requires j < i < |lines| && IsHunk(lines[j])
    requires ContextAt(lines, j) != Ended && ContextAt(lines, j) != Preamble
    requires forall k | j < k < i :: IsBody(lines[k])
    requires lines[i] != [] && lines[i][0] == '+'
    ensures OkAt(lines, i, oldDebug) <==> AddedOk(lines[i][1..], ContextAt(lines, j).crlf, oldDebug)
    ensures AllOk(lines, |lines|, oldDebug) ==> AddedOk(lines[i][1..], ContextAt(lines, j).crlf, oldDebug)
  {
    HunkGoesOn(lines, j, i);
    BodyUnlike(lines[i]);
    if AllOk(lines, |lines|, oldDebug) { AllOkExactly(lines, |lines|, oldDebug); }
  }
}
