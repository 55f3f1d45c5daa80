/** The diffs the checker accepts, as a grammar: what a diff is made of, how it is
    written as lines, and how lines are read back. */
module PatchGrammar {
  import opened Common
  import opened PatchCheck

  // ---------------------------------------------------------------- the grammar

  datatype MetaKind = OldName | NewName | Index | NewFile | Deleted | OldMode | NewMode | Similarity | Rename

  function MetaText(kind: MetaKind): string {
    match kind
    case OldName => "--- "
    case NewName => "+++ "
    case Index => "index "
    case NewFile => "new file "
    case Deleted => "deleted file "
    case OldMode => "old mode "
    case NewMode => "new mode "
    case Similarity => "similarity index "
    case Rename => "rename "
  }

  datatype Meta = Meta(kind: MetaKind, rest: string)

  datatype BodyLine = Kept(text: string) | Removed(text: string) | Added(text: string) | NoNewline(text: string)

  datatype Hunk = Hunk(marker: string, body: seq<BodyLine>)

  /** Binary contents: a line that says so, and data. */
  datatype Binary = Binary(git: bool, rest: string, data: seq<string>)

  datatype File = File(rest: string, meta: seq<Meta>, binary: Option<Binary>, hunks: seq<Hunk>)

  /** White space, files, and text after the end of the patch. */
  datatype Diff = Diff(preamble: seq<string>, files: seq<File>, tail: seq<string>)

  function MetaLine(m: Meta): string { MetaText(m.kind) + m.rest }

  function MetaLines(meta: seq<Meta>): seq<string> {
    if meta == [] then [] else MetaLines(meta[..|meta| - 1]) + [MetaLine(meta[|meta| - 1])]
  }

  function BodyLineText(b: BodyLine): string {
    match b
    case Kept(text) => " " + text
    case Removed(text) => "-" + text
    case Added(text) => "+" + text
    case NoNewline(text) => "\\ No newline " + text
  }

  function BodyLines(body: seq<BodyLine>): seq<string> {
    if body == [] then [] else BodyLines(body[..|body| - 1]) + [BodyLineText(body[|body| - 1])]
  }

  function HunkLines(h: Hunk): seq<string> { ["@@ " + h.marker] + BodyLines(h.body) }

  function HunksLines(hunks: seq<Hunk>): seq<string> {
    if hunks == [] then [] else HunksLines(hunks[..|hunks| - 1]) + HunkLines(hunks[|hunks| - 1])
  }

  function BinaryMark(git: bool): string { if git then "GIT binary patch" else "Binary files" }

  function BinaryLines(binary: Option<Binary>): seq<string> {
    match binary
    case None => []
    case Some(b) => [BinaryMark(b.git) + b.rest] + b.data
  }

  function FileLines(f: File): seq<string> {
    ["diff --git" + f.rest] + MetaLines(f.meta) + BinaryLines(f.binary) + HunksLines(f.hunks)
  }

  function FilesLines(files: seq<File>): seq<string> {
    if files == [] then [] else FilesLines(files[..|files| - 1]) + FileLines(files[|files| - 1])
  }

  function Lines(d: Diff): seq<string> {
    d.preamble + FilesLines(d.files) + d.tail
  }

  predicate NoDiff(line: string) { !("diff --git" <= line) }

  /** Binary data goes on up to a header or a hunk. */
  predicate ShapedFile(f: File) {
    f.binary.Some? ==> forall i | 0 <= i < |f.binary.value.data| ::
      NoDiff(f.binary.value.data[i]) && !("@@ " <= f.binary.value.data[i])
  }

  /** The line that ends the patch is none that a text hunk could hold. */
  predicate EndsPatch(line: string) {
    line != [] && line[0] !in " -+" && !("\\ No newline " <= line) && !("@@ " <= line)
  }

  predicate Shaped(d: Diff) {
    && (forall i | 0 <= i < |d.preamble| :: RStrip(d.preamble[i]) == [])
    && (forall i | 0 <= i < |d.files| :: ShapedFile(d.files[i]))
    && (d.tail != [] ==> d.files != [] && d.files[|d.files| - 1].hunks != [] && EndsPatch(d.tail[0]))
    && (forall i | 0 <= i < |d.tail| :: NoDiff(d.tail[i]))
  }

  /** The added lines of every file pass their checks. */
  predicate BodyPasses(body: seq<BodyLine>, crlf: bool, oldDebug: string -> bool) {
    if body == [] then true
    else
      var b := body[|body| - 1];
      BodyPasses(body[..|body| - 1], crlf, oldDebug) && (b.Added? ==> AddedOk(b.text, crlf, oldDebug))
  }

  predicate HunksPass(hunks: seq<Hunk>, crlf: bool, oldDebug: string -> bool) {
    if hunks == [] then true
    else HunksPass(hunks[..|hunks| - 1], crlf, oldDebug) && BodyPasses(hunks[|hunks| - 1].body, crlf, oldDebug)
  }

  predicate FilePasses(f: File, oldDebug: string -> bool) {
    HunksPass(f.hunks, ForceCrlf("diff --git" + f.rest), oldDebug)
  }

  predicate AllPass(files: seq<File>, oldDebug: string -> bool) {
    if files == [] then true else AllPass(files[..|files| - 1], oldDebug) && FilePasses(files[|files| - 1], oldDebug)
  }

  predicate Passes(d: Diff, oldDebug: string -> bool) {
    AllPass(d.files, oldDebug)
  }

  // ------------------------------------------------------------------- reading

  function ReadMeta(line: string): Option<Meta> {
    if "--- " <= line then Some(Meta(OldName, line[4..]))
    else if "+++ " <= line then Some(Meta(NewName, line[4..]))
    else if "index " <= line then Some(Meta(Index, line[6..]))
    else if "new file " <= line then Some(Meta(NewFile, line[9..]))
    else if "deleted file " <= line then Some(Meta(Deleted, line[13..]))
    else if "old mode " <= line then Some(Meta(OldMode, line[9..]))
    else if "new mode " <= line then Some(Meta(NewMode, line[9..]))
    else if "similarity index " <= line then Some(Meta(Similarity, line[17..]))
    else if "rename " <= line then Some(Meta(Rename, line[7..]))
    else None
  }

  function ReadBodyLine(line: string): Option<BodyLine> {
    if line == [] then None
    else if line[0] == ' ' then Some(Kept(line[1..]))
    else if line[0] == '-' then Some(Removed(line[1..]))
    else if line[0] == '+' then Some(Added(line[1..]))
    else if "\\ No newline " <= line then Some(NoNewline(line[13..]))
    else None
  }

  function ReadBinary(line: string): Binary
    requires IsBinary(line)
  {
    if "GIT binary patch" <= line then Binary(true, line[16..], []) else Binary(false, line[12..], [])
  }

  function AddBodyLine(hunks: seq<Hunk>, b: BodyLine): seq<Hunk>
    requires hunks != []
  {
    var m := |hunks| - 1;
    hunks[..m] + [hunks[m].(body := hunks[m].body + [b])]
  }

  datatype Step = Next(file: File) | Over | Wrong

  /** One more line of a file, no header. */
  function ExtendFile(f: File, line: string): Step {
    if "@@ " <= line then Next(f.(hunks := f.hunks + [Hunk(line[3..], [])]))
    else if f.hunks != [] then
      if line == [] then Wrong
      else match ReadBodyLine(line)
        case Some(b) => Next(f.(hunks := AddBodyLine(f.hunks, b)))
        case None => Over
    else if f.binary.Some? then Next(f.(binary := Some(f.binary.value.(data := f.binary.value.data + [line]))))
    else if IsBinary(line) then Next(f.(binary := Some(ReadBinary(line))))
    else match ReadMeta(line)
      case Some(m) => Next(f.(meta := f.meta + [m]))
      case None => Wrong
  }

  /** One more line; None if it cannot stand there. */
  function Extend(d: Diff, line: string): Option<Diff> {
    if d.tail != [] then if NoDiff(line) then Some(d.(tail := d.tail + [line])) else None
    else if !NoDiff(line) then Some(d.(files := d.files + [File(line[10..], [], None, [])]))
    else if d.files == [] then if RStrip(line) == [] then Some(d.(preamble := d.preamble + [line])) else None
    else
      var m := |d.files| - 1;
      match ExtendFile(d.files[m], line)
      case Next(f) => Some(WithLast(d, f))
      case Over => Some(d.(tail := [line]))
      case Wrong => None
  }

  function ReadOn(d: Diff, lines: seq<string>): Option<Diff> {
    if lines == [] then Some(d)
    else
      var before := ReadOn(d, lines[..|lines| - 1]);
      if before == None then None else Extend(before.value, lines[|lines| - 1])
  }

  const EMPTY := Diff([], [], [])

  function Read(lines: seq<string>): Option<Diff> { ReadOn(EMPTY, lines) }

  // --------------------------------------------------- what is read is written

  lemma Prefixed(prefix: string, line: string)
    requires prefix <= line
    ensures prefix + line[|prefix|..] == line
  {
  }

  lemma MetaRead(line: string)
    ensures ReadMeta(line).Some? ==> MetaLine(ReadMeta(line).value) == line
  {
    if ReadMeta(line).Some? { Prefixed(MetaText(ReadMeta(line).value.kind), line); }
  }

  lemma BodyRead(line: string)
    ensures ReadBodyLine(line).Some? ==> BodyLineText(ReadBodyLine(line).value) == line
  {
    if line != [] { assert [line[0]] + line[1..] == line; }
    if "\\ No newline " <= line { Prefixed("\\ No newline ", line); }
  }

  lemma BinaryRead(line: string)
    requires IsBinary(line)
    ensures BinaryLines(Some(ReadBinary(line))) == [line]
  {
    Prefixed(BinaryMark(ReadBinary(line).git), line);
  }

  lemma MetaMore(meta: seq<Meta>, m: Meta)
    ensures MetaLines(meta + [m]) == MetaLines(meta) + [MetaLine(m)]
  {
    assert (meta + [m])[..|meta|] == meta;
  }

  lemma BodyMore(body: seq<BodyLine>, b: BodyLine)
    ensures BodyLines(body + [b]) == BodyLines(body) + [BodyLineText(b)]
  {
    assert (body + [b])[..|body|] == body;
  }

  lemma HunksMore(hunks: seq<Hunk>, h: Hunk)
    ensures HunksLines(hunks + [h]) == HunksLines(hunks) + HunkLines(h)
  {
    assert (hunks + [h])[..|hunks|] == hunks;
  }

  lemma FilesMore(files: seq<File>, f: File)
    ensures FilesLines(files + [f]) == FilesLines(files) + FileLines(f)
  {
    assert (files + [f])[..|files|] == files;
  }

  lemma AddBodyWritten(hunks: seq<Hunk>, b: BodyLine)
    requires hunks != []
    ensures HunksLines(AddBodyLine(hunks, b)) == HunksLines(hunks) + [BodyLineText(b)]
  {
    var m := |hunks| - 1;
    var h := hunks[m];
    HunksMore(hunks[..m], h);
    assert hunks[..m] + [h] == hunks;
    HunksMore(hunks[..m], h.(body := h.body + [b]));
    BodyMore(h.body, b);
  }

  lemma FileWritten(f: File, line: string)
    requires ExtendFile(f, line).Next?
    ensures FileLines(ExtendFile(f, line).file) == FileLines(f) + [line]
  {
    if "@@ " <= line {
      Prefixed("@@ ", line);
      HunksMore(f.hunks, Hunk(line[3..], []));
    } else if f.hunks != [] {
      BodyRead(line);
      AddBodyWritten(f.hunks, ReadBodyLine(line).value);
    } else if f.binary.Some? {
    } else if IsBinary(line) {
      BinaryRead(line);
    } else {
      MetaRead(line);
      MetaMore(f.meta, ReadMeta(line).value);
    }
  }

  /** A diff as it is before its last file ends. */
  predicate Open(d: Diff) {
    d.tail == [] && d.files != []
  }

  lemma LastFile(d: Diff, f: File)
    requires Open(d)
    ensures Lines(WithLast(d, f)) == d.preamble + FilesLines(d.files[..|d.files| - 1]) + FileLines(f)
    ensures Lines(d) == d.preamble + FilesLines(d.files[..|d.files| - 1]) + FileLines(d.files[|d.files| - 1])
  {
    FilesMore(d.files[..|d.files| - 1], f);
    Assoc(d.preamble, FilesLines(d.files[..|d.files| - 1]), FileLines(f));
    Assoc(d.preamble, FilesLines(d.files[..|d.files| - 1]), FileLines(d.files[|d.files| - 1]));
  }

  function WithLast(d: Diff, f: File): Diff
    requires d.files != []
  {
    d.(files := d.files[..|d.files| - 1] + [f])
  }

  lemma LastWritten(d: Diff, line: string)
    requires Open(d) && ExtendFile(d.files[|d.files| - 1], line).Next?
    ensures Lines(WithLast(d, ExtendFile(d.files[|d.files| - 1], line).file)) == Lines(d) + [line]
  {
    var f := d.files[|d.files| - 1];
    var g := ExtendFile(f, line).file;
    FileWritten(f, line);
    LastFile(d, g);
    Assoc(d.preamble + FilesLines(d.files[..|d.files| - 1]), FileLines(f), [line]);
  }

  lemma HeaderWritten(d: Diff, line: string)
    requires d.tail == [] && !NoDiff(line)
    ensures Lines(d.(files := d.files + [File(line[10..], [], None, [])])) == Lines(d) + [line]
  {
    var f := File(line[10..], [], None, []);
    Prefixed("diff --git", line);
    FilesMore(d.files, f);
    assert FileLines(f) == [line];
    Assoc(d.preamble, FilesLines(d.files), [line]);
  }

  lemma ExtendWritten(d: Diff, line: string)
    requires Extend(d, line).Some?
    ensures Lines(Extend(d, line).value) == Lines(d) + [line]
  {
    if d.tail != [] {
      Assoc(d.preamble + FilesLines(d.files), d.tail, [line]);
    } else if !NoDiff(line) {
      HeaderWritten(d, line);
    } else if d.files == [] {
      assert Lines(d) == d.preamble;
    } else if ExtendFile(d.files[|d.files| - 1], line).Next? {
      LastWritten(d, line);
    }
  }

  /** What has been read, written out, is what was there. */
  lemma {:induction false} ReadIsWritten(lines: seq<string>)
    requires Read(lines).Some?
    ensures Lines(Read(lines).value) == lines
  {
    if lines != [] {
      var m := |lines| - 1;
      ReadIsWritten(lines[..m]);
      ExtendWritten(Read(lines[..m]).value, lines[m]);
      assert lines[..m] + [lines[m]] == lines;
    }
  }

  // ------------------------------------------------------------ what is accepted

  function WhereFile(f: File): Context {
    var crlf := ForceCrlf("diff --git" + f.rest);
    if f.hunks != [] then Text(crlf) else if f.binary.Some? then BinaryData(crlf) else Header(crlf)
  }

  /** The context of the line after the diff so far. */
  function Where(d: Diff): Context {
    if d.tail != [] then Ended else if d.files == [] then Preamble else WhereFile(d.files[|d.files| - 1])
  }

  /** An added line passes its checks. */
  predicate AddOk(c: Context, line: string, oldDebug: string -> bool) {
    c.Text? && "+" <= line ==> AddedOk(line[1..], c.crlf, oldDebug)
  }

  lemma MetaExactly(line: string)
    ensures ReadMeta(line).Some? <==> HasPrefix(line)
  {
    var p := PRE_PATCH_PREFIXES;
    if ReadMeta(line).Some? {
      assert p[0] <= line || p[1] <= line || p[2] <= line || p[3] <= line || p[4] <= line
        || p[5] <= line || p[6] <= line || p[7] <= line || p[8] <= line;
    }
  }

  lemma BodyExactly(line: string)
    ensures ReadBodyLine(line).Some? <==> IsBody(line)
    ensures "+" <= line ==> ReadBodyLine(line) == Some(Added(line[1..]))
    ensures ReadBodyLine(line).Some? && ReadBodyLine(line).value.Added? ==>
      "+" <= line && ReadBodyLine(line).value.text == line[1..]
  {
  }

  lemma BodyPassesMore(body: seq<BodyLine>, b: BodyLine, crlf: bool, oldDebug: string -> bool)
    ensures BodyPasses(body + [b], crlf, oldDebug) <==>
      BodyPasses(body, crlf, oldDebug) && (b.Added? ==> AddedOk(b.text, crlf, oldDebug))
  {
    assert (body + [b])[..|body|] == body;
  }

  lemma HunksPassMore(hunks: seq<Hunk>, h: Hunk, crlf: bool, oldDebug: string -> bool)
    ensures HunksPass(hunks + [h], crlf, oldDebug) <==>
      HunksPass(hunks, crlf, oldDebug) && BodyPasses(h.body, crlf, oldDebug)
  {
    assert (hunks + [h])[..|hunks|] == hunks;
  }

  lemma AddBodyPasses(hunks: seq<Hunk>, b: BodyLine, crlf: bool, oldDebug: string -> bool)
    requires hunks != []
    ensures HunksPass(AddBodyLine(hunks, b), crlf, oldDebug) <==>
      HunksPass(hunks, crlf, oldDebug) && (b.Added? ==> AddedOk(b.text, crlf, oldDebug))
  {
    var m := |hunks| - 1;
    assert hunks[..m] + [hunks[m]] == hunks;
    HunksPassMore(hunks[..m], hunks[m], crlf, oldDebug);
    HunksPassMore(hunks[..m], hunks[m].(body := hunks[m].body + [b]), crlf, oldDebug);
    BodyPassesMore(hunks[m].body, b, crlf, oldDebug);
  }

  lemma FileAgrees(f: File, line: string, oldDebug: string -> bool)
    requires NoDiff(line)
    ensures var c, s := WhereFile(f), ExtendFile(f, line);
      && (LineOk(c, line, oldDebug) <==> !s.Wrong? && AddOk(c, line, oldDebug))
      && (s.Next? ==> WhereFile(s.file) == After(c, line))
      && (s.Over? ==> After(c, line) == Ended)
  {
    MetaExactly(line);
    BodyExactly(line);
  }

  lemma BodyPassesNext(f: File, line: string, oldDebug: string -> bool)
    requires !IsHunk(line) && f.hunks != [] && IsBody(line)
    ensures ExtendFile(f, line) == Next(f.(hunks := AddBodyLine(f.hunks, ReadBodyLine(line).value)))
    ensures FilePasses(ExtendFile(f, line).file, oldDebug) <==>
      FilePasses(f, oldDebug) && AddOk(WhereFile(f), line, oldDebug)
  {
    BodyExactly(line);
    AddBodyPasses(f.hunks, ReadBodyLine(line).value, ForceCrlf("diff --git" + f.rest), oldDebug);
  }

  lemma FilePassesNext(f: File, line: string, oldDebug: string -> bool)
    requires NoDiff(line) && ExtendFile(f, line).Next?
    ensures FilePasses(ExtendFile(f, line).file, oldDebug) <==>
      FilePasses(f, oldDebug) && AddOk(WhereFile(f), line, oldDebug)
  {
    BodyExactly(line);
    if "@@ " <= line {
      HunksPassMore(f.hunks, Hunk(line[3..], []), ForceCrlf("diff --git" + f.rest), oldDebug);
    } else if f.hunks != [] {
      BodyPassesNext(f, line, oldDebug);
    }
  }

  lemma AllPassMore(files: seq<File>, f: File, oldDebug: string -> bool)
    ensures AllPass(files + [f], oldDebug) <==> AllPass(files, oldDebug) && FilePasses(f, oldDebug)
  {
    assert (files + [f])[..|files|] == files;
  }

  lemma ReplaceLast(d: Diff, g: File, good: bool, oldDebug: string -> bool)
    requires Open(d) && (FilePasses(g, oldDebug) <==> FilePasses(d.files[|d.files| - 1], oldDebug) && good)
    ensures Passes(WithLast(d, g), oldDebug) <==> Passes(d, oldDebug) && good
  {
    var init, f := d.files[..|d.files| - 1], d.files[|d.files| - 1];
    assert d.files == init + [f];
    AllPassMore(init, f, oldDebug);
    AllPassMore(init, g, oldDebug);
  }

  lemma LastPasses(d: Diff, line: string, oldDebug: string -> bool)
    requires Open(d) && NoDiff(line) && ExtendFile(d.files[|d.files| - 1], line).Next?
    ensures Passes(WithLast(d, ExtendFile(d.files[|d.files| - 1], line).file), oldDebug) <==>
      Passes(d, oldDebug) && AddOk(Where(d), line, oldDebug)
  {
    var f := d.files[|d.files| - 1];
    FilePassesNext(f, line, oldDebug);
    ReplaceLast(d, ExtendFile(f, line).file, AddOk(Where(d), line, oldDebug), oldDebug);
  }

  lemma ExtendAgrees(d: Diff, line: string, oldDebug: string -> bool)
    ensures LineOk(Where(d), line, oldDebug) <==>
      Extend(d, line).Some? && (NoDiff(line) ==> AddOk(Where(d), line, oldDebug))
    ensures Extend(d, line).Some? ==> Where(Extend(d, line).value) == After(Where(d), line)
  {
    if d.tail == [] && !NoDiff(line) {
      Prefixed("diff --git", line);
    } else if Open(d) {
      FileAgrees(d.files[|d.files| - 1], line, oldDebug);
    }
  }

  lemma ExtendPasses(d: Diff, line: string, oldDebug: string -> bool)
    requires Extend(d, line).Some?
    ensures Passes(Extend(d, line).value, oldDebug) <==>
      Passes(d, oldDebug) && (NoDiff(line) ==> AddOk(Where(d), line, oldDebug))
  {
    if d.tail == [] && !NoDiff(line) {
      AllPassMore(d.files, File(line[10..], [], None, []), oldDebug);
    } else if Open(d) {
      var f := d.files[|d.files| - 1];
      FileAgrees(f, line, oldDebug);
      if ExtendFile(f, line).Next? { LastPasses(d, line, oldDebug); } else { BodyExactly(line); }
    }
  }

  lemma AllOkMore(lines: seq<string>, oldDebug: string -> bool)
    requires lines != []
    ensures var m := |lines| - 1;
      AllOk(lines, m + 1, oldDebug) <==> AllOk(lines[..m], m, oldDebug) && OkAt(lines, m, oldDebug)
  {
    var m := |lines| - 1;
    AllOkPrefix(lines, m, m, oldDebug);
    assert Marks(lines, oldDebug)[m] == OkAt(lines, m, oldDebug);
  }

  lemma MarkPrefix(lines: seq<string>, m: nat, i: nat, oldDebug: string -> bool)
    requires i < m <= |lines|
    ensures Marks(lines[..m], oldDebug)[i] == Marks(lines, oldDebug)[i]
  {
    SameContext(lines, m, i);
    assert lines[..m][i] == lines[i];
  }

  lemma {:induction false} AllOkPrefix(lines: seq<string>, m: nat, n: nat, oldDebug: string -> bool)
    requires n <= m <= |lines|
    ensures AllOk(lines[..m], n, oldDebug) <==> AllOk(lines, n, oldDebug)
  {
    if n > 0 {
      AllOkPrefix(lines, m, n - 1, oldDebug);
      MarkPrefix(lines, m, n - 1, oldDebug);
    }
  }

  lemma {:induction false} SameContext(lines: seq<string>, n: nat, i: nat)
    requires i <= n <= |lines|
    ensures ContextAt(lines[..n], i) == ContextAt(lines, i)
  {
    if i > 0 { SameContext(lines, n, i - 1); }
  }

  /** Read, and its added lines pass. */
  predicate Good(d: Option<Diff>, oldDebug: string -> bool) {
    d.Some? && Passes(d.value, oldDebug)
  }

  lemma ExtendGood(d: Diff, line: string, oldDebug: string -> bool)
    ensures Good(Extend(d, line), oldDebug) <==> Passes(d, oldDebug) && LineOk(Where(d), line, oldDebug)
    ensures Extend(d, line).Some? ==> Where(Extend(d, line).value) == After(Where(d), line)
  {
    ExtendAgrees(d, line, oldDebug);
    if Extend(d, line).Some? { ExtendPasses(d, line, oldDebug); }
  }

  function ReadOne(before: Option<Diff>, line: string): Option<Diff> {
    if before == None then None else Extend(before.value, line)
  }

  lemma GoodNext(before: Option<Diff>, c: Context, line: string, ok: bool, oldDebug: string -> bool)
    requires ok <==> Good(before, oldDebug)
    requires before.Some? ==> Where(before.value) == c
    ensures Good(ReadOne(before, line), oldDebug) <==> ok && LineOk(c, line, oldDebug)
    ensures ReadOne(before, line).Some? ==> Where(ReadOne(before, line).value) == After(c, line)
  {
    if before.Some? { ExtendGood(before.value, line, oldDebug); }
  }

  lemma ReadNext(lines: seq<string>)
    requires lines != []
    ensures Read(lines) == ReadOne(Read(lines[..|lines| - 1]), lines[|lines| - 1])
  {
  }

  lemma ContextNext(lines: seq<string>, last: string)
    ensures ContextAt(lines + [last], |lines| + 1) == After(ContextAt(lines, |lines|), last)
    ensures SameBefore(lines, last)
  {
    assert (lines + [last])[..|lines|] == lines;
    SameContext(lines + [last], |lines|, |lines|);
  }

  predicate SameBefore(lines: seq<string>, last: string) {
    ContextAt(lines + [last], |lines|) == ContextAt(lines, |lines|)
  }

  lemma AllOkNext(lines: seq<string>, last: string, oldDebug: string -> bool)
    ensures AllOk(lines + [last], |lines| + 1, oldDebug) <==>
      AllOk(lines, |lines|, oldDebug) && LineOk(ContextAt(lines, |lines|), last, oldDebug)
  {
    assert (lines + [last])[..|lines|] == lines;
    AllOkMore(lines + [last], oldDebug);
    ContextNext(lines, last);
  }

  /** The reader and the checker agree on the lines so far. */
  predicate Agree(lines: seq<string>, oldDebug: string -> bool) {
    && (AllOk(lines, |lines|, oldDebug) <==> Good(Read(lines), oldDebug))
    && (Read(lines).Some? ==> Where(Read(lines).value) == ContextAt(lines, |lines|))
  }

  lemma AgreeNext(lines: seq<string>, last: string, oldDebug: string -> bool)
    requires Agree(lines, oldDebug)
    ensures Agree(lines + [last], oldDebug)
  {
    assert (lines + [last])[..|lines|] == lines;
    GoodNext(Read(lines), ContextAt(lines, |lines|), last, AllOk(lines, |lines|, oldDebug), oldDebug);
    ReadNext(lines + [last]);
    ContextNext(lines, last);
    AllOkNext(lines, last, oldDebug);
  }

  /** A diff is accepted exactly when it can be read and its added lines pass. */
  lemma {:induction false} AcceptedWhenRead(lines: seq<string>, oldDebug: string -> bool)
    ensures Agree(lines, oldDebug)
  {
    if lines != [] {
      var before, last := lines[..|lines| - 1], lines[|lines| - 1];
      assert lines == before + [last];
      AcceptedWhenRead(before, oldDebug);
      AgreeNext(before, last, oldDebug);
    }
  }

  // --------------------------------------------------- what is written is read

  lemma {:induction false} ReadOnAppend(d: Diff, a: seq<string>, b: seq<string>)
    ensures ReadOn(d, a + b) == if ReadOn(d, a) == None then None else ReadOn(ReadOn(d, a).value, b)
  {
    if b == [] {
      assert a + b == a;
    } else {
      var k := |b| - 1;
      ReadOnAppend(d, a, b[..k]);
      assert (a + b)[..|a + b| - 1] == a + b[..k];
    }
  }

  lemma OnAndOn(d: Diff, a: seq<string>, e: Diff, b: seq<string>, f: Diff)
    requires ReadOn(d, a) == Some(e) && ReadOn(e, b) == Some(f)
    ensures ReadOn(d, a + b) == Some(f)
  {
    ReadOnAppend(d, a, b);
  }

  lemma OneLine(d: Diff, line: string)
    ensures ReadOn(d, [line]) == Extend(d, line)
  {
    assert [line][..0] == [];
    assert ReadOn(d, []) == Some(d);
  }

  /** The diff with one more file. */
  function WithFile(d: Diff, f: File): Diff { d.(files := d.files + [f]) }

  lemma ExtendNext(d: Diff, f: File, line: string, g: File)
    requires d.tail == [] && NoDiff(line) && ExtendFile(f, line) == Next(g)
    ensures Extend(WithFile(d, f), line) == Some(WithFile(d, g))
  {
    assert (d.files + [f])[..|d.files|] == d.files;
  }

  lemma MetaLineIs(m: Meta)
    ensures var line, text := MetaLine(m), MetaText(m.kind);
      && |text| >= 4 && text <= line && line[|text|..] == m.rest && line[0] == text[0] && line[1] == text[1]
      && (|text| > 4 ==> line[4] == text[4])
  {
    assert MetaLine(m)[..|MetaText(m.kind)|] == MetaText(m.kind);
  }

  /** The first two letters of a line tell it from the other lines. */
  lemma MetaUnlike(m: Meta)
    ensures NoDiff(MetaLine(m)) && !("@@ " <= MetaLine(m)) && !IsBinary(MetaLine(m))
  {
    MetaLineIs(m);
    assert MetaLine(m)[0] in "-+indosr" && (MetaLine(m)[0] == 'd' ==> MetaLine(m)[1] == 'e');
  }

  lemma MetaIsRead(m: Meta)
    ensures ReadMeta(MetaLine(m)) == Some(m)
  {
    MetaLineIs(m);
    match m.kind
    case NewFile => assert MetaLine(m)[4] == 'f';
    case NewMode => assert MetaLine(m)[4] == 'm';
    case _ =>
  }

  lemma MetaNext(d: Diff, f: File, m: Meta)
    requires d.tail == [] && f.binary == None && f.hunks == []
    ensures ReadOn(WithFile(d, f), [MetaLine(m)]) == Some(WithFile(d, f.(meta := f.meta + [m])))
  {
    MetaIsRead(m);
    MetaUnlike(m);
    ExtendNext(d, f, MetaLine(m), f.(meta := f.meta + [m]));
    OneLine(WithFile(d, f), MetaLine(m));
  }

  lemma MetaSnoc(d: Diff, f: File, meta: seq<Meta>, m: Meta)
    requires d.tail == [] && f.binary == None && f.hunks == []
    requires ReadOn(WithFile(d, f), MetaLines(meta)) == Some(WithFile(d, f.(meta := meta)))
    ensures ReadOn(WithFile(d, f), MetaLines(meta + [m])) == Some(WithFile(d, f.(meta := meta + [m])))
  {
    var g, h := f.(meta := meta), f.(meta := meta + [m]);
    MetaMore(meta, m);
    MetaNext(d, g, m);
    OnAndOn(WithFile(d, f), MetaLines(meta), WithFile(d, g), [MetaLine(m)], WithFile(d, h));
  }

  lemma {:induction false} MetaLinesRead(d: Diff, f: File, meta: seq<Meta>)
    requires d.tail == [] && f.meta == [] && f.binary == None && f.hunks == []
    ensures ReadOn(WithFile(d, f), MetaLines(meta)) == Some(WithFile(d, f.(meta := meta)))
  {
    if meta == [] {
      assert f.(meta := meta) == f;
    } else {
      var init, last := meta[..|meta| - 1], meta[|meta| - 1];
      assert meta == init + [last];
      MetaLinesRead(d, f, init);
      MetaSnoc(d, f, init, last);
    }
  }

  lemma BodyIsRead(b: BodyLine)
    ensures ReadBodyLine(BodyLineText(b)) == Some(b) && BodyLineText(b) != []
    ensures NoDiff(BodyLineText(b)) && !IsHunk(BodyLineText(b))
  {
    if b.NoNewline? {
      assert BodyLineText(b)[..13] == "\\ No newline " && BodyLineText(b)[13..] == b.text;
    } else {
      assert BodyLineText(b)[1..] == b.text;
    }
  }

  lemma {:induction false} BodyLinesRead(d: Diff, f: File, hunks: seq<Hunk>, marker: string, body: seq<BodyLine>)
    requires d.tail == []
    ensures ReadOn(WithFile(d, f.(hunks := hunks + [Hunk(marker, [])])), BodyLines(body))
         == Some(WithFile(d, f.(hunks := hunks + [Hunk(marker, body)])))
  {
    if body != [] {
      var k := |body| - 1;
      var g0, g, h := f.(hunks := hunks + [Hunk(marker, [])]), f.(hunks := hunks + [Hunk(marker, body[..k])]),
        f.(hunks := hunks + [Hunk(marker, body)]);
      BodyLinesRead(d, f, hunks, marker, body[..k]);
      BodyIsRead(body[k]);
      assert body[..k] + [body[k]] == body;
      assert AddBodyLine(g.hunks, body[k]) == h.hunks;
      ExtendNext(d, g, BodyLineText(body[k]), h);
      OneLine(WithFile(d, g), BodyLineText(body[k]));
      OnAndOn(WithFile(d, g0), BodyLines(body[..k]), WithFile(d, g), [BodyLineText(body[k])], WithFile(d, h));
    }
  }

  lemma HunkRead(d: Diff, f: File, h: Hunk)
    requires d.tail == []
    ensures ReadOn(WithFile(d, f), HunkLines(h)) == Some(WithFile(d, f.(hunks := f.hunks + [h])))
  {
    var line, g := "@@ " + h.marker, f.(hunks := f.hunks + [Hunk(h.marker, [])]);
    assert line[..3] == "@@ " && line[3..] == h.marker && line[0] == '@';
    ExtendNext(d, f, line, g);
    OneLine(WithFile(d, f), line);
    BodyLinesRead(d, f, f.hunks, h.marker, h.body);
    OnAndOn(WithFile(d, f), [line], WithFile(d, g), BodyLines(h.body), WithFile(d, f.(hunks := f.hunks + [h])));
  }

  lemma HunkSnoc(d: Diff, f: File, hunks: seq<Hunk>, h: Hunk)
    requires d.tail == [] && ReadOn(WithFile(d, f), HunksLines(hunks)) == Some(WithFile(d, f.(hunks := hunks)))
    ensures ReadOn(WithFile(d, f), HunksLines(hunks + [h])) == Some(WithFile(d, f.(hunks := hunks + [h])))
  {
    var g := f.(hunks := hunks);
    HunksMore(hunks, h);
    HunkRead(d, g, h);
    OnAndOn(WithFile(d, f), HunksLines(hunks), WithFile(d, g), HunkLines(h), WithFile(d, f.(hunks := hunks + [h])));
  }

  lemma {:induction false} HunksRead(d: Diff, f: File, hunks: seq<Hunk>)
    requires d.tail == [] && f.hunks == []
    ensures ReadOn(WithFile(d, f), HunksLines(hunks)) == Some(WithFile(d, f.(hunks := hunks)))
  {
    if hunks == [] {
      assert f.(hunks := hunks) == f;
    } else {
      var init, last := hunks[..|hunks| - 1], hunks[|hunks| - 1];
      assert hunks == init + [last];
      HunksRead(d, f, init);
      HunkSnoc(d, f, init, last);
    }
  }

  lemma {:induction false} DataRead(d: Diff, f: File, b: Binary, data: seq<string>)
    requires d.tail == [] && f.hunks == [] && b.data == []
    requires forall i | 0 <= i < |data| :: NoDiff(data[i]) && !("@@ " <= data[i])
    ensures ReadOn(WithFile(d, f.(binary := Some(b))), data) == Some(WithFile(d, f.(binary := Some(b.(data := data)))))
  {
    if data != [] {
      var k := |data| - 1;
      var g0, g := f.(binary := Some(b)), f.(binary := Some(b.(data := data[..k])));
      var h := f.(binary := Some(b.(data := data)));
      DataRead(d, f, b, data[..k]);
      assert data[..k] + [data[k]] == data;
      ExtendNext(d, g, data[k], h);
      OneLine(WithFile(d, g), data[k]);
      OnAndOn(WithFile(d, g0), data[..k], WithFile(d, g), [data[k]], WithFile(d, h));
    }
  }

  lemma MarkIsRead(git: bool, rest: string)
    ensures var line := BinaryMark(git) + rest;
      IsBinary(line) && ReadBinary(line) == Binary(git, rest, []) && NoDiff(line) && !IsHunk(line)
  {
    var line := BinaryMark(git) + rest;
    assert line[..|BinaryMark(git)|] == BinaryMark(git) && line[|BinaryMark(git)|..] == rest;
    assert line[0] == BinaryMark(git)[0];
  }

  lemma BinaryIsRead(d: Diff, f: File, binary: Option<Binary>)
    requires d.tail == [] && f.hunks == [] && f.binary == None && ShapedFile(f.(binary := binary))
    ensures ReadOn(WithFile(d, f), BinaryLines(binary)) == Some(WithFile(d, f.(binary := binary)))
  {
    if binary.Some? {
      var b := binary.value;
      var line, g := BinaryMark(b.git) + b.rest, f.(binary := Some(b.(data := [])));
      MarkIsRead(b.git, b.rest);
      ExtendNext(d, f, line, g);
      OneLine(WithFile(d, f), line);
      DataRead(d, f, b.(data := []), b.data);
      OnAndOn(WithFile(d, f), [line], WithFile(d, g), b.data, WithFile(d, f.(binary := binary)));
    }
  }

  lemma FileRead(d: Diff, f: File)
    requires d.tail == [] && ShapedFile(f)
    ensures ReadOn(d, FileLines(f)) == Some(WithFile(d, f))
  {
    var line := "diff --git" + f.rest;
    var f0 := File(f.rest, [], None, []);
    var f1 := f0.(meta := f.meta);
    var f2 := f1.(binary := f.binary);
    assert line[..10] == "diff --git" && line[10..] == f.rest;
    OneLine(d, line);
    MetaLinesRead(d, f0, f.meta);
    OnAndOn(d, [line], WithFile(d, f0), MetaLines(f.meta), WithFile(d, f1));
    BinaryIsRead(d, f1, f.binary);
    OnAndOn(d, [line] + MetaLines(f.meta), WithFile(d, f1), BinaryLines(f.binary), WithFile(d, f2));
    HunksRead(d, f2, f.hunks);
    OnAndOn(d, [line] + MetaLines(f.meta) + BinaryLines(f.binary), WithFile(d, f2),
            HunksLines(f.hunks), WithFile(d, f));
  }

  lemma FileSnoc(d: Diff, files: seq<File>, f: File)
    requires d.tail == [] && ShapedFile(f) && ReadOn(d, FilesLines(files)) == Some(d.(files := files))
    ensures ReadOn(d, FilesLines(files + [f])) == Some(d.(files := files + [f]))
  {
    FilesMore(files, f);
    FileRead(d.(files := files), f);
    OnAndOn(d, FilesLines(files), d.(files := files), FileLines(f), d.(files := files + [f]));
  }

  lemma {:induction false} FilesRead(d: Diff, files: seq<File>)
    requires d.tail == [] && d.files == [] && forall i | 0 <= i < |files| :: ShapedFile(files[i])
    ensures ReadOn(d, FilesLines(files)) == Some(d.(files := files))
  {
    if files == [] {
      assert d.(files := files) == d;
    } else {
      var init, last := files[..|files| - 1], files[|files| - 1];
      assert files == init + [last];
      FilesRead(d, init);
      FileSnoc(d, init, last);
    }
  }

  lemma {:induction false} PreambleRead(preamble: seq<string>)
    requires forall i | 0 <= i < |preamble| :: RStrip(preamble[i]) == []
    ensures ReadOn(EMPTY, preamble) == Some(EMPTY.(preamble := preamble))
  {
    if preamble != [] {
      var k := |preamble| - 1;
      PreambleRead(preamble[..k]);
      BlankIsNoDiff(preamble[k]);
      assert preamble[..k] + [preamble[k]] == preamble;
    }
  }

  lemma BlankIsNoDiff(line: string)
    requires RStrip(line) == []
    ensures NoDiff(line)
  {
    if line != [] { assert IsSpace(line[0]); }
  }

  lemma TailSnoc(d: Diff, tail: seq<string>, line: string)
    requires d.tail == [] && d.files != [] && d.files[|d.files| - 1].hunks != []
    requires NoDiff(line) && (tail == [] ==> EndsPatch(line)) && ReadOn(d, tail) == Some(d.(tail := tail))
    ensures ReadOn(d, tail + [line]) == Some(d.(tail := tail + [line]))
  {
    BodyExactly(line);
    assert Extend(d.(tail := tail), line) == Some(d.(tail := tail + [line]));
    OneLine(d.(tail := tail), line);
    OnAndOn(d, tail, d.(tail := tail), [line], d.(tail := tail + [line]));
  }

  lemma {:induction false} TailRead(d: Diff, tail: seq<string>)
    requires d.tail == [] && d.files != [] && d.files[|d.files| - 1].hunks != []
    requires forall i | 0 <= i < |tail| :: NoDiff(tail[i])
    requires tail != [] ==> EndsPatch(tail[0])
    ensures ReadOn(d, tail) == Some(d.(tail := tail))
  {
    if tail == [] {
      assert d.(tail := tail) == d;
    } else {
      var init, last := tail[..|tail| - 1], tail[|tail| - 1];
      assert tail == init + [last];
      TailRead(d, init);
      TailSnoc(d, init, last);
    }
  }

  /** A diff, written out, is read back as it was. */
  lemma WrittenIsRead(d: Diff)
    requires Shaped(d)
    ensures Read(Lines(d)) == Some(d)
  {
    var d0, d1 := EMPTY.(preamble := d.preamble), d.(tail := []);
    PreambleRead(d.preamble);
    FilesRead(d0, d.files);
    OnAndOn(EMPTY, d.preamble, d0, FilesLines(d.files), d1);
    if d.tail == [] {
      assert Lines(d) == d.preamble + FilesLines(d.files);
    } else {
      TailRead(d1, d.tail);
      OnAndOn(EMPTY, d.preamble + FilesLines(d.files), d1, d.tail, d);
    }
  }

  lemma FileStaysShaped(f: File, line: string)
    requires NoDiff(line) && ShapedFile(f) && ExtendFile(f, line).Next?
    ensures ShapedFile(ExtendFile(f, line).file)
  {
  }

  lemma StaysShaped(d: Diff, line: string)
    requires Shaped(d) && Extend(d, line).Some?
    ensures Shaped(Extend(d, line).value)
  {
    if Open(d) && NoDiff(line) {
      var f := d.files[|d.files| - 1];
      BodyExactly(line);
      if ExtendFile(f, line).Next? { FileStaysShaped(f, line); }
    }
  }

  lemma {:induction false} ReadIsShaped(lines: seq<string>)
    requires Read(lines).Some?
    ensures Shaped(Read(lines).value)
  {
    if lines != [] {
      var m := |lines| - 1;
      ReadIsShaped(lines[..m]);
      StaysShaped(Read(lines[..m]).value, lines[m]);
    }
  }

  /** The checker accepts exactly the lines of well-formed diffs whose added lines
      pass their checks. */
  lemma AcceptedExactly(lines: seq<string>, oldDebug: string -> bool)
    ensures AllOk(lines, |lines|, oldDebug) <==> exists d :: Shaped(d) && Passes(d, oldDebug) && Lines(d) == lines
  {
    AcceptedWhenRead(lines, oldDebug);
    if AllOk(lines, |lines|, oldDebug) {
      ReadIsWritten(lines);
      ReadIsShaped(lines);
    }
    if d :| Shaped(d) && Passes(d, oldDebug) && Lines(d) == lines { WrittenIsRead(d); }
  }

  /** What an added line is like: in a file that is not a shell script a clean body
      and CRLF, in a shell script a clean body and any line endings. */
  ghost predicate GoodAddition(line: string, shell: bool, oldDebug: string -> bool) {
    if shell
    then exists body, r, n, nr, rn :: BodyAndEndings(line, body, r, n, nr, rn) && CleanBody(body, oldDebug)
    else EndsWith(line, "\r\n") && CleanBody(line[..|line| - 2], oldDebug)
  }

  lemma GoodAdditionExactly(line: string, shell: bool, oldDebug: string -> bool)
    ensures AddedOk(line, !shell, oldDebug) <==> GoodAddition(line, shell, oldDebug)
  {
    if shell { PlainLineExactly(line, oldDebug); } else { CrlfLineExactly(line, oldDebug); }
  }

  /** So each added line of an accepted diff is good for the file it is added to. */
  lemma AddedLinesPass(d: Diff, oldDebug: string -> bool, i: nat, j: nat, k: nat, name: string, tail: string)
    requires Shaped(d) && AllOk(Lines(d), |Lines(d)|, oldDebug)
    requires i < |d.files| && j < |d.files[i].hunks| && k < |d.files[i].hunks[j].body|
    requires d.files[i].rest == " a/" + name + " " + tail && ' ' !in name
    requires d.files[i].hunks[j].body[k].Added?
    ensures GoodAddition(d.files[i].hunks[j].body[k].text, IsShell(name), oldDebug)
  {
    WrittenIsRead(d);
    AcceptedWhenRead(Lines(d), oldDebug);
    CrlfOf(d.files[i].rest, name, tail);
    LinePasses(d, oldDebug, i, j, k);
    GoodAdditionExactly(d.files[i].hunks[j].body[k].text, IsShell(name), oldDebug);
  }

  lemma {:induction false} FileOf(files: seq<File>, i: nat, oldDebug: string -> bool)
    requires i < |files| && AllPass(files, oldDebug)
    ensures FilePasses(files[i], oldDebug)
  {
    if i < |files| - 1 { FileOf(files[..|files| - 1], i, oldDebug); }
  }

  lemma {:induction false} HunkOf(hunks: seq<Hunk>, j: nat, crlf: bool, oldDebug: string -> bool)
    requires j < |hunks| && HunksPass(hunks, crlf, oldDebug)
    ensures BodyPasses(hunks[j].body, crlf, oldDebug)
  {
    if j < |hunks| - 1 { HunkOf(hunks[..|hunks| - 1], j, crlf, oldDebug); }
  }

  lemma {:induction false} AdditionOf(body: seq<BodyLine>, k: nat, crlf: bool, oldDebug: string -> bool)
    requires k < |body| && body[k].Added? && BodyPasses(body, crlf, oldDebug)
    ensures AddedOk(body[k].text, crlf, oldDebug)
  {
    if k < |body| - 1 { AdditionOf(body[..|body| - 1], k, crlf, oldDebug); }
  }

  lemma LinePasses(d: Diff, oldDebug: string -> bool, i: nat, j: nat, k: nat)
    requires Passes(d, oldDebug)
    requires i < |d.files| && j < |d.files[i].hunks| && k < |d.files[i].hunks[j].body|
    requires d.files[i].hunks[j].body[k].Added?
    ensures AddedOk(d.files[i].hunks[j].body[k].text, ForceCrlf("diff --git" + d.files[i].rest), oldDebug)
  {
    var crlf := ForceCrlf("diff --git" + d.files[i].rest);
    FileOf(d.files, i, oldDebug);
    HunkOf(d.files[i].hunks, j, crlf, oldDebug);
    AdditionOf(d.files[i].hunks[j].body, k, crlf, oldDebug);
  }

  lemma CrlfOf(rest: string, name: string, tail: string)
    requires rest == " a/" + name + " " + tail && ' ' !in name
    ensures ForceCrlf("diff --git" + rest) == !IsShell(name)
  {
    assert "diff --git" + rest == "diff --git a/" + name + " " + tail;
    HeaderExactly(Preamble, name, tail);
  }
}
