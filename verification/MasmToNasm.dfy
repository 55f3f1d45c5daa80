/** The MASM to NASM converter: anonymous labels and saved registers.  Lines are
    taken as already classified; what the other lines become is left alone. */
module MasmToNasm {
  import opened Common

  /** An operand: `@b`, `@f`, or text without either. */
  datatype Operand = Back | Forward | Word(text: string)

  datatype Line =
    | AnonLabel                                                    // @@:
    | Proc(name: string, isPrivate: bool, uses: seq<string>)       // name PROC USES ...
    | Ret
    | Code(operands: seq<Operand>)
    | Other(text: string)

  datatype Output =
    | Label(name: string)
    | Global(name: string)
    | ProcLabel(name: string)
    | Push(register: string)
    | Pop(register: string)
    | Return
    | Asm(operands: seq<string>)
    | Text(text: string)

  // -------------------------------------------------------------- numerals

  function Digits(n: nat): string {
    (if n < 10 then "" else Digits(n / 10)) + [(n % 10 + 48) as char]
  }

  function Decimal(n: int): string {
    if n < 0 then "-" + Digits(-n) else Digits(n)
  }

  function AnonName(count: int): string {
    "." + Decimal(count)
  }

  function Value(s: string): int {
    if s == "" then 0 else 10 * Value(s[..|s| - 1]) + (s[|s| - 1] as int - 48)
  }

  lemma {:induction false} DigitsValue(n: nat)
    ensures Value(Digits(n)) == n && Digits(n) != "" && '-' !in Digits(n)
    decreases n
  {
    var prefix := if n < 10 then "" else Digits(n / 10);
    if n >= 10 { DigitsValue(n / 10); }
    assert Digits(n) == prefix + [(n % 10 + 48) as char];
    assert Digits(n)[..|Digits(n)| - 1] == prefix;
  }

  /** Different counts give different labels. */
  lemma NamesDiffer(a: int, b: int)
    ensures AnonName(a) == AnonName(b) <==> a == b
  {
    if AnonName(a) == AnonName(b) {
      assert AnonName(a)[1..] == Decimal(a) && AnonName(b)[1..] == Decimal(b);
      DigitsValue(if a < 0 then -a else a);
      DigitsValue(if b < 0 then -b else b);
      if a < 0 { assert Decimal(a)[0] == '-' && Decimal(a)[1..] == Digits(-a); }
      if b < 0 { assert Decimal(b)[0] == '-' && Decimal(b)[1..] == Digits(-b); }
      assert a >= 0 ==> Decimal(a)[0] in Digits(a);
      assert b >= 0 ==> Decimal(b)[0] in Digits(b);
    }
  }

  /** The first labels, and the dangling one before them. */
  lemma FirstNames()
    ensures AnonName(0) == ".0" && AnonName(12) == ".12" && AnonName(-1) == ".-1"
  {
    assert Digits(1) == "" + "1" && Digits(12) == Digits(1) + "2" && Digits(0) == "" + "0";
  }

  // ------------------------------------------------------- what is emitted

  function Anons(lines: seq<Line>): nat {
    if lines == [] then 0 else Anons(lines[..|lines| - 1]) + if lines[|lines| - 1].AnonLabel? then 1 else 0
  }

  /** The registers `self.uses` holds after some lines; None before it is set. */
  function Uses(lines: seq<Line>): Option<seq<string>> {
    if lines == [] then None
    else match lines[|lines| - 1]
      case Proc(_, _, uses) => Some(uses)
      case Ret => if Uses(lines[..|lines| - 1]).Some? then Some([]) else None
      case _ => Uses(lines[..|lines| - 1])
  }

  function Pushes(uses: seq<string>): (r: seq<Output>)
    ensures |r| == |uses| && forall i | 0 <= i < |uses| :: r[i] == Push(uses[i])
  {
    seq(|uses|, i requires 0 <= i < |uses| => Push(uses[i]))
  }

  function Pops(uses: seq<string>): (r: seq<Output>)
    ensures |r| == |uses| && forall i | 0 <= i < |uses| :: r[i] == Pop(uses[|uses| - 1 - i])
  {
    seq(|uses|, i requires 0 <= i < |uses| => Pop(uses[|uses| - 1 - i]))
  }

  function Converted(operand: Operand, count: int): string {
    match operand
    case Back => AnonName(count)
    case Forward => AnonName(count + 1)
    case Word(text) => text
  }

  function ConvertedAll(operands: seq<Operand>, count: int): (r: seq<string>)
    ensures |r| == |operands| && forall i | 0 <= i < |r| :: r[i] == Converted(operands[i], count)
  {
    seq(|operands|, i requires 0 <= i < |operands| => Converted(operands[i], count))
  }

  /** How a symbol that is not private is named in the output. */
  function AsmPfx(name: string): string {
    "ASM_PFX(" + name + ")"
  }

  /** The head of a procedure. */
  function ProcHead(name: string, isPrivate: bool): seq<Output> {
    if isPrivate then [ProcLabel(name)] else [Global(AsmPfx(name)), ProcLabel(AsmPfx(name))]
  }

  /** The lines written for line i; None if the converter stops with an error. */
  function Emitted(lines: seq<Line>, i: nat): Option<seq<Output>>
    requires i < |lines|
  {
    var count := Anons(lines[..i]) - 1;
    match lines[i]
    case AnonLabel => Some([Label(AnonName(count + 1))])
    case Proc(name, isPrivate, uses) => Some(ProcHead(name, isPrivate) + Pushes(uses))
    case Ret => if Uses(lines[..i]) == None then None else Some(Pops(Uses(lines[..i]).value) + [Return])
    case Code(operands) => Some([Asm(ConvertedAll(operands, count))])
    case Other(text) => Some([Text(text)])
  }

  function EmittedAll(lines: seq<Line>, n: nat): Option<seq<Output>>
    requires n <= |lines|
  {
    if n == 0 then Some([])
    else
      var before := EmittedAll(lines, n - 1);
      if before == None || Emitted(lines, n - 1) == None then None
      else Some(before.value + Emitted(lines, n - 1).value)
  }

  class Converter {
    var anonLabelCount: int
    var uses: Option<seq<string>>
    var output: seq<Output>

    constructor ()
      ensures anonLabelCount == -1 && uses == None && output == []
    {
      anonLabelCount, uses, output := -1, None, [];
    }

    method Emit(o: Output)
      modifies `output
      ensures output == old(output) + [o]
    {
      output := output + [o];
    }

    method ConvertAnonymousLabels(operands: seq<Operand>) returns (r: seq<string>)
      ensures r == ConvertedAll(operands, anonLabelCount)
    {
      r := [];
      for i := 0 to |operands|
        invariant r == ConvertedAll(operands[..i], anonLabelCount)
      {
        var word := match operands[i]
          case Back => AnonName(anonLabelCount)
          case Forward => AnonName(anonLabelCount + 1)
          case Word(text) => text;
        r := r + [word];
      }
      assert operands[..|operands|] == operands;
    }

    /** The case `ret`: an attribute error if no PROC has been seen. */
    method TranslateRet() returns (ok: bool)
      modifies `uses, `output
      ensures ok == (old(uses) != None)
      ensures ok ==> uses == Some([]) && output == old(output) + (Pops(old(uses).value) + [Return])
      ensures !ok ==> uses == None
    {
      if uses == None { return false; }
      var registers := uses.value;
      var i := |registers|;
      while i > 0
        invariant 0 <= i <= |registers| && uses == old(uses)
        invariant output == old(output) + Pops(registers)[..|registers| - i]
      {
        i := i - 1;
        Emit(Pop(registers[i]));
        assert Pops(registers)[..|registers| - i] == Pops(registers)[..|registers| - i - 1] + [Pop(registers[i])];
      }
      assert Pops(registers)[..|registers|] == Pops(registers);
      Emit(Return);
      uses := Some([]);
      ok := true;
    }

    /** The case PROC. */
    method TranslateProc(name: string, isPrivate: bool, registers: seq<string>)
      modifies `uses, `output
      ensures uses == Some(registers)
      ensures output == old(output) + (ProcHead(name, isPrivate) + Pushes(registers))
    {
      var proc := name;
      if !isPrivate {
        proc := "ASM_PFX(" + proc + ")";
        Emit(Global(proc));
      }
      Emit(ProcLabel(proc));
      ghost var head := output;
      assert head == old(output) + ProcHead(name, isPrivate);
      uses := Some(registers);
      for i := 0 to |registers|
        invariant uses == Some(registers) && output == head + Pushes(registers)[..i]
      {
        Emit(Push(registers[i]));
        assert Pushes(registers)[..i + 1] == Pushes(registers)[..i] + [Push(registers[i])];
      }
      assert Pushes(registers)[..|registers|] == Pushes(registers);
    }

    method TranslateAsm(line: Line, ghost lines: seq<Line>, ghost i: nat) returns (ok: bool)
      requires i < |lines| && lines[i] == line
      requires anonLabelCount == Anons(lines[..i]) - 1 && uses == Uses(lines[..i])
      modifies this
      ensures ok == Emitted(lines, i).Some?
      ensures ok ==> anonLabelCount == Anons(lines[..i + 1]) - 1 && uses == Uses(lines[..i + 1])
      ensures ok ==> output == old(output) + Emitted(lines, i).value
    {
      assert lines[..i + 1][..i] == lines[..i];
      ok := true;
      match line
      case AnonLabel =>
        anonLabelCount := anonLabelCount + 1;
        Emit(Label(AnonName(anonLabelCount)));
      case Ret => ok := TranslateRet();
      case Proc(name, isPrivate, registers) => TranslateProc(name, isPrivate, registers);
      case Code(operands) =>
        var words := ConvertAnonymousLabels(operands);
        Emit(Asm(words));
      case Other(text) => Emit(Text(text));
    }

    method Convert(lines: seq<Line>) returns (ok: bool)
      requires anonLabelCount == -1 && uses == None && output == []
      modifies this
      ensures ok == EmittedAll(lines, |lines|).Some?
      ensures ok ==> output == EmittedAll(lines, |lines|).value
    {
      for i := 0 to |lines|
        invariant anonLabelCount == Anons(lines[..i]) - 1 && uses == Uses(lines[..i])
        invariant EmittedAll(lines, i) == Some(output)
      {
        var done := TranslateAsm(lines[i], lines, i);
        if !done {
          StaysFailed(lines, i + 1, |lines|);
          return false;
        }
      }
      ok := true;
    }
  }

  lemma {:induction false} StaysFailed(lines: seq<Line>, i: nat, n: nat)
    requires i <= n <= |lines| && EmittedAll(lines, i) == None
    ensures EmittedAll(lines, n) == None
  {
    if i < n { StaysFailed(lines, i, n - 1); }
  }

  lemma {:induction false} UsesSetExactly(lines: seq<Line>, n: nat)
    requires n <= |lines|
    ensures Uses(lines[..n]) == None <==> forall k | 0 <= k < n :: !lines[k].Proc?
  {
    if n > 0 {
      UsesSetExactly(lines, n - 1);
      assert lines[..n][..n - 1] == lines[..n - 1];
    }
  }

  /** A `ret` with no PROC above it. */
  predicate Orphan(lines: seq<Line>, i: nat) {
    i < |lines| && lines[i].Ret? && forall k | 0 <= k < i :: !lines[k].Proc?
  }

  /** The converter stops with an error exactly when there is such a `ret`. */
  lemma {:induction false} StopsExactly(lines: seq<Line>, n: nat)
    requires n <= |lines|
    ensures EmittedAll(lines, n) == None <==> exists i | 0 <= i < n :: Orphan(lines, i)
  {
    if n > 0 {
      StopsExactly(lines, n - 1);
      UsesSetExactly(lines, n - 1);
      assert Emitted(lines, n - 1) == None <==> Orphan(lines, n - 1);
    }
  }

  // ------------------------------------------------------------ jump targets

  lemma {:induction false} AnonsBetween(lines: seq<Line>, j: nat, i: nat)
    requires j <= i <= |lines| && forall k | j <= k < i :: !lines[k].AnonLabel?
    ensures Anons(lines[..i]) == Anons(lines[..j])
  {
    if j < i {
      AnonsBetween(lines, j, i - 1);
      assert lines[..i][..i - 1] == lines[..i - 1];
    }
  }

  lemma AnonsPast(lines: seq<Line>, j: nat)
    requires j < |lines| && lines[j].AnonLabel?
    ensures Anons(lines[..j + 1]) == Anons(lines[..j]) + 1
  {
    assert lines[..j + 1][..j] == lines[..j];
  }

  /** `@b` becomes the label written for the nearest '@@:' above it. */
  lemma BackIsNearestAbove(lines: seq<Line>, i: nat, k: nat, j: nat)
    requires i < |lines| && lines[i].Code? && k < |lines[i].operands| && lines[i].operands[k] == Back
    requires j < i && lines[j].AnonLabel? && forall m | j < m < i :: !lines[m].AnonLabel?
    ensures Emitted(lines, j) == Some([Label(Emitted(lines, i).value[0].operands[k])])
  {
    AnonsPast(lines, j);
    AnonsBetween(lines, j + 1, i);
  }

  /** `@f` becomes the label written for the nearest '@@:' below it. */
  lemma ForwardIsNearestBelow(lines: seq<Line>, i: nat, k: nat, j: nat)
    requires i < |lines| && lines[i].Code? && k < |lines[i].operands| && lines[i].operands[k] == Forward
    requires i < j < |lines| && lines[j].AnonLabel? && forall m | i < m < j :: !lines[m].AnonLabel?
    ensures Emitted(lines, j) == Some([Label(Emitted(lines, i).value[0].operands[k])])
  {
    AnonsBetween(lines, i, j);
  }

  lemma {:induction false} AnonsGrow(lines: seq<Line>, i: nat, j: nat)
    requires i <= j <= |lines|
    ensures Anons(lines[..i]) <= Anons(lines[..j])
    ensures (exists k | i <= k < j :: lines[k].AnonLabel?) ==> Anons(lines[..i]) < Anons(lines[..j])
  {
    if i < j {
      AnonsGrow(lines, i, j - 1);
      assert lines[..j][..j - 1] == lines[..j - 1];
    }
  }

  /** The anonymous labels written are all different. */
  lemma LabelsDistinct(lines: seq<Line>, i: nat, j: nat)
    requires i < j < |lines| && lines[i].AnonLabel? && lines[j].AnonLabel?
    ensures Emitted(lines, i) != Emitted(lines, j)
  {
    AnonsGrow(lines, i, j);
    NamesDiffer(Anons(lines[..i]), Anons(lines[..j]));
    assert [Label(AnonName(Anons(lines[..i])))][0] != [Label(AnonName(Anons(lines[..j])))][0];
  }

  /** The '@@:' lines above line j. */
  function Above(lines: seq<Line>, j: nat): set<nat>
    requires j <= |lines|
  {
    set k: nat | k < j && lines[k].AnonLabel?
  }

  lemma {:induction false} AnonsCount(lines: seq<Line>, j: nat)
    requires j <= |lines|
    ensures Anons(lines[..j]) == |Above(lines, j)|
  {
    if j > 0 {
      AnonsCount(lines, j - 1);
      assert lines[..j][..j - 1] == lines[..j - 1];
      assert Above(lines, j) == Above(lines, j - 1) + if lines[j - 1].AnonLabel? then {j - 1} else {};
    }
  }

  /** The label of a '@@:' line is '.' and the number of those above it. */
  lemma LabelNumber(lines: seq<Line>, j: nat)
    requires j < |lines| && lines[j].AnonLabel?
    ensures Emitted(lines, j).Some? && |Emitted(lines, j).value| == 1 && Emitted(lines, j).value[0].Label?
    ensures var name := Emitted(lines, j).value[0].name;
      && |name| > 1 && name[0] == '.' && Value(name[1..]) == |Above(lines, j)| && '-' !in name
      && (Above(lines, j) == {} ==> name == ".0")
  {
    AnonsCount(lines, j);
    DigitsValue(Anons(lines[..j]));
    FirstNames();
  }

  lemma LabelIs(lines: seq<Line>, j: nat, count: int)
    requires j < |lines| && lines[j].AnonLabel?
    ensures Emitted(lines, j) == Some([Label(AnonName(count))]) <==> count == Anons(lines[..j])
  {
    NamesDiffer(Anons(lines[..j]), count);
    assert [Label(AnonName(Anons(lines[..j])))][0].name == AnonName(Anons(lines[..j]));
    assert [Label(AnonName(count))][0].name == AnonName(count);
  }

  /** Some '@@:' line is written with this label. */
  ghost predicate Written(lines: seq<Line>, name: string) {
    exists j | 0 <= j < |lines| :: lines[j].AnonLabel? && Emitted(lines, j) == Some([Label(name)])
  }

  predicate Numbered(lines: seq<Line>, j: nat, count: int) {
    j < |lines| && lines[j].AnonLabel? && Anons(lines[..j]) == count
  }

  lemma WrittenExactly(lines: seq<Line>, count: int)
    ensures Written(lines, AnonName(count)) <==> exists j: nat :: Numbered(lines, j, count)
  {
    forall j | 0 <= j < |lines| && lines[j].AnonLabel?
      ensures Emitted(lines, j) == Some([Label(AnonName(count))]) <==> Numbered(lines, j, count)
    {
      LabelIs(lines, j, count);
    }
  }

  /** `@b` has a target at all exactly when there is a '@@:' above it. */
  lemma BackDanglesExactly(lines: seq<Line>, i: nat)
    requires i < |lines| && lines[i].Code?
    ensures Written(lines, Converted(Back, Anons(lines[..i]) - 1)) <==> exists j | 0 <= j < i :: lines[j].AnonLabel?
  {
    WrittenExactly(lines, Anons(lines[..i]) - 1);
    if exists j | 0 <= j < i :: lines[j].AnonLabel? {
      var j := LastAbove(lines, i);
      AnonsPast(lines, j);
      AnonsBetween(lines, j + 1, i);
      assert Numbered(lines, j, Anons(lines[..i]) - 1);
    } else {
      AnonsBetween(lines, 0, i);
    }
  }

  /** `@f` has a target exactly when there is a '@@:' below it. */
  lemma ForwardDanglesExactly(lines: seq<Line>, i: nat)
    requires i < |lines| && lines[i].Code?
    ensures Written(lines, Converted(Forward, Anons(lines[..i]) - 1))
       <==> exists j | i < j < |lines| :: lines[j].AnonLabel?
  {
    WrittenExactly(lines, Anons(lines[..i]));
    if exists j | i < j < |lines| :: lines[j].AnonLabel? {
      var j := FirstBelow(lines, i);
      AnonsBetween(lines, i, j);
      assert Numbered(lines, j, Anons(lines[..i]));
    } else {
      NoneNumbered(lines, i);
    }
  }

  lemma NoneNumbered(lines: seq<Line>, i: nat)
    requires i < |lines| && lines[i].Code? && forall j | i < j < |lines| :: !lines[j].AnonLabel?
    ensures forall j: nat :: !Numbered(lines, j, Anons(lines[..i]))
  {
    forall j: nat ensures !Numbered(lines, j, Anons(lines[..i])) {
      if j < i && lines[j].AnonLabel? { EarlierNumber(lines, j, i); }
    }
  }

  /** A '@@:' above a line has a smaller number than its `@f`. */
  lemma EarlierNumber(lines: seq<Line>, j: nat, i: nat)
    requires j < i <= |lines| && lines[j].AnonLabel?
    ensures Anons(lines[..j]) < Anons(lines[..i])
  {
    AnonsGrow(lines, j, i);
  }

  lemma FirstBelow(lines: seq<Line>, i: nat) returns (j: nat)
    requires i < |lines| && lines[i].Code? && exists j | i < j < |lines| :: lines[j].AnonLabel?
    ensures i < j < |lines| && lines[j].AnonLabel? && forall m | i <= m < j :: !lines[m].AnonLabel?
  {
    j := i + 1;
    while !lines[j].AnonLabel?
      invariant i < j < |lines| && forall m | i <= m < j :: !lines[m].AnonLabel?
      invariant exists k | j <= k < |lines| :: lines[k].AnonLabel?
      decreases |lines| - j
    {
      j := j + 1;
    }
  }

  lemma LastAbove(lines: seq<Line>, i: nat) returns (j: nat)
    requires i <= |lines| && exists j | 0 <= j < i :: lines[j].AnonLabel?
    ensures j < i && lines[j].AnonLabel? && forall m | j < m < i :: !lines[m].AnonLabel?
  {
    j := i - 1;
    while !lines[j].AnonLabel?
      invariant j < i && forall m | j < m < i :: !lines[m].AnonLabel?
      decreases j
    {
      j := j - 1;
    }
  }

  // --------------------------------------------------------- saved registers

  datatype Machine = Machine(registers: map<string, int>, stack: seq<int>)

  function Get(m: Machine, r: string): int {
    if r in m.registers then m.registers[r] else 0
  }

  /** Pushes and pops on a stack machine; a pop of the empty stack does nothing. */
  function Execute(code: seq<Output>, m: Machine): Machine {
    if code == [] then m
    else
      var n := Execute(code[..|code| - 1], m);
      match code[|code| - 1]
      case Push(r) => n.(stack := n.stack + [Get(n, r)])
      case Pop(r) =>
        if n.stack == [] then n
        else Machine(n.registers[r := n.stack[|n.stack| - 1]], n.stack[..|n.stack| - 1])
      case _ => n
  }

  function Saved(uses: seq<string>, m: Machine): seq<int> {
    seq(|uses|, i requires 0 <= i < |uses| => Get(m, uses[i]))
  }

  lemma {:induction false} PushesSave(uses: seq<string>, m: Machine, n: nat)
    requires n <= |uses|
    ensures Execute(Pushes(uses)[..n], m) == Machine(m.registers, m.stack + Saved(uses, m)[..n])
  {
    if n > 0 {
      PushesSave(uses, m, n - 1);
      assert Pushes(uses)[..n][..n - 1] == Pushes(uses)[..n - 1];
      assert Saved(uses, m)[..n] == Saved(uses, m)[..n - 1] + [Get(m, uses[n - 1])];
    } else {
      assert m.stack + Saved(uses, m)[..0] == m.stack;
    }
  }

  lemma PopOne(code: seq<Output>, r: string, body: Machine, e: Machine, stack: seq<int>, v: int)
    requires e == Execute(code, body) && e.stack == stack + [v]
    ensures Execute(code + [Pop(r)], body) == Machine(e.registers[r := v], stack)
  {
    assert (code + [Pop(r)])[..|code|] == code;
  }

  /** The stack with `k` saved registers still on it. */
  function StackWith(uses: seq<string>, m: Machine, k: nat): seq<int>
    requires k <= |uses|
  {
    m.stack + Saved(uses, m)[..k]
  }

  lemma StackTop(uses: seq<string>, m: Machine, k: nat)
    requires k < |uses|
    ensures StackWith(uses, m, k + 1) == StackWith(uses, m, k) + [Get(m, uses[k])]
  {
    assert Saved(uses, m)[..k + 1] == Saved(uses, m)[..k] + [Get(m, uses[k])];
    Assoc(m.stack, Saved(uses, m)[..k], [Get(m, uses[k])]);
  }

  lemma PopsMore(uses: seq<string>, n: nat)
    requires 0 < n <= |uses|
    ensures Pops(uses)[..n] == Pops(uses)[..n - 1] + [Pop(uses[|uses| - n])]
  {
  }

  /** The registers after `uses[top..]` has been popped. */
  ghost predicate Restored(e: Machine, m: Machine, body: Machine, uses: seq<string>, top: nat) {
    && (forall i | top <= i < |uses| :: Get(e, uses[i]) == Get(m, uses[i]))
    && (forall r | r !in uses :: Get(e, r) == Get(body, r))
  }

  lemma RestoredMore(e: Machine, m: Machine, body: Machine, uses: seq<string>, top: nat, stack: seq<int>)
    requires top < |uses| && Restored(e, m, body, uses, top + 1)
    ensures Restored(Machine(e.registers[uses[top] := Get(m, uses[top])], stack), m, body, uses, top)
  {
  }

  /** After `n` pops the last n registers of the list are back. */
  lemma {:induction false} PopsRestore(uses: seq<string>, m: Machine, body: Machine, n: nat)
    requires n <= |uses| && body.stack == StackWith(uses, m, |uses|)
    ensures var e := Execute(Pops(uses)[..n], body);
      e.stack == StackWith(uses, m, |uses| - n) && Restored(e, m, body, uses, |uses| - n)
  {
    if n > 0 {
      PopsRestore(uses, m, body, n - 1);
      var e := Execute(Pops(uses)[..n - 1], body);
      var top := |uses| - n;
      PopsMore(uses, n);
      StackTop(uses, m, top);
      PopOne(Pops(uses)[..n - 1], uses[top], body, e, StackWith(uses, m, top), Get(m, uses[top]));
      RestoredMore(e, m, body, uses, top, StackWith(uses, m, top));
    }
  }

  lemma {:induction false} UsesAfter(lines: seq<Line>, p: nat, r: nat)
    requires p < r <= |lines| && lines[p].Proc? && forall k | p < k < r :: !lines[k].Proc?
    ensures Uses(lines[..r]) == Some(if exists k | p < k < r :: lines[k].Ret? then [] else lines[p].uses)
  {
    assert lines[..r][..r - 1] == lines[..r - 1];
    if p < r - 1 {
      UsesAfter(lines, p, r - 1);
    }
  }

  lemma {:induction false} ExecuteAppend(a: seq<Output>, b: seq<Output>, m: Machine)
    ensures Execute(a + b, m) == Execute(b, Execute(a, m))
  {
    if b == [] {
      assert a + b == a;
    } else {
      var k := |b| - 1;
      ExecuteAppend(a, b[..k], m);
      assert (a + b)[..|a + b| - 1] == a + b[..k];
    }
  }

  lemma HeadIdle(name: string, isPrivate: bool, m: Machine)
    ensures Execute(ProcHead(name, isPrivate), m) == m
  {
    var head := ProcHead(name, isPrivate);
    assert Execute(head[..1], m) == Execute(head[..1][..0], m) == m;
    if !isPrivate { assert head[..2] == head && head[..2][..1] == head[..1]; }
  }

  /** What a PROC line writes, run on any machine: the listed registers are saved
      in order, and nothing else happens.  Its label is written once, with the
      prefix unless the procedure is private, and it is global exactly then. */
  lemma ProcExactly(lines: seq<Line>, p: nat, m: Machine)
    requires p < |lines| && lines[p].Proc?
    ensures var name, uses := lines[p].name, lines[p].uses;
      var symbol := if lines[p].isPrivate then name else "ASM_PFX(" + name + ")";
      && Emitted(lines, p).Some?
      && var out := Emitted(lines, p).value;
        && Execute(out, m) == Machine(m.registers, m.stack + Saved(uses, m))
        && (forall o | o in out && o.ProcLabel? :: o.name == symbol) && multiset(out)[ProcLabel(symbol)] == 1
        && (forall o | o in out && o.Global? :: o.name == symbol)
        && multiset(out)[Global(symbol)] == (if lines[p].isPrivate then 0 else 1)
  {
    var head := ProcHead(lines[p].name, lines[p].isPrivate);
    ExecuteAppend(head, Pushes(lines[p].uses), m);
    HeadIdle(lines[p].name, lines[p].isPrivate, m);
    PushesSave(lines[p].uses, m, |lines[p].uses|);
    assert Pushes(lines[p].uses)[..|lines[p].uses|] == Pushes(lines[p].uses);
    assert Saved(lines[p].uses, m)[..|lines[p].uses|] == Saved(lines[p].uses, m);
  }

  /** Popping what was pushed restores the stack and the registers, and popping
      nothing leaves what was pushed. */
  lemma PopsExactly(uses: seq<string>, popped: seq<string>, m: Machine, body: Machine)
    requires (popped == uses || popped == []) && body.stack == m.stack + Saved(uses, m)
    ensures var after := Execute(Pops(popped), body);
      && (after.stack == m.stack <==> popped == uses)
      && (after.stack == m.stack ==> forall i | 0 <= i < |uses| :: Get(after, uses[i]) == Get(m, uses[i]))
  {
    if popped == uses {
      assert Saved(uses, m)[..|uses|] == Saved(uses, m);
      assert Pops(uses)[..|uses|] == Pops(uses);
      PopsRestore(uses, m, body, |uses|);
      assert Saved(uses, m)[..0] == [];
    } else {
      assert Pops([]) == [];
      assert |body.stack| == |m.stack| + |uses|;
    }
  }

  lemma RetIs(lines: seq<Line>, r: nat, uses: seq<string>, body: Machine)
    requires r < |lines| && lines[r].Ret? && Uses(lines[..r]) == Some(uses)
    ensures Emitted(lines, r) == Some(Pops(uses) + [Return])
    ensures Execute(Emitted(lines, r).value, body) == Execute(Pops(uses), body)
  {
    assert (Pops(uses) + [Return])[..|uses|] == Pops(uses);
  }

  /** Enter a procedure through the code written for its PROC line, run a body
      that leaves the stack as it found it, and come to a `ret`.  The code written
      there restores the stack, and with it the listed registers, exactly when
      this is the first `ret` of the procedure or no register is listed; and it
      ends in the only return it holds. */
  lemma RetRestoresExactly(lines: seq<Line>, p: nat, r: nat, m: Machine, body: Machine)
    requires p < r < |lines| && lines[p].Proc? && lines[r].Ret? && forall k | p < k < r :: !lines[k].Proc?
    requires body.stack == Execute(Emitted(lines, p).value, m).stack
    ensures Emitted(lines, r).Some?
    ensures var uses, out := lines[p].uses, Emitted(lines, r).value;
      && out != [] && out[|out| - 1] == Return && Return !in out[..|out| - 1]
      && var after := Execute(out, body);
        && (after.stack == m.stack <==> uses == [] || forall k | p < k < r :: !lines[k].Ret?)
        && (after.stack == m.stack ==> forall i | 0 <= i < |uses| :: Get(after, uses[i]) == Get(m, uses[i]))
  {
    var uses := lines[p].uses;
    ProcExactly(lines, p, m);
    UsesAfter(lines, p, r);
    RetIs(lines, r, Uses(lines[..r]).value, body);
    PopsExactly(uses, Uses(lines[..r]).value, m, body);
  }

  // ------------------------------------------------------- what is left alone

  /** Operands without a label come out as they are, and so do other lines. */
  lemma TextKept(lines: seq<Line>, i: nat)
    requires i < |lines|
    ensures lines[i].Other? ==> Emitted(lines, i) == Some([Text(lines[i].text)])
    ensures lines[i].Code? ==>
      && Emitted(lines, i).Some? && |Emitted(lines, i).value| == 1 && Emitted(lines, i).value[0].Asm?
      && var words, operands := Emitted(lines, i).value[0].operands, lines[i].operands;
        |words| == |operands| && forall k | 0 <= k < |words| && operands[k].Word? :: words[k] == operands[k].text
  {
  }

  /** The output is in the order of the lines: what is written for a line follows
      all that was written before it. */
  lemma {:induction false} OutputInOrder(lines: seq<Line>, i: nat, n: nat)
    requires i < n <= |lines| && EmittedAll(lines, n).Some?
    ensures EmittedAll(lines, i).Some? && Emitted(lines, i).Some?
    ensures EmittedAll(lines, i).value + Emitted(lines, i).value <= EmittedAll(lines, n).value
  {
    if i < n - 1 { OutputInOrder(lines, i, n - 1); }
  }
}
