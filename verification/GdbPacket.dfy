/** GDB remote serial packets: what the receiver does with any byte stream, and
    a grammar of streams that says the same without reading it step by step. */
module GdbPacket {
  import opened Common

  const DOLLAR: Byte := 0x24
  const HASH: Byte := 0x23
  const ACK: Byte := 0x2B
  const NAK: Byte := 0x2D
  const MAX_UINTN: nat := 0xFFFF_FFFF_FFFF_FFFF

  // ------------------------------------------------------------- hex digits

  function HexCharToInt(c: Byte): (v: int)
    ensures -1 <= v <= 15
  {
    if 0x41 <= c <= 0x46 then c - 0x41 + 10
    else if 0x61 <= c <= 0x66 then c - 0x61 + 10
    else if 0x30 <= c <= 0x39 then c - 0x30
    else -1
  }

  function UpperHex(v: nat): Byte
    requires v < 16
  {
    if v < 10 then 0x30 + v else 0x41 + v - 10
  }

  function SkipBlanks(s: seq<Byte>): seq<Byte> {
    if s != [] && (s[0] == 0x20 || s[0] == 0x09) then SkipBlanks(s[1..]) else s
  }

  function SkipZeros(s: seq<Byte>): seq<Byte> {
    if s != [] && s[0] == 0x30 then SkipZeros(s[1..]) else s
  }

  /** Accumulates hex digits up to the first other character, saturating. */
  function Digits(s: seq<Byte>, acc: nat): nat {
    if s == [] || HexCharToInt(s[0]) < 0 then acc
    else if acc > (MAX_UINTN - HexCharToInt(s[0])) / 16 then MAX_UINTN
    else Digits(s[1..], 16 * acc + HexCharToInt(s[0]))
  }

  /** AsciiStrHexToUintn: blanks, zeros, an `x` if a zero stands before it, then
      hex digits.  A NUL is no hex digit, so it ends the number. */
  function HexToUintn(s: seq<Byte>): nat {
    var a := SkipBlanks(s);
    var b := SkipZeros(a);
    if b != [] && (b[0] == 0x58 || b[0] == 0x78) then
      if |b| < |a| then Digits(b[1..], 0) else 0
    else Digits(b, 0)
  }

  const UPPER_DIGITS := "0123456789ABCDEF"
  const LOWER_DIGITS := "0123456789abcdef"

  /** The digits are those of hexadecimal, in either case, and no others. */
  lemma HexCharExactly(c: Byte, v: nat)
    requires v < 16
    ensures UpperHex(v) as char == UPPER_DIGITS[v]
    ensures HexCharToInt(c) == v <==> c as char == UPPER_DIGITS[v] || c as char == LOWER_DIGITS[v]
  {
  }

  lemma DigitStep(c: Byte, rest: seq<Byte>, acc: nat)
    requires HexCharToInt(c) >= 0 && 16 * acc + HexCharToInt(c) <= MAX_UINTN
    ensures Digits([c] + rest, acc) == Digits(rest, 16 * acc + HexCharToInt(c))
  {
    assert ([c] + rest)[1..] == rest;
  }

  /** A number in hexadecimal. */
  function HexText(n: nat): (text: seq<Byte>)
    ensures text != []
  {
    (if n < 16 then [] else HexText(n / 16)) + [UpperHex(n % 16)]
  }

  lemma UpperHexDecodes(v: nat)
    requires v < 16
    ensures HexCharToInt(UpperHex(v)) == v && (UpperHex(v) == 0x30 <==> v == 0) && UpperHex(v) < 0x58
  {
  }

  lemma LastDigit(d: nat, rest: seq<Byte>, acc: nat)
    requires d < 16 && acc <= MAX_UINTN
    ensures Digits([UpperHex(d)] + rest, acc)
         == if 16 * acc + d <= MAX_UINTN then Digits(rest, 16 * acc + d) else MAX_UINTN
  {
    UpperHexDecodes(d);
    if 16 * acc + d <= MAX_UINTN { DigitStep(UpperHex(d), rest, acc); }
  }

  lemma {:induction false} DigitsOfText(n: nat, rest: seq<Byte>)
    ensures Digits(HexText(n) + rest, 0) == if n <= MAX_UINTN then Digits(rest, n) else MAX_UINTN
    decreases n
  {
    var d := [UpperHex(n % 16)];
    if n < 16 {
      assert HexText(n) + rest == d + rest;
      LastDigit(n, rest, 0);
    } else {
      DigitsOfText(n / 16, d + rest);
      Assoc(HexText(n / 16), d, rest);
      if n / 16 <= MAX_UINTN { LastDigit(n % 16, rest, n / 16); }
    }
  }

  lemma {:induction false} FirstDigit(n: nat)
    ensures HexText(n)[0] < 0x58 && HexText(n)[0] != 0x20 && HexText(n)[0] != 0x09
    ensures HexText(n)[0] == 0x30 <==> n == 0
    decreases n
  {
    UpperHexDecodes(n % 16);
    if n >= 16 { FirstDigit(n / 16); }
  }

  lemma {:induction false} BlanksSkipped(blanks: seq<Byte>, s: seq<Byte>)
    requires forall i | 0 <= i < |blanks| :: blanks[i] == 0x20 || blanks[i] == 0x09
    ensures SkipBlanks(blanks + s) == SkipBlanks(s)
  {
    if blanks == [] {
      assert blanks + s == s;
    } else {
      assert (blanks + s)[1..] == blanks[1..] + s;
      BlanksSkipped(blanks[1..], s);
    }
  }

  lemma {:induction false} ZerosSkipped(zeros: seq<Byte>, s: seq<Byte>)
    requires forall i | 0 <= i < |zeros| :: zeros[i] == 0x30
    ensures SkipZeros(zeros + s) == SkipZeros(s)
  {
    if zeros == [] {
      assert zeros + s == s;
    } else {
      assert (zeros + s)[1..] == zeros[1..] + s;
      ZerosSkipped(zeros[1..], s);
    }
  }

  /** A text that no longer belongs to the number. */
  predicate NumberEnds(tail: seq<Byte>) {
    tail != [] ==> HexCharToInt(tail[0]) < 0
  }

  /** What is read is the number that was written, with or without blanks, zeros
      and an `x` before it, whatever follows it; the largest UINTN stands for all
      numbers above it.  An `x` without a zero before it makes the value zero. */
  lemma HexNumberReads(blanks: seq<Byte>, zeros: seq<Byte>, x: bool, n: nat, tail: seq<Byte>)
    requires forall i | 0 <= i < |blanks| :: blanks[i] == 0x20 || blanks[i] == 0x09
    requires forall i | 0 <= i < |zeros| :: zeros[i] == 0x30
    requires NumberEnds(tail) && (!x && tail != [] ==> tail[0] != 0x58 && tail[0] != 0x78)
    ensures HexToUintn(blanks + (zeros + ((if x then [0x78] else []) + (HexText(n) + tail))))
         == if x && zeros == [] then 0 else if n <= MAX_UINTN then n else MAX_UINTN
  {
    var text := HexText(n) + tail;
    var number := (if x then [0x78] else []) + text;
    FirstDigit(n);
    assert text[0] == HexText(n)[0];
    BlanksSkipped(blanks, zeros + number);
    assert number[0] == if x then 0x78 else text[0];
    assert (zeros + number)[0] == if zeros != [] then zeros[0] else number[0];
    assert SkipBlanks(zeros + number) == zeros + number;
    ZerosSkipped(zeros, number);
    DigitsOfText(n, tail);
    assert n <= MAX_UINTN ==> Digits(tail, n) == n;
    if x {
      assert SkipZeros(number) == number && number[1..] == text;
    } else {
      assert number == text;
      NoPrefix(n, tail);
    }
  }

  lemma NoPrefix(n: nat, tail: seq<Byte>)
    requires NumberEnds(tail) && (tail != [] ==> tail[0] != 0x58 && tail[0] != 0x78)
    ensures var b := SkipZeros(HexText(n) + tail);
      && (b != [] ==> b[0] != 0x58 && b[0] != 0x78)
      && Digits(b, 0) == Digits(HexText(n) + tail, 0)
  {
    FirstDigit(n);
    var text := HexText(n) + tail;
    if n == 0 {
      assert text[1..] == tail;
      DigitsOfText(0, tail);
      assert SkipZeros(text) == SkipZeros(tail) == tail;
    } else {
      assert text[0] == HexText(n)[0];
      assert SkipZeros(text) == text;
    }
  }

  function Hex2(v: nat): seq<Byte>
    requires v < 256
  {
    [UpperHex(v / 16), UpperHex(v % 16)]
  }

  lemma Hex2Decodes(v: nat)
    requires v < 256
    ensures HexToUintn(Hex2(v)) == v
  {
    var h, l := UpperHex(v / 16), UpperHex(v % 16);
    assert HexCharToInt(h) == v / 16 && HexCharToInt(l) == v % 16;
    assert [h, l][1..] == [l] && [l][1..] == [];
    assert Digits([l], v / 16) == Digits([], 16 * (v / 16) + v % 16);
    assert SkipBlanks([h, l]) == [h, l];
    if v / 16 != 0 {
      assert Digits([h, l], 0) == Digits([l], v / 16);
    } else {
      assert SkipZeros([h, l]) == SkipZeros([l]);
    }
  }

  // --------------------------------------------------------------- checksum

  function CheckSum(data: seq<Byte>): (c: nat)
    ensures c < 256
  {
    if data == [] then 0 else (CheckSum(data[..|data| - 1]) + data[|data| - 1]) % 256
  }

  /** The sum of the bytes, from the front. */
  function ByteSum(data: seq<Byte>): nat {
    if data == [] then 0 else data[0] + ByteSum(data[1..])
  }

  lemma {:induction false} SumsAppend(a: seq<Byte>, b: seq<Byte>)
    ensures ByteSum(a + b) == ByteSum(a) + ByteSum(b)
  {
    if a == [] {
      assert a + b == b;
    } else {
      assert (a + b)[1..] == a[1..] + b;
      SumsAppend(a[1..], b);
    }
  }

  lemma {:induction false} ModuloShift(x: nat, q: nat)
    ensures (256 * q + x) % 256 == x % 256
  {
    if q > 0 {
      ModuloShift(x, q - 1);
      assert 256 * q + x == 256 * (q - 1) + x + 256;
    }
  }

  lemma ModuloLeft(a: nat, b: nat)
    ensures (a % 256 + b) % 256 == (a + b) % 256
  {
    ModuloShift(a % 256 + b, a / 256);
    assert 256 * (a / 256) + a % 256 == a;
  }

  lemma SumSnoc(data: seq<Byte>, c: Byte)
    ensures ByteSum(data + [c]) == ByteSum(data) + c
  {
    SumsAppend(data, [c]);
    assert [c][1..] == [];
  }

  /** The checksum is the sum of the bytes modulo 256. */
  lemma {:induction false} CheckSumIsSum(data: seq<Byte>)
    ensures CheckSum(data) == ByteSum(data) % 256
  {
    if data != [] {
      var m := |data| - 1;
      CheckSumIsSum(data[..m]);
      assert data[..m] + [data[m]] == data;
      SumSnoc(data[..m], data[m]);
      ModuloLeft(ByteSum(data[..m]), data[m]);
    }
  }

  /** So it adds up over parts, and that of one byte is the byte. */
  lemma CheckSumsAdd(a: seq<Byte>, b: seq<Byte>)
    ensures CheckSum(a + b) == (CheckSum(a) + CheckSum(b)) % 256
  {
    CheckSumIsSum(a);
    CheckSumIsSum(b);
    CheckSumIsSum(a + b);
    SumsAppend(a, b);
    ModuloLeft(ByteSum(a), ByteSum(b));
    ModuloLeft(ByteSum(b), ByteSum(a) % 256);
  }

  lemma CheckSumOne(c: Byte)
    ensures CheckSum([c]) == c
  {
    assert [c][..0] == [];
  }

  function Frame(data: seq<Byte>): seq<Byte> {
    [DOLLAR] + data + [HASH] + Hex2(CheckSum(data))
  }

  /** A frame: '$', the data, '#', and the byte sum modulo 256 in two capital
      hexadecimal digits. */
  lemma FrameExactly(data: seq<Byte>)
    ensures var f, n, sum := Frame(data), |data|, ByteSum(data) % 256;
      && |f| == n + 4 && f[0] as char == '$' && f[1..n + 1] == data && f[n + 1] as char == '#'
      && f[n + 2] as char == UPPER_DIGITS[sum / 16] && f[n + 3] as char == UPPER_DIGITS[sum % 16]
      && HexToUintn(f[n + 2..]) == sum
  {
    CheckSumIsSum(data);
    FrameLayout(data, CheckSum(data));
    Hex2Decodes(CheckSum(data));
  }

  lemma FrameLayout(data: seq<Byte>, sum: nat)
    requires sum < 256
    ensures var f, n := [DOLLAR] + data + [HASH] + Hex2(sum), |data|;
      && |f| == n + 4 && f[0] as char == '$' && f[1..n + 1] == data && f[n + 1] as char == '#'
      && f[n + 2] as char == UPPER_DIGITS[sum / 16] && f[n + 3] as char == UPPER_DIGITS[sum % 16]
      && f[n + 2..] == Hex2(sum)
  {
    HexCharExactly(0, sum / 16);
    HexCharExactly(0, sum % 16);
  }

  /** The answer "OK" goes out as "$OK#9A". */
  lemma FrameOfOk()
    ensures Frame([0x4F, 0x4B]) == [0x24, 0x4F, 0x4B, 0x23, 0x39, 0x41]
  {
    assert [0x4F] + [0x4B] == [0x4F, 0x4B];
    CheckSumsAdd([0x4F], [0x4B]);
    CheckSumOne(0x4F);
    CheckSumOne(0x4B);
  }

  // --------------------------------------------------------------- receiver

  datatype Body = Starved | Restart(rest: seq<Byte>) | Ended(data: seq<Byte>, rest: seq<Byte>)

  /** The character loop with `room` places left in the buffer. */
  function ReadBody(input: seq<Byte>, room: nat): Body {
    if room == 0 then Ended([], input)
    else if input == [] then Starved
    else if input[0] == DOLLAR then Restart(input[1..])
    else if input[0] == HASH then Ended([], input[1..])
    else
      match ReadBody(input[1..], room - 1)
      case Starved => Starved
      case Restart(rest) => Restart(rest)
      case Ended(data, rest) => Ended([input[0]] + data, rest)
  }

  lemma ReadBodyShrinks(input: seq<Byte>, room: nat)
    ensures ReadBody(input, room).Restart? ==> |ReadBody(input, room).rest| < |input|
    ensures ReadBody(input, room).Ended? ==> |ReadBody(input, room).rest| <= |input|
  {
  }

  /** What becomes of a stream: the receiver is still waiting, or returns.
      `naks` counts the '-' sent; a return sends one '+' after them. */
  datatype Reception = Waiting(naks: nat) | Received(data: seq<Byte>, rest: seq<Byte>, naks: nat)

  function Later(r: Reception): Reception {
    r.(naks := r.naks + 1)
  }

  /** Waiting for a '$'. */
  function Receive(input: seq<Byte>, size: nat): Reception
    requires size > 0
    decreases |input|, 1
  {
    if input == [] then Waiting(0)
    else if input[0] == DOLLAR then Packet(input[1..], size)
    else Receive(input[1..], size)
  }

  /** After a '$'. */
  function Packet(input: seq<Byte>, size: nat): Reception
    requires size > 0
    decreases |input|, 0
  {
    ReadBodyShrinks(input, size - 1);
    match ReadBody(input, size - 1)
    case Starved => Waiting(0)
    case Restart(rest) => Packet(rest, size)
    case Ended(data, rest) =>
      if |rest| < 2 then Waiting(0)
      else if HexToUintn(rest[..2]) == CheckSum(data) then Received(data, rest[2..], 0)
      else Later(Receive(rest[2..], size))
  }

  // ---------------------------------------------------------------- grammar

  /** One attempt at a packet: noise without '$', fragments cut off by another
      '$', the data, and two check characters. */
  datatype Attempt = Attempt(noise: seq<Byte>, fragments: seq<seq<Byte>>, data: seq<Byte>, check: seq<Byte>)

  predicate Plain(s: seq<Byte>) {
    DOLLAR !in s && HASH !in s
  }

  /** The shape the receiver accepts with a buffer of `size` bytes. */
  predicate Shaped(a: Attempt, size: nat) {
    && DOLLAR !in a.noise
    && (forall i | 0 <= i < |a.fragments| :: Plain(a.fragments[i]) && |a.fragments[i]| < size - 1)
    && Plain(a.data) && |a.data| < size && |a.check| == 2
  }

  predicate Good(a: Attempt) {
    HexToUintn(a.check) == CheckSum(a.data)
  }

  function Cuts(fragments: seq<seq<Byte>>): seq<Byte> {
    if fragments == [] then [] else fragments[0] + [DOLLAR] + Cuts(fragments[1..])
  }

  /** The '#' is read only while there is room in the buffer. */
  function Closing(data: seq<Byte>, size: nat): seq<Byte> {
    if |data| + 1 < size then [HASH] else []
  }

  function Render(a: Attempt, size: nat): seq<Byte> {
    a.noise + [DOLLAR] + Cuts(a.fragments) + a.data + Closing(a.data, size) + a.check
  }

  function RenderAll(attempts: seq<Attempt>, size: nat): seq<Byte> {
    if attempts == [] then [] else Render(attempts[0], size) + RenderAll(attempts[1..], size)
  }

  /** Shaped attempts that fail, `n` of them. */
  predicate Failures(attempts: seq<Attempt>, size: nat) {
    forall i | 0 <= i < |attempts| :: Shaped(attempts[i], size) && !Good(attempts[i])
  }

  // ----------------------------------------------------- grammar => receiver

  lemma {:induction false} BodyCut(fragment: seq<Byte>, rest: seq<Byte>, room: nat)
    requires Plain(fragment) && |fragment| < room
    ensures ReadBody(fragment + [DOLLAR] + rest, room) == Restart(rest)
  {
    var input := fragment + [DOLLAR] + rest;
    if fragment == [] {
      assert input[1..] == rest;
    } else {
      BodyCut(fragment[1..], rest, room - 1);
      assert input[1..] == fragment[1..] + [DOLLAR] + rest;
    }
  }

  lemma {:induction false} BodyEnds(data: seq<Byte>, rest: seq<Byte>, size: nat)
    requires Plain(data) && |data| < size
    ensures ReadBody(data + Closing(data, size) + rest, size - 1) == Ended(data, rest)
  {
    var input := data + Closing(data, size) + rest;
    if data == [] {
      if size > 1 { assert input[1..] == rest; } else { assert input == rest; }
    } else {
      BodyEnds(data[1..], rest, size - 1);
      assert input[1..] == data[1..] + Closing(data[1..], size - 1) + rest;
      assert [data[0]] + data[1..] == data;
    }
  }

  lemma {:induction false} SkipsNoise(noise: seq<Byte>, rest: seq<Byte>, size: nat)
    requires size > 0 && DOLLAR !in noise
    ensures Receive(noise + [DOLLAR] + rest, size) == Packet(rest, size)
  {
    var input := noise + [DOLLAR] + rest;
    if noise == [] {
      assert input[1..] == rest;
    } else {
      SkipsNoise(noise[1..], rest, size);
      assert input[1..] == noise[1..] + [DOLLAR] + rest;
    }
  }

  lemma {:induction false} SkipsCuts(fragments: seq<seq<Byte>>, rest: seq<Byte>, size: nat)
    requires size > 0
    requires forall i | 0 <= i < |fragments| :: Plain(fragments[i]) && |fragments[i]| < size - 1
    ensures Packet(Cuts(fragments) + rest, size) == Packet(rest, size)
  {
    if fragments == [] {
      assert Cuts(fragments) + rest == rest;
    } else {
      var tail := Cuts(fragments[1..]) + rest;
      BodyCut(fragments[0], tail, size - 1);
      assert Cuts(fragments) + rest == fragments[0] + [DOLLAR] + tail;
      SkipsCuts(fragments[1..], rest, size);
    }
  }

  lemma AttemptOutcome(a: Attempt, rest: seq<Byte>, size: nat)
    requires size > 0 && Shaped(a, size)
    ensures Receive(Render(a, size) + rest, size)
         == if Good(a) then Received(a.data, rest, 0) else Later(Receive(rest, size))
  {
    var body := a.data + Closing(a.data, size) + (a.check + rest);
    assert Render(a, size) + rest == a.noise + [DOLLAR] + (Cuts(a.fragments) + body);
    SkipsNoise(a.noise, Cuts(a.fragments) + body, size);
    SkipsCuts(a.fragments, body, size);
    BodyEnds(a.data, a.check + rest, size);
    assert (a.check + rest)[..2] == a.check;
    assert (a.check + rest)[2..] == rest;
  }

  function More(r: Reception, n: nat): Reception {
    r.(naks := r.naks + n)
  }

  lemma {:induction false} AfterFailures(attempts: seq<Attempt>, rest: seq<Byte>, size: nat)
    requires size > 0 && Failures(attempts, size)
    ensures Receive(RenderAll(attempts, size) + rest, size) == More(Receive(rest, size), |attempts|)
  {
    if attempts == [] {
      assert RenderAll(attempts, size) + rest == rest;
    } else {
      var tail := RenderAll(attempts[1..], size) + rest;
      assert RenderAll(attempts, size) + rest == Render(attempts[0], size) + tail;
      AttemptOutcome(attempts[0], tail, size);
      AfterFailures(attempts[1..], rest, size);
    }
  }

  // ----------------------------------------------------- receiver => grammar

  /** A stream that is some failed attempts, then one that succeeds. */
  ghost predicate Parses(input: seq<Byte>, size: nat, failed: seq<Attempt>, last: Attempt, rest: seq<Byte>) {
    && Failures(failed, size) && Shaped(last, size) && Good(last)
    && input == RenderAll(failed, size) + Render(last, size) + rest
  }

  lemma {:induction false} RestartShape(input: seq<Byte>, room: nat) returns (f: seq<Byte>)
    requires ReadBody(input, room).Restart?
    ensures Plain(f) && |f| < room && input == f + [DOLLAR] + ReadBody(input, room).rest
  {
    if input[0] == DOLLAR {
      f := [];
    } else {
      f := RestartShape(input[1..], room - 1);
      f := [input[0]] + f;
      assert input == [input[0]] + input[1..];
    }
  }

  lemma RegroupBody(c: Byte, d: seq<Byte>, e: seq<Byte>, r: seq<Byte>)
    ensures [c] + (d + e + r) == ([c] + d) + e + r
  {
  }

  lemma {:induction false} EndedShape(input: seq<Byte>, room: nat)
    requires ReadBody(input, room).Ended?
    ensures Plain(ReadBody(input, room).data) && |ReadBody(input, room).data| <= room
    ensures var b := ReadBody(input, room); input == b.data + Closing(b.data, room + 1) + b.rest
  {
    if room > 0 && input[0] != HASH {
      EndedShape(input[1..], room - 1);
      var b := ReadBody(input[1..], room - 1);
      RegroupBody(input[0], b.data, Closing(b.data, room), b.rest);
      assert input == [input[0]] + input[1..];
    }
  }

  /** Put a noise byte, or a cut-off fragment, before the first attempt. */
  function AddNoise(a: Attempt, c: Byte): Attempt {
    a.(noise := [c] + a.noise)
  }

  function AddFragment(a: Attempt, f: seq<Byte>): Attempt {
    a.(fragments := [f] + a.fragments)
  }

  lemma AddNoiseRenders(a: Attempt, c: Byte, size: nat)
    ensures Render(AddNoise(a, c), size) == [c] + Render(a, size)
    ensures Shaped(a, size) && c != DOLLAR ==> Shaped(AddNoise(a, c), size)
  {
  }

  lemma AddFragmentRenders(a: Attempt, f: seq<Byte>, size: nat)
    requires a.noise == []
    ensures Render(AddFragment(a, f), size) == [DOLLAR] + f + Render(a, size)
    ensures Shaped(a, size) && Plain(f) && |f| < size - 1 ==> Shaped(AddFragment(a, f), size)
  {
    assert ([f] + a.fragments)[1..] == a.fragments;
  }

  ghost predicate Explains(input: seq<Byte>, size: nat, r: Reception, failed: seq<Attempt>, last: Attempt) {
    r.Received? && Parses(input, size, failed, last, r.rest) && last.data == r.data && |failed| == r.naks
  }

  function First(failed: seq<Attempt>, last: Attempt): Attempt {
    if failed == [] then last else failed[0]
  }

  lemma Regroup(p: seq<Byte>, x: seq<Byte>, y: seq<Byte>, z: seq<Byte>, r: seq<Byte>)
    ensures p + ((x + y) + z + r) == ((p + x) + y) + z + r
  {
  }

  /** Replacing the first attempt by one with a longer rendering. */
  lemma Lengthen(input: seq<Byte>, size: nat, r: Reception, failed: seq<Attempt>, last: Attempt,
                 b: Attempt, prefix: seq<Byte>) returns (failed': seq<Attempt>, last': Attempt)
    requires Explains(input, size, r, failed, last) && Shaped(b, size)
    requires Render(b, size) == prefix + Render(First(failed, last), size)
    requires b.data == First(failed, last).data && b.check == First(failed, last).check
    ensures Explains(prefix + input, size, r, failed', last') && First(failed', last') == b
  {
    if failed == [] {
      failed', last' := failed, b;
      assert prefix + input == RenderAll([], size) + Render(b, size) + r.rest;
    } else {
      failed', last' := [b] + failed[1..], last;
      assert failed'[1..] == failed[1..];
      Regroup(prefix, Render(failed[0], size), RenderAll(failed[1..], size), Render(last, size), r.rest);
    }
  }

  lemma GoodFirst(a: Attempt, rest: seq<Byte>, size: nat)
    requires Shaped(a, size) && Good(a)
    ensures Explains(Render(a, size) + rest, size, Received(a.data, rest, 0), [], a)
  {
    assert RenderAll([], size) + Render(a, size) == Render(a, size);
  }

  lemma BadFirst(a: Attempt, rest: seq<Byte>, size: nat, r: Reception, failed: seq<Attempt>, last: Attempt)
    requires Shaped(a, size) && !Good(a) && Explains(rest, size, r, failed, last)
    ensures Explains(Render(a, size) + rest, size, Later(r), [a] + failed, last)
  {
    assert ([a] + failed)[1..] == failed;
    assert Render(a, size) + rest
        == (Render(a, size) + RenderAll(failed, size)) + Render(last, size) + r.rest;
  }

  lemma CutFirst(f: seq<Byte>, rest: seq<Byte>, size: nat, r: Reception, failed0: seq<Attempt>, last0: Attempt)
      returns (failed: seq<Attempt>, last: Attempt)
    requires Plain(f) && |f| < size - 1
    requires Explains([DOLLAR] + rest, size, r, failed0, last0) && First(failed0, last0).noise == []
    ensures Explains([DOLLAR] + (f + [DOLLAR] + rest), size, r, failed, last)
    ensures First(failed, last).noise == []
  {
    var a := First(failed0, last0);
    AddFragmentRenders(a, f, size);
    assert [DOLLAR] + (f + [DOLLAR] + rest) == ([DOLLAR] + f) + ([DOLLAR] + rest);
    failed, last := Lengthen([DOLLAR] + rest, size, r, failed0, last0, AddFragment(a, f), [DOLLAR] + f);
  }

  lemma RegroupEnded(d: seq<Byte>, data: seq<Byte>, c: seq<Byte>, check: seq<Byte>, rest: seq<Byte>)
    ensures d + (data + c + (check + rest)) == ([] + d + [] + data + c + check) + rest
  {
  }

  lemma EndedAttempt(input: seq<Byte>, size: nat, a: Attempt, rest: seq<Byte>)
    requires size > 0 && ReadBody(input, size - 1) == Ended(a.data, a.check + rest)
    requires a.noise == [] && a.fragments == [] && |a.check| == 2
    ensures Shaped(a, size) && [DOLLAR] + input == Render(a, size) + rest
  {
    EndedShape(input, size - 1);
    RegroupEnded([DOLLAR], a.data, Closing(a.data, size), a.check, rest);
  }

  lemma {:induction false} ParseReceive(input: seq<Byte>, size: nat) returns (failed: seq<Attempt>, last: Attempt)
    requires size > 0 && Receive(input, size).Received?
    ensures Explains(input, size, Receive(input, size), failed, last)
    decreases |input|, 1
  {
    assert input == [input[0]] + input[1..];
    if input[0] == DOLLAR {
      failed, last := ParsePacket(input[1..], size);
    } else {
      var failed0, last0 := ParseReceive(input[1..], size);
      var a := First(failed0, last0);
      AddNoiseRenders(a, input[0], size);
      failed, last := Lengthen(input[1..], size, Receive(input, size), failed0, last0,
                               AddNoise(a, input[0]), [input[0]]);
    }
  }

  lemma {:induction false} ParsePacket(input: seq<Byte>, size: nat) returns (failed: seq<Attempt>, last: Attempt)
    requires size > 0 && Packet(input, size).Received?
    ensures Explains([DOLLAR] + input, size, Packet(input, size), failed, last)
    ensures First(failed, last).noise == []
    decreases |input|, 0
  {
    var body := ReadBody(input, size - 1);
    ReadBodyShrinks(input, size - 1);
    if body.Restart? {
      var f := RestartShape(input, size - 1);
      failed, last := ParsePacket(body.rest, size);
      failed, last := CutFirst(f, body.rest, size, Packet(input, size), failed, last);
    } else {
      var a := Attempt([], [], body.data, body.rest[..2]);
      var rest := body.rest[2..];
      assert body.rest == a.check + rest;
      EndedAttempt(input, size, a, rest);
      if Good(a) {
        failed, last := [], a;
        GoodFirst(a, rest, size);
      } else {
        var failed0, last0 := ParseReceive(rest, size);
        failed, last := [a] + failed0, last0;
        BadFirst(a, rest, size, Receive(rest, size), failed0, last0);
      }
    }
  }

  lemma ParsedIsReceived(input: seq<Byte>, size: nat, failed: seq<Attempt>, last: Attempt, rest: seq<Byte>)
    requires size > 0 && Parses(input, size, failed, last, rest)
    ensures Receive(input, size) == Received(last.data, rest, |failed|)
  {
    AttemptOutcome(last, rest, size);
    AfterFailures(failed, Render(last, size) + rest, size);
    assert input == RenderAll(failed, size) + (Render(last, size) + rest);
  }

  /** The receiver returns exactly on the streams of the grammar: `naks` failed
      attempts and a good one, whose data it returns, leaving the rest unread. */
  lemma ReceiveExactly(input: seq<Byte>, size: nat, data: seq<Byte>, rest: seq<Byte>, naks: nat)
    requires size > 0
    ensures Receive(input, size) == Received(data, rest, naks) <==>
      exists failed, last :: Explains(input, size, Received(data, rest, naks), failed, last)
  {
    if Receive(input, size) == Received(data, rest, naks) {
      var failed, last := ParseReceive(input, size);
    }
    if failed, last :| Explains(input, size, Received(data, rest, naks), failed, last) {
      ParsedIsReceived(input, size, failed, last, rest);
    }
  }

  lemma {:induction false} CutsEnd(fragments: seq<seq<Byte>>) returns (p: seq<Byte>)
    ensures [DOLLAR] + Cuts(fragments) == p + [DOLLAR]
  {
    if fragments == [] {
      p := [];
    } else {
      var q := CutsEnd(fragments[1..]);
      p := [DOLLAR] + fragments[0] + q;
      assert [DOLLAR] + Cuts(fragments) == ([DOLLAR] + fragments[0]) + ([DOLLAR] + Cuts(fragments[1..]));
    }
  }

  /** In particular the bytes consumed end with '$', the data, '#' (absent only
      when the data fills the buffer) and two characters whose value is the
      checksum of the data; and the data holds no '$' or '#'. */
  lemma ReceivedTail(input: seq<Byte>, size: nat) returns (before: seq<Byte>, check: seq<Byte>)
    requires size > 0 && Receive(input, size).Received?
    ensures var r := Receive(input, size);
      && input == before + ([DOLLAR] + r.data + (if |r.data| + 1 < size then [HASH] else []) + check) + r.rest
      && |r.data| < size && |check| == 2 && HexToUintn(check) == ByteSum(r.data) % 256 && Plain(r.data)
  {
    var failed, last := ParseReceive(input, size);
    var p := CutsEnd(last.fragments);
    before, check := RenderAll(failed, size) + last.noise + p, last.check;
    CheckSumIsSum(last.data);
    RegroupTail(RenderAll(failed, size), last.noise, Cuts(last.fragments), p, last.data,
                Closing(last.data, size), check, Receive(input, size).rest);
  }

  lemma RegroupTail(failed: seq<Byte>, noise: seq<Byte>, cuts: seq<Byte>, p: seq<Byte>,
                    data: seq<Byte>, closing: seq<Byte>, check: seq<Byte>, rest: seq<Byte>)
    requires [DOLLAR] + cuts == p + [DOLLAR]
    ensures failed + (noise + [DOLLAR] + cuts + data + closing + check) + rest
         == (failed + noise + p) + ([DOLLAR] + data + closing + check) + rest
  {
    assert noise + [DOLLAR] + cuts == noise + ([DOLLAR] + cuts);
    assert noise + (p + [DOLLAR]) == noise + p + [DOLLAR];
    var tail := data + closing + check;
    assert noise + [DOLLAR] + cuts + data + closing + check == (noise + [DOLLAR] + cuts) + tail;
    assert (noise + p + [DOLLAR]) + tail == noise + p + ([DOLLAR] + tail);
    assert [DOLLAR] + data + closing + check == [DOLLAR] + tail;
    assert failed + (noise + p + ([DOLLAR] + tail)) == (failed + noise + p) + ([DOLLAR] + tail);
  }
}
