/** Reading and writing target memory as hexadecimal text. */
module GdbMemory {
  import opened Common
  import opened GdbPacket
  import opened GdbLink

  const COMMA: Byte := 0x2C
  const COLON: Byte := 0x3A
  const MAX_FIELD: nat := 32

  const EBADMEMDATA: Byte := 14
  const EBADMEMDATASIZE: Byte := 15

  const OK_TEXT: seq<Byte> := [0x4F, 0x4B]

  function ErrorText(err: Byte): seq<Byte> {
    [0x45] + Hex2(err)
  }

  // ------------------------------------------------------------ hex encoding

  function LowerHex(v: nat): Byte
    requires v < 16
  {
    if v < 10 then 0x30 + v else 0x61 + v - 10
  }

  function EncodeHex(bytes: seq<Byte>): (text: seq<Byte>)
    ensures |text| == 2 * |bytes|
    ensures forall k | 0 <= k < |bytes| ::
      text[2 * k] == LowerHex(bytes[k] / 16) && text[2 * k + 1] == LowerHex(bytes[k] % 16)
  {
    if bytes == [] then []
    else
      var m := |bytes| - 1;
      EncodeHex(bytes[..m]) + [LowerHex(bytes[m] / 16), LowerHex(bytes[m] % 16)]
  }

  /** Character i of a C string, NUL from its end on. */
  function At(text: seq<Byte>, i: nat): Byte {
    if i < |text| then text[i] else 0
  }

  predicate GoodPair(text: seq<Byte>, k: nat) {
    HexCharToInt(At(text, 2 * k)) >= 0 && HexCharToInt(At(text, 2 * k + 1)) >= 0
  }

  /** (CHAR8) of HexCharToInt: -1 stays negative only if CHAR8 is signed. */
  function AsChar8(v: int, signed: bool): int
    requires -1 <= v < 16
  {
    if v < 0 && !signed then 255 else v
  }

  function PairValue(text: seq<Byte>, k: nat, signed: bool): Byte {
    (AsChar8(HexCharToInt(At(text, 2 * k)), signed) * 16 + AsChar8(HexCharToInt(At(text, 2 * k + 1)), signed)) % 256
  }

  /** How many pairs are written: up to the first bad one, if that is noticed. */
  function WrittenPairs(text: seq<Byte>, length: nat, signed: bool): (n: nat)
    ensures n <= length
    ensures signed ==> forall k | 0 <= k < n :: GoodPair(text, k)
    ensures n < length ==> signed && !GoodPair(text, n)
  {
    if length == 0 then 0
    else
      var m := WrittenPairs(text, length - 1, signed);
      if m == length - 1 && (!signed || GoodPair(text, m)) then length else m
  }

  function Bytes(text: seq<Byte>, n: nat, signed: bool): seq<Byte> {
    seq(n, k requires 0 <= k => PairValue(text, k, signed))
  }

  lemma WrittenBound(text: seq<Byte>, length: nat)
    ensures 2 * WrittenPairs(text, length, true) <= |text|
  {
    var n := WrittenPairs(text, length, true);
    if n > 0 { assert GoodPair(text, n - 1); }
  }

  lemma HexDigitDecodes(v: nat)
    requires v < 16
    ensures HexCharToInt(LowerHex(v)) == v
  {
  }

  lemma PairOf(text: seq<Byte>, k: nat, h: nat, l: nat, signed: bool)
    requires h < 16 && l < 16
    requires At(text, 2 * k) == LowerHex(h) && At(text, 2 * k + 1) == LowerHex(l)
    ensures GoodPair(text, k) && PairValue(text, k, signed) == h * 16 + l
  {
    HexDigitDecodes(h);
    HexDigitDecodes(l);
  }

  lemma EncodedPair(bytes: seq<Byte>, k: nat)
    requires k < |bytes|
    ensures At(EncodeHex(bytes), 2 * k) == LowerHex(bytes[k] / 16)
    ensures At(EncodeHex(bytes), 2 * k + 1) == LowerHex(bytes[k] % 16)
  {
    var text, b := EncodeHex(bytes), bytes[k];
    assert 2 * k + 1 < |text|;
    assert text[2 * k] == LowerHex(b / 16);
    assert text[2 * k + 1] == LowerHex(b % 16);
  }

  lemma PairRoundTrip(bytes: seq<Byte>, k: nat, signed: bool)
    requires k < |bytes|
    ensures GoodPair(EncodeHex(bytes), k) && PairValue(EncodeHex(bytes), k, signed) == bytes[k]
  {
    EncodedPair(bytes, k);
    PairOf(EncodeHex(bytes), k, bytes[k] / 16, bytes[k] % 16, signed);
  }

  /** Encoding any bytes and writing the text back gives the same bytes. */
  lemma HexRoundTrip(bytes: seq<Byte>, signed: bool)
    ensures WrittenPairs(EncodeHex(bytes), |bytes|, signed) == |bytes|
    ensures Bytes(EncodeHex(bytes), |bytes|, signed) == bytes
  {
    var text := EncodeHex(bytes);
    var n := WrittenPairs(text, |bytes|, signed);
    if n < |bytes| { PairRoundTrip(bytes, n, signed); }
    forall k | 0 <= k < |bytes| ensures Bytes(text, |bytes|, signed)[k] == bytes[k] {
      PairRoundTrip(bytes, k, signed);
    }
  }

  predicate GoodPairs(text: seq<Byte>, n: nat) {
    |text| == 2 * n && forall k | 0 <= k < n :: GoodPair(text, k)
  }

  function LowerCase(c: Byte): Byte {
    if 0x41 <= c <= 0x46 then c + 0x20 else c
  }

  lemma LowerDigit(c: Byte)
    requires HexCharToInt(c) >= 0
    ensures LowerHex(HexCharToInt(c)) == LowerCase(c)
  {
  }

  lemma Nibbles(h: nat, l: nat)
    requires h < 16 && l < 16
    ensures (h * 16 + l) % 256 == h * 16 + l && (h * 16 + l) / 16 == h && (h * 16 + l) % 16 == l
  {
  }

  lemma PairText(text: seq<Byte>, k: nat, signed: bool)
    requires 2 * k + 1 < |text| && GoodPair(text, k)
    ensures var b := PairValue(text, k, signed);
      LowerHex(b / 16) == LowerCase(text[2 * k]) && LowerHex(b % 16) == LowerCase(text[2 * k + 1])
  {
    LowerDigit(text[2 * k]);
    LowerDigit(text[2 * k + 1]);
    Nibbles(HexCharToInt(text[2 * k]), HexCharToInt(text[2 * k + 1]));
  }

  /** The other way round: a text of good pairs, in either case, is written in
      full, and comes back in lower case when it is read again. */
  lemma TextRoundTrip(text: seq<Byte>, n: nat, signed: bool)
    requires GoodPairs(text, n)
    ensures WrittenPairs(text, n, signed) == n
    ensures var back := EncodeHex(Bytes(text, n, signed));
      |back| == |text| && forall i | 0 <= i < |text| :: back[i] == LowerCase(text[i])
  {
    var bytes := Bytes(text, n, signed);
    var back := EncodeHex(bytes);
    forall i | 0 <= i < |text| ensures back[i] == LowerCase(text[i]) {
      var k := i / 2;
      PairText(text, k, signed);
      assert back[2 * k] == LowerHex(bytes[k] / 16) && back[2 * k + 1] == LowerHex(bytes[k] % 16);
      assert i == 2 * k || i == 2 * k + 1;
    }
  }

  /** The byte that a bad pair is written as where CHAR8 is unsigned: the value
      of a bad digit is taken for 255. */
  lemma BadPairIs(text: seq<Byte>, k: nat)
    ensures var h, l := HexCharToInt(At(text, 2 * k)), HexCharToInt(At(text, 2 * k + 1));
      && (h < 0 && l < 0 ==> PairValue(text, k, false) == 0xEF)
      && (h < 0 <= l ==> PairValue(text, k, false) == 0xF0 + l)
      && (h > 0 > l ==> PairValue(text, k, false) == 16 * h - 1)
      && (h == 0 > l ==> PairValue(text, k, false) == 0xFF)
  {
  }

  /** The digits of a dump. */
  lemma LowerHexIs(v: nat)
    requires v < 16
    ensures LowerHex(v) as char == LOWER_DIGITS[v]
  {
  }

  // ---------------------------------------------------------------- replies

  lemma DumpStart(block: seq<Byte>)
    requires block != []
    ensures EncodeHex(block)[0] as char in LOWER_DIGITS && EncodeHex(block)[0] != 0x4F
  {
    assert EncodeHex(block)[2 * 0] == LowerHex(block[0] / 16);
    LowerHexIs(block[0] / 16);
  }

  /** An error reply is an 'E' and two digits from which its number is read, so
      it is neither "OK" nor the dump of any block. */
  lemma ErrorRepliesDiffer(err: Byte, other: Byte, block: seq<Byte>)
    ensures var text := ErrorText(err);
      && |text| == 3 && text[0] as char == 'E' && HexToUintn(text[1..]) == err
      && text[1] as char == UPPER_DIGITS[err / 16] && text[2] as char == UPPER_DIGITS[err % 16]
      && text != OK_TEXT && text != EncodeHex(block) && (text == ErrorText(other) ==> err == other)
    ensures OK_TEXT[0] as char == 'O' && OK_TEXT[1] as char == 'K' && |OK_TEXT| == 2 && OK_TEXT != EncodeHex(block)
  {
    HexCharExactly(0, err / 16);
    HexCharExactly(0, err % 16);
    Hex2Decodes(err);
    Hex2Decodes(other);
    assert ErrorText(err)[1..] == Hex2(err) && ErrorText(other)[1..] == Hex2(other);
    if block != [] { DumpStart(block); }
  }

  /** The two error replies of the transfers: "E0E" and "E0F". */
  lemma ErrorReplies()
    ensures ErrorText(EBADMEMDATA) == [0x45, 0x30, 0x45] && ErrorText(EBADMEMDATASIZE) == [0x45, 0x30, 0x46]
  {
  }

  /** The port after a packet has been sent. */
  twostate predicate Replied(port: Port, text: seq<Byte>, retries: nat)
    reads port
  {
    var s := Send(old(port.input), retries);
    port.input == s.rest && port.output == old(port.output) + Copies(Frame(text), s.frames)
  }

  method SendText(port: Port, text: seq<Byte>, retries: nat)
    requires 0 !in text
    modifies port
    ensures Replied(port, text, retries)
  {
    NulEnds(text, []);
    assert text + [0] + [] == text + [0];
    var count := port.SendPacket(text + [0], retries);
  }

  // -------------------------------------------------------------- transfers

  lemma OverwriteOne(memory: seq<Byte>, address: nat, data: seq<Byte>, b: Byte)
    requires address + |data| < |memory|
    ensures Overwrite(memory, address, data)[address + |data| := b] == Overwrite(memory, address, data + [b])
  {
  }

  lemma BytesMore(text: seq<Byte>, k: nat, signed: bool)
    ensures Bytes(text, k + 1, signed) == Bytes(text, k, signed) + [PairValue(text, k, signed)]
  {
  }

  /** The memory once the first `k` pairs have been written. */
  function WithPairs(memory: seq<Byte>, address: nat, text: seq<Byte>, k: nat, signed: bool): seq<Byte>
    requires address + k <= |memory|
  {
    Overwrite(memory, address, Bytes(text, k, signed))
  }

  lemma PairMore(memory: seq<Byte>, address: nat, text: seq<Byte>, k: nat, signed: bool)
    requires address + k < |memory|
    ensures |WithPairs(memory, address, text, k, signed)| == |memory|
    ensures WithPairs(memory, address, text, k, signed)[address + k := PairValue(text, k, signed)]
         == WithPairs(memory, address, text, k + 1, signed)
  {
    OverwriteOne(memory, address, Bytes(text, k, signed), PairValue(text, k, signed));
    BytesMore(text, k, signed);
  }

  lemma NoPairs(memory: seq<Byte>, address: nat, text: seq<Byte>, signed: bool)
    requires address <= |memory|
    ensures WithPairs(memory, address, text, 0, signed) == memory
  {
  }

  /** One turn of the loop: noticed, or written. */
  method StorePair(memory: array<Byte>, address: nat, k: nat, newData: seq<Byte>, signed: bool) returns (ok: bool)
    requires (signed && !GoodPair(newData, k)) || address + k < memory.Length
    modifies memory
    ensures ok == (!signed || GoodPair(newData, k))
    ensures memory[..] == if ok then old(memory[..])[address + k := PairValue(newData, k, signed)] else old(memory[..])
  {
    var c1 := AsChar8(HexCharToInt(At(newData, 2 * k)), signed);
    var c2 := AsChar8(HexCharToInt(At(newData, 2 * k + 1)), signed);
    if c1 < 0 || c2 < 0 {
      return false;
    }
    memory[address + k] := (c1 * 16 + c2) % 256;
    ok := true;
  }

  /** The loop that writes; it stops at a bad digit it notices. */
  method StoreHex(memory: array<Byte>, address: nat, length: nat, newData: seq<Byte>, signed: bool) returns (ok: bool)
    requires address + WrittenPairs(newData, length, signed) <= memory.Length
    modifies memory
    ensures var n := WrittenPairs(newData, length, signed);
      ok == (n == length) && memory[..] == Overwrite(old(memory[..]), address, Bytes(newData, n, signed))
  {
    ghost var n, before := WrittenPairs(newData, length, signed), memory[..];
    var k: nat := 0;
    NoPairs(before, address, newData, signed);
    while k < length
      invariant k <= n && memory[..] == WithPairs(before, address, newData, k, signed)
    {
      PairFits(newData, length, k, signed);
      ok := StorePair(memory, address, k, newData, signed);
      if !ok { return; }
      PairMore(before, address, newData, k, signed);
      k := k + 1;
    }
    ok := true;
  }

  /** Pair k is good exactly when it is written. */
  lemma PairFits(text: seq<Byte>, length: nat, k: nat, signed: bool)
    requires k < length && k <= WrittenPairs(text, length, signed)
    ensures !signed || GoodPair(text, k) <==> k < WrittenPairs(text, length, signed)
  {
  }

  /** Writes `length` bytes given as hex text.  A bad digit in pair k is noticed
      only where CHAR8 is signed; then bytes 0 to k - 1 are written and an error
      is sent.  Where CHAR8 is unsigned the bad digits are written as data. */
  method TransferFromInBufToMem(port: Port, memory: array<Byte>, address: nat, length: nat,
                                newData: seq<Byte>, signed: bool, retries: nat)
    requires address + WrittenPairs(newData, length, signed) <= memory.Length
    modifies port, memory
    ensures var n := WrittenPairs(newData, length, signed);
      && memory[..] == Overwrite(old(memory[..]), address, Bytes(newData, n, signed))
      && Replied(port, if n == length then OK_TEXT else ErrorText(EBADMEMDATA), retries)
  {
    var ok := StoreHex(memory, address, length, newData, signed);
    SendText(port, if ok then OK_TEXT else ErrorText(EBADMEMDATA), retries);
  }

  /** Writes the two characters of a byte. */
  method PutHex(outBuffer: array<Byte>, at: nat, b: Byte)
    requires at + 2 <= outBuffer.Length
    modifies outBuffer
    ensures outBuffer[..at + 2] == old(outBuffer[..at]) + [LowerHex(b / 16), LowerHex(b % 16)]
  {
    var high, low := UpperHex(b / 16), UpperHex(b % 16);
    if 0x41 <= high <= 0x46 { high := high - 0x41 + 0x61; }
    if 0x41 <= low <= 0x46 { low := low - 0x41 + 0x61; }
    outBuffer[at] := high;
    outBuffer[at + 1] := low;
  }

  lemma EncodeMore(bytes: seq<Byte>)
    requires bytes != []
    ensures var m := |bytes| - 1;
      EncodeHex(bytes) == EncodeHex(bytes[..m]) + [LowerHex(bytes[m] / 16), LowerHex(bytes[m] % 16)]
  {
  }

  /** The encoding loop and the NUL after it.  False when it would write past the
      buffer. */
  method EncodeMemory(memory: array<Byte>, address: nat, length: nat, outBuffer: array<Byte>) returns (inBounds: bool)
    requires address + length <= memory.Length && memory != outBuffer
    modifies outBuffer
    ensures inBounds <==> 2 * length < outBuffer.Length
    ensures inBounds ==> outBuffer[..2 * length] == EncodeHex(memory[address..address + length])
    ensures inBounds ==> outBuffer[2 * length] == 0
  {
    var k: nat := 0;
    while k < length
      invariant k <= length && 2 * k <= outBuffer.Length
      invariant outBuffer[..2 * k] == EncodeHex(memory[address..address + k])
    {
      if 2 * k + 2 > outBuffer.Length { return false; }
      EncodeMore(memory[address..address + k + 1]);
      assert memory[address..address + k + 1][..k] == memory[address..address + k];
      PutHex(outBuffer, 2 * k, memory[address + k]);
      k := k + 1;
    }
    if 2 * k == outBuffer.Length { return false; }
    outBuffer[2 * k] := 0;
    inBounds := true;
  }

  /** The size of the buffer on the stack. */
  const MAX_BUF_SIZE: nat := 2000

  /** Sends `length` bytes of memory as lower-case hex text.  The length is not
      tested: 1000 bytes and more overrun the buffer, and nothing is said of what
      follows. */
  method TransferFromMemToOutBufAndSend(port: Port, memory: array<Byte>, address: nat, length: nat,
                                        addressValid: bool, retries: nat) returns (inBounds: bool)
    requires address + length <= memory.Length
    modifies port
    ensures inBounds <==> !addressValid || length < 1000
    ensures inBounds ==>
      Replied(port, if addressValid then EncodeHex(memory[address..address + length]) else ErrorText(14), retries)
  {
    if !addressValid {
      SendText(port, ErrorText(14), retries);
      return true;
    }
    var outBuffer := new Byte[MAX_BUF_SIZE];
    inBounds := EncodeMemory(memory, address, length, outBuffer);
    if !inBounds { return; }
    NoNul(memory[address..address + length]);
    SendText(port, outBuffer[..2 * length], retries);
  }

  lemma {:induction false} NoNul(bytes: seq<Byte>)
    ensures 0 !in EncodeHex(bytes)
  {
    if bytes != [] { NoNul(bytes[..|bytes| - 1]); }
  }

  /** Copies of this loop take a field, with a NUL after it, into a buffer on the
      stack.  None when it would write past the buffer: exactly for a field that
      leaves no place for the NUL. */
  method CopyField(packetData: seq<Byte>, start: nat, stop: Byte, buffer: array<Byte>,
                   ghost field: seq<Byte>, ghost rest: seq<Byte>) returns (end: Option<nat>)
    requires start <= |packetData| && packetData[start..] == field + [stop] + rest && stop !in field
    requires 0 !in field
    modifies buffer
    ensures end == None <==> |field| >= buffer.Length
    ensures end.Some? ==> start <= end.value < |packetData| && packetData[end.value + 1..] == rest
    ensures end.Some? ==> CString(buffer[..]) == field
  {
    assert forall j | 0 <= j < |field| :: packetData[start..][j] == field[j] && field[j] in field;
    assert packetData[start..][|field|] == stop;
    var n: nat := 0;
    while packetData[start + n] != stop
      invariant n <= |field| && n <= buffer.Length && buffer[..n] == field[..n]
      decreases |packetData| - n
    {
      if n == buffer.Length { return None; }
      FieldMore(field, n);
      buffer[n] := packetData[start + n];
      n := n + 1;
    }
    assert field[..n] == field;
    if n == buffer.Length { return None; }
    buffer[n] := 0;
    NulEnds(field, buffer[n + 1..]);
    assert buffer[..] == field + [0] + buffer[n + 1..];
    assert packetData[start..][|field| + 1..] == rest;
    end := Some(start + n);
  }

  lemma FieldMore(field: seq<Byte>, n: nat)
    requires n < |field|
    ensures field[..n + 1] == field[..n] + [field[n]]
  {
  }

  lemma RegroupCommand(packetData: seq<Byte>, addr: seq<Byte>, len: seq<Byte>, data: seq<Byte>)
    requires packetData == [0x4D] + addr + [COMMA] + len + [COLON] + data
    ensures packetData[1..] == addr + [COMMA] + (len + [COLON] + data)
  {
  }

  /** The "M addr,length:data" command.  The fields are what stands before the
      first ',' and, after it, before the first ':'.  A field of 32 characters or
      more has overrun its buffer before its length is tested; then `inBounds` is
      false and nothing is said of what follows.  (So the two tests of a field's
      length never succeed on a stack that is still in order.) */
  method WriteToMemory(port: Port, memory: array<Byte>, packetData: seq<Byte>,
                       ghost addr: seq<Byte>, ghost len: seq<Byte>, ghost data: seq<Byte>,
                       signed: bool, retries: nat) returns (inBounds: bool)
    requires packetData == [0x4D] + addr + [COMMA] + len + [COLON] + data
    requires COMMA !in addr && COLON !in len && 0 !in packetData
    requires |addr| < MAX_FIELD && |len| < MAX_FIELD && !WrongSize(len, data) ==>
      HexToUintn(addr) + WrittenPairs(data, HexToUintn(len), signed) <= memory.Length
    modifies port, memory
    ensures inBounds <==> |addr| < 32 && |len| < 32
    ensures inBounds && WrongSize(len, data) ==>
      memory[..] == old(memory[..]) && Replied(port, ErrorText(EBADMEMDATASIZE), retries)
    ensures inBounds && !WrongSize(len, data) ==>
      var n := WrittenPairs(data, HexToUintn(len), signed);
      && memory[..] == Overwrite(old(memory[..]), HexToUintn(addr), Bytes(data, n, signed))
      && Replied(port, if n == HexToUintn(len) then OK_TEXT else ErrorText(EBADMEMDATA), retries)
  {
    RegroupCommand(packetData, addr, len, data);
    NoNulInFields(packetData, addr, len, data);
    var addressBuffer, lengthBuffer := new Byte[MAX_FIELD], new Byte[MAX_FIELD];
    var p := CopyField(packetData, 1, COMMA, addressBuffer, addr, len + [COLON] + data);
    if p == None { return false; }
    var q := CopyField(packetData, p.value + 1, COLON, lengthBuffer, len, data);
    if q == None { return false; }
    var addressText, lengthText := CString(addressBuffer[..]), CString(lengthBuffer[..]);
    ExecuteWrite(port, memory, packetData, q.value + 1, addressText, lengthText, data, signed, retries);
    inBounds := true;
  }

  /** The rest of the command, with the fields in their buffers. */
  method ExecuteWrite(port: Port, memory: array<Byte>, packetData: seq<Byte>, p: nat,
                      addressText: seq<Byte>, lengthText: seq<Byte>, ghost data: seq<Byte>,
                      signed: bool, retries: nat)
    requires p <= |packetData| && packetData[p..] == data
    requires |packetData| == |addressText| + |lengthText| + 3 + |data|
    requires !WrongSize(lengthText, data) ==>
      HexToUintn(addressText) + WrittenPairs(data, HexToUintn(lengthText), signed) <= memory.Length
    modifies port, memory
    ensures WrongSize(lengthText, data) ==>
      memory[..] == old(memory[..]) && Replied(port, ErrorText(EBADMEMDATASIZE), retries)
    ensures !WrongSize(lengthText, data) ==>
      var n := WrittenPairs(data, HexToUintn(lengthText), signed);
      && memory[..] == Overwrite(old(memory[..]), HexToUintn(addressText), Bytes(data, n, signed))
      && Replied(port, if n == HexToUintn(lengthText) then OK_TEXT else ErrorText(EBADMEMDATA), retries)
  {
    var address := HexToUintn(addressText);
    var length := HexToUintn(lengthText);
    var messageLength := |packetData| - |addressText| - |lengthText| - 3;
    if messageLength != (2 * length) % SPAN64 {
      SendText(port, ErrorText(EBADMEMDATASIZE), retries);
      return;
    }
    TransferFromInBufToMem(port, memory, address, length, packetData[p..], signed, retries);
  }

  lemma NoNulInFields(packetData: seq<Byte>, addr: seq<Byte>, len: seq<Byte>, data: seq<Byte>)
    requires packetData == [0x4D] + addr + [COMMA] + len + [COLON] + data && 0 !in packetData
    ensures 0 !in addr && 0 !in len
  {
    forall c | c in addr ensures c in packetData { assert c in [0x4D] + addr; }
    forall c | c in len ensures c in packetData { assert c in [0x4D] + addr + [COMMA] + len; }
  }

  /** The test with which the command is refused before anything is written. */
  predicate WrongSize(len: seq<Byte>, data: seq<Byte>) {
    |data| != (2 * HexToUintn(len)) % SPAN64
  }

  lemma {:induction false} DigitsBound(s: seq<Byte>, acc: nat)
    requires acc < SPAN64
    ensures Digits(s, acc) < SPAN64
    decreases |s|
  {
    if s != [] && HexCharToInt(s[0]) >= 0 && acc <= (MAX_UINTN - HexCharToInt(s[0])) / 16 {
      DigitsBound(s[1..], 16 * acc + HexCharToInt(s[0]));
    }
  }

  lemma OkExactly(data: seq<Byte>, length: nat)
    requires length < SPAN64 && |data| < SPAN64
    ensures |data| == (2 * length) % SPAN64 && WrittenPairs(data, length, true) == length <==>
      |data| == 2 * length && forall i | 0 <= i < |data| :: HexCharToInt(data[i]) >= 0
  {
    var n := WrittenPairs(data, length, true);
    WrittenBound(data, length);
    if n == length && |data| == 2 * length {
      forall i | 0 <= i < |data| ensures HexCharToInt(data[i]) >= 0 {
        assert GoodPair(data, i / 2);
        assert i == 2 * (i / 2) || i == 2 * (i / 2) + 1;
      }
    }
  }

  lemma ValueBound(s: seq<Byte>)
    ensures HexToUintn(s) < SPAN64
  {
    var b := SkipZeros(SkipBlanks(s));
    DigitsBound(b, 0);
    if b != [] { DigitsBound(b[1..], 0); }
  }

  /** The data part has 2^64 characters less than the length asks for. */
  predicate Wrapped(len: seq<Byte>, data: seq<Byte>) {
    HexToUintn(len) >= SPAN64 / 2 && |data| == 2 * HexToUintn(len) - SPAN64
  }

  /** What the size test, made modulo 2^64, lets through: data of the right size
      and data that is too short by exactly 2^64 characters. */
  lemma TransfersExactly(len: seq<Byte>, data: seq<Byte>)
    requires |data| < SPAN64
    ensures !WrongSize(len, data) <==> |data| == 2 * HexToUintn(len) || Wrapped(len, data)
  {
    ValueBound(len);
  }

  /** Data that memory could hold is carried out. */
  predicate Accepted(len: seq<Byte>, data: seq<Byte>) {
    |data| < SPAN64 && !WrongSize(len, data)
  }

  ghost predicate OnlyRightSizes(len: seq<Byte>) {
    forall data: seq<Byte> :: Accepted(len, data) ==> |data| == 2 * HexToUintn(len)
  }

  /** So the test keeps its promise for all data exactly for lengths below 2^63. */
  lemma SizeTestSoundExactly(len: seq<Byte>)
    ensures OnlyRightSizes(len) <==> HexToUintn(len) < SPAN64 / 2
  {
    ValueBound(len);
    if HexToUintn(len) < SPAN64 / 2 {
      forall data: seq<Byte> | Accepted(len, data) ensures |data| == 2 * HexToUintn(len) {
        TransfersExactly(len, data);
      }
    } else {
      var data: seq<Byte> := seq(2 * HexToUintn(len) - SPAN64, _ => 0x30);
      TransfersExactly(len, data);
      assert Accepted(len, data);
    }
  }

  /** When the command is answered "OK".  Where CHAR8 is signed a transfer with
      the wrong size runs into the end of the data and is answered with an
      error; where it is unsigned it goes on and is answered "OK". */
  lemma AnsweredOkExactly(len: seq<Byte>, data: seq<Byte>, signed: bool)
    requires |data| < SPAN64
    ensures !WrongSize(len, data) && WrittenPairs(data, HexToUintn(len), signed) == HexToUintn(len) <==>
      if signed then |data| == 2 * HexToUintn(len) && forall i | 0 <= i < |data| :: HexCharToInt(data[i]) >= 0
      else |data| == 2 * HexToUintn(len) || Wrapped(len, data)
  {
    ValueBound(len);
    if signed {
      OkExactly(data, HexToUintn(len));
    } else {
      TransfersExactly(len, data);
    }
  }

  function Zeros(n: nat): seq<Byte> {
    if n == 0 then [] else [0x30] + Zeros(n - 1)
  }

  /** `v` followed by n hexadecimal zeros. */
  function Shifted(v: nat, n: nat): (r: nat)
    ensures v <= r
    decreases n
  {
    if n == 0 then v else Shifted(16 * v, n - 1)
  }

  lemma {:induction false} ZeroDigits(n: nat, rest: seq<Byte>, acc: nat)
    requires Shifted(acc, n) <= MAX_UINTN
    ensures Digits(Zeros(n) + rest, acc) == Digits(rest, Shifted(acc, n))
    decreases n
  {
    if n == 0 {
      assert Zeros(n) + rest == rest;
    } else {
      assert HexCharToInt(0x30) == 0;
      Assoc([0x30], Zeros(n - 1), rest);
      DigitStep(0x30, Zeros(n - 1) + rest, acc);
      ZeroDigits(n - 1, rest, 16 * acc);
    }
  }

  /** The length field "8000000000000001". */
  const HUGE_LENGTH: seq<Byte> := [0x38] + (Zeros(14) + [0x31])

  lemma HugeLength()
    ensures HexToUintn(HUGE_LENGTH) == 0x8000_0000_0000_0001 && |HUGE_LENGTH| == 16
  {
    assert HexCharToInt(0x38) == 8 && HexCharToInt(0x31) == 1;
    assert Shifted(8, 14) == 0x800_0000_0000_0000;
    DigitStep(0x38, Zeros(14) + [0x31], 0);
    ZeroDigits(14, [0x31], 8);
    DigitStep(0x31, [], 0x800_0000_0000_0000);
    assert [0x31] + [] == [0x31];
    assert HUGE_LENGTH[0] == 0x38;
    assert |Zeros(14)| == 14;
  }

  lemma WholePair()
    ensures var data := [0x41, 0x42]; GoodPair(data, 0) && !GoodPair(data, 1) && Bytes(data, 1, true) == [0xAB]
  {
    assert HexCharToInt(0x41) == 10 && HexCharToInt(0x42) == 11 && HexCharToInt(0) == -1;
    assert PairValue([0x41, 0x42], 0, true) == 0xAB;
  }

  /** A command with this length and the data "AB" is not refused: one byte is
      written where CHAR8 is signed, and all of 2^63 + 1 where it is not. */
  lemma WrongSizeTransfers()
    ensures var data, length := [0x41, 0x42], HexToUintn(HUGE_LENGTH);
      && |data| != 2 * length && !WrongSize(HUGE_LENGTH, data)
      && WrittenPairs(data, length, true) == 1 && Bytes(data, 1, true) == [0xAB]
      && WrittenPairs(data, length, false) == length
  {
    HugeLength();
    WholePair();
    BadDigitStopsExactly([0x41, 0x42], 0x8000_0000_0000_0001, 1, true);
  }

  /** The first bad digit, in pair k, stops the transfer after exactly k bytes if
      and only if CHAR8 is signed. */
  lemma {:induction false} BadDigitStopsExactly(text: seq<Byte>, length: nat, k: nat, signed: bool)
    requires k < length && !GoodPair(text, k) && forall j | 0 <= j < k :: GoodPair(text, j)
    ensures WrittenPairs(text, length, signed) == k <==> signed
    ensures !signed ==> WrittenPairs(text, length, signed) == length
  {
    if length - 1 > k {
      BadDigitStopsExactly(text, length - 1, k, signed);
    }
  }

  /** A block dumped as text and written back over any memory restores the block
      and leaves every other byte alone. */
  lemma DumpAndRestore(source: seq<Byte>, target: seq<Byte>, address: nat, length: nat, signed: bool)
    requires address + length <= |source| && |target| == |source|
    ensures var text := EncodeHex(source[address..address + length]);
      && WrittenPairs(text, length, signed) == length
      && var after := Overwrite(target, address, Bytes(text, length, signed));
        forall i | 0 <= i < |target| ::
          after[i] == if address <= i < address + length then source[i] else target[i]
  {
    var block := source[address..address + length];
    HexRoundTrip(block, signed);
    forall i | 0 <= i < |target|
      ensures Overwrite(target, address, block)[i] == if address <= i < address + length then source[i] else target[i]
    {
      OverwriteAt(target, address, block, i);
    }
  }
}
