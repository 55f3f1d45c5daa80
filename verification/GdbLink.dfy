/** SendPacket and ReceivePacket over a serial line, and what they do together. */
module GdbLink {
  import opened Common
  import opened GdbPacket

  function Copies(s: seq<Byte>, n: nat): seq<Byte> {
    if n == 0 then [] else Copies(s, n - 1) + s
  }

  // ----------------------------------------------------------------- sender

  datatype Sending = Sending(frames: nat, rest: seq<Byte>, returned: bool)

  /** What the sender makes of the replies, with `retries` frames to spend. */
  function Send(replies: seq<Byte>, retries: nat): Sending {
    if retries == 0 then Sending(0, replies, true)
    else if replies == [] then Sending(1, [], false)
    else if replies[0] == ACK then Sending(1, replies[1..], true)
    else
      var r := Send(replies[1..], retries - 1);
      r.(frames := r.frames + 1)
  }

  /** What the sender returns: the length of the last frame's text. */
  function ReturnValue(s: Sending, text: seq<Byte>): Option<nat> {
    if !s.returned then None else Some(if s.frames == 0 then 0 else |text|)
  }

  /** The sender stops after `n` frames exactly when reply n is the first '+',
      or when the retry count is spent without one. */
  lemma {:induction false} SendExactly(replies: seq<Byte>, retries: nat, n: nat)
    requires n <= |replies|
    ensures Send(replies, retries) == Sending(n, replies[n..], true) <==>
      n <= retries && (forall i | 0 <= i < n - 1 :: replies[i] != 0x2B)
      && (n == retries || (n > 0 && replies[n - 1] == 0x2B))
  {
    if retries > 0 && replies != [] && replies[0] != ACK && n > 0 {
      SendExactly(replies[1..], retries - 1, n - 1);
      assert forall i | 0 <= i < |replies| - 1 :: replies[1..][i] == replies[i + 1];
      assert replies[1..][n - 1..] == replies[n..];
    }
  }

  // ------------------------------------------------------------- the port

  lemma FrameGrows(before: seq<Byte>, data: seq<Byte>)
    ensures var c := CheckSum(data);
      before + [DOLLAR] + data + [HASH] + [UpperHex(c / 16)] + [UpperHex(c % 16)] == before + Frame(data)
  {
  }

  lemma CheckSumMore(data: seq<Byte>, c: Byte)
    ensures CheckSum(data + [c]) == (CheckSum(data) + c) % 256
  {
    assert (data + [c])[..|data|] == data;
  }

  /** After `data` has been read from `start`, reading goes on with `input`. */
  predicate Continues(start: seq<Byte>, size: nat, data: seq<Byte>, input: seq<Byte>) {
    |data| <= size && ReadBody(start, size) == Prepend(data, ReadBody(input, size - |data|))
  }

  lemma BodyGoesOn(start: seq<Byte>, size: nat, data: seq<Byte>, c: Byte, rest: seq<Byte>)
    requires |data| < size && c != DOLLAR && c != HASH && Continues(start, size, data, [c] + rest)
    ensures Continues(start, size, data + [c], rest)
  {
    assert ([c] + rest)[1..] == rest;
    var b := ReadBody(rest, size - |data| - 1);
    if b.Ended? { Assoc(data, [c], b.data); }
  }

  lemma BodyStops(start: seq<Byte>, size: nat, data: seq<Byte>, input: seq<Byte>)
    requires Continues(start, size, data, input)
    ensures |data| == size ==> ReadBody(start, size) == Ended(data, input)
    ensures |data| < size && input == [] ==> ReadBody(start, size) == Starved
    ensures |data| < size && input != [] && input[0] == DOLLAR ==> ReadBody(start, size) == Restart(input[1..])
    ensures |data| < size && input != [] && input[0] == HASH ==> ReadBody(start, size) == Ended(data, input[1..])
  {
    assert data + [] == data;
  }

  lemma CopiesMore(s: seq<Byte>, n: nat)
    ensures s + Copies(s, n) == Copies(s, n + 1)
  {
    if n > 0 {
      CopiesMore(s, n - 1);
      assert s + (Copies(s, n - 1) + s) == (s + Copies(s, n - 1)) + s;
    }
  }

  /** The serial line: bytes still to come, and bytes sent.  A read that finds
      nothing to come would wait for ever; it returns None here. */
  class Port {
    var input: seq<Byte>
    var output: seq<Byte>

    constructor (input: seq<Byte>)
      ensures this.input == input && output == []
    {
      this.input, output := input, [];
    }

    method GetChar() returns (c: Option<Byte>)
      modifies this`input
      ensures old(input) == [] ==> c == None && input == []
      ensures old(input) != [] ==> c == Some(old(input)[0]) && input == old(input)[1..]
    {
      if input == [] { return None; }
      c := Some(input[0]);
      input := input[1..];
    }

    method PutChar(c: Byte)
      modifies this`output
      ensures output == old(output) + [c]
    {
      output := output + [c];
    }

    /** The loop that sends the data and adds it up. */
    method PutData(packetData: seq<Byte>, ghost payload: seq<Byte>) returns (count: nat, checkSum: nat)
      requires |payload| < |packetData| && packetData[|payload|] == 0
      requires forall i | 0 <= i < |payload| :: packetData[i] == payload[i] && payload[i] != 0
      modifies this`output
      ensures output == old(output) + payload && count == |payload| && checkSum == CheckSum(payload)
    {
      count, checkSum := 0, 0;
      ghost var before := output;
      assert payload[..0] == [] && before + [] == before;
      while packetData[count] != 0
        invariant count <= |payload| && checkSum == CheckSum(payload[..count])
        invariant output == before + payload[..count]
        decreases |payload| - count
      {
        SentMore(before, payload, count);
        PutChar(packetData[count]);
        checkSum := (checkSum + packetData[count]) % 256;
        count := count + 1;
      }
      assert payload[..count] == payload;
    }

    /** One transmission of the packet. */
    method PutFrame(packetData: seq<Byte>) returns (count: nat)
      requires 0 in packetData
      modifies this`output
      ensures output == old(output) + Frame(CString(packetData)) && count == |CString(packetData)|
    {
      ghost var before := output;
      PutChar(DOLLAR);
      var checkSum: nat;
      StringStands(packetData);
      count, checkSum := PutData(packetData, CString(packetData));
      PutChar(HASH);
      PutChar(UpperHex(checkSum / 16));
      PutChar(UpperHex(checkSum % 16));
      FrameGrows(before, CString(packetData));
    }

    /** Sends the packet until a '+' comes back, at most `retries` times. */
    method SendPacket(packetData: seq<Byte>, retries: nat) returns (count: Option<nat>)
      requires 0 in packetData
      modifies this
      ensures var s := Send(old(input), retries);
        && input == s.rest
        && output == old(output) + Copies(Frame(CString(packetData)), s.frames)
        && count == ReturnValue(s, CString(packetData))
    {
      var timeout: nat := retries;
      var n: nat := 0;
      ghost var sent: nat := 0;
      ghost var frame := Frame(CString(packetData));
      assert output == old(output) + Copies(frame, 0);
      while true
        invariant timeout <= retries && output == old(output) + Copies(frame, sent)
        invariant n == (if sent == 0 then 0 else |CString(packetData)|)
        invariant Send(old(input), retries) == AddFrames(Send(input, timeout), sent)
        decreases timeout
      {
        if timeout == 0 {
          return Some(n);
        }
        timeout := timeout - 1;
        n := PutFrame(packetData);
        Assoc(old(output), Copies(frame, sent), frame);
        sent := sent + 1;
        var testChar := GetChar();
        if testChar == None { return None; }
        if testChar.value == ACK { return Some(n); }
      }
    }

    /** What one pass of the character loop over `start` leaves behind. */
    ghost predicate Passed(start: seq<Byte>, pass: Pass, packetData: array<Byte>)
      requires packetData.Length > 0
      reads this`input, packetData
    {
      match ReadBody(start, packetData.Length - 1)
      case Starved => pass == Silent && input == []
      case Restart(rest) => pass == Again && input == rest
      case Ended(data, rest) =>
        && pass == Read(|data|, CheckSum(data)) && input == rest
        && |data| < packetData.Length && packetData[..|data|] == data
    }

    /** The character loop, from the label `retry` to its end or to the goto. */
    method ReadCharacters(packetData: array<Byte>) returns (pass: Pass)
      requires packetData.Length > 0
      modifies this`input, packetData
      ensures Passed(old(input), pass, packetData)
    {
      var index: nat, checkSum: nat := 0, 0;
      ghost var start, data := input, [];
      while index < packetData.Length - 1
        invariant index == |data| <= packetData.Length - 1 && checkSum == CheckSum(data)
        invariant packetData[..index] == data
        invariant Continues(start, packetData.Length - 1, data, input)
      {
        BodyStops(start, packetData.Length - 1, data, input);
        ghost var before := input;
        var next := GetChar();
        if next == None { return Silent; }
        if next.value == DOLLAR { return Again; }
        if next.value == HASH { return Read(index, checkSum); }
        assert before == [next.value] + input;
        BodyGoesOn(start, packetData.Length - 1, data, next.value, input);
        CheckSumMore(data, next.value);
        packetData[index] := next.value;
        data := data + [next.value];
        checkSum := (checkSum + next.value) % 256;
        index := index + 1;
      }
      BodyStops(start, packetData.Length - 1, data, input);
      pass := Read(index, checkSum);
    }

    /** Waits for the start of a packet. */
    method AwaitStart(ghost size: nat) returns (found: bool)
      requires size > 0
      modifies this`input
      ensures found ==> Receive(old(input), size) == Packet(input, size) && |input| < |old(input)|
      ensures !found ==> Receive(old(input), size) == Waiting(0) && input == []
    {
      var testChar := GetChar();
      while testChar != None && testChar.value != DOLLAR
        invariant testChar == None ==> Receive(old(input), size) == Waiting(0) && input == []
        invariant testChar != None ==>
          Receive(old(input), size) == Receive([testChar.value] + input, size) && |input| < |old(input)|
        decreases |input| + (if testChar == None then 0 else 1)
      {
        assert ([testChar.value] + input)[1..] == input;
        testChar := GetChar();
      }
      found := testChar != None;
      if found { assert ([testChar.value] + input)[1..] == input; }
    }

    /** The character loop with its retries: the rest of a packet after '$'. */
    method ReadPacketData(packetData: array<Byte>) returns (pass: Pass)
      requires packetData.Length > 0
      modifies this`input, packetData
      ensures !pass.Again?
      ensures pass.Silent? ==> Packet(old(input), packetData.Length) == Waiting(0) && input == []
      ensures pass.Read? ==>
        && pass.length < packetData.Length && pass.sum == CheckSum(packetData[..pass.length])
        && Packet(old(input), packetData.Length) == Verdict(packetData[..pass.length], input, packetData.Length)
        && |input| <= |old(input)|
    {
      ghost var start := input;
      pass := ReadCharacters(packetData);
      ReadBodyShrinks(start, packetData.Length - 1);
      while pass == Again
        invariant Packet(old(input), packetData.Length) == Packet(start, packetData.Length)
        invariant Passed(start, pass, packetData) && |input| <= |start| <= |old(input)|
        invariant pass == Again ==> |input| < |start|
        decreases |start|
      {
        start := input;
        pass := ReadCharacters(packetData);
        ReadBodyShrinks(start, packetData.Length - 1);
      }
    }

    /** Reads the two check characters and acknowledges. */
    method Acknowledge(sum: nat) returns (reply: Option<bool>)
      modifies this
      ensures |old(input)| < 2 ==> reply == None && input == [] && output == old(output)
      ensures |old(input)| >= 2 ==>
        && reply == Some(HexToUintn(old(input)[..2]) == sum) && input == old(input)[2..]
        && output == old(output) + [if reply.value then '+' as int else '-' as int]
    {
      var c1 := GetChar();
      if c1 == None { return None; }
      var c2 := GetChar();
      if c2 == None { return None; }
      assert old(input)[..2] == [c1.value, c2.value];
      if HexToUintn([c1.value, c2.value]) == sum {
        PutChar(ACK);
        return Some(true);
      }
      PutChar(NAK);
      return Some(false);
    }

    /** One turn of the outer loop.  (Its test of Index against PacketDataSize
        never succeeds: the character loop leaves Index below that.) */
    method Attempt(packetData: array<Byte>) returns (result: Result)
      requires packetData.Length > 0
      modifies this, packetData
      ensures match result
        case Hung => Receive(old(input), packetData.Length) == Waiting(0) && input == [] && output == old(output)
        case Refused =>
          && Receive(old(input), packetData.Length) == Later(Receive(input, packetData.Length))
          && |input| < |old(input)| && output == old(output) + [NAK]
        case Accepted(n) =>
          && n < packetData.Length && packetData[n] == 0 && output == old(output) + [ACK]
          && Receive(old(input), packetData.Length) == Received(packetData[..n], input, 0)
    {
      var found := AwaitStart(packetData.Length);
      if !found { return Hung; }
      var pass := ReadPacketData(packetData);
      if pass == Silent { return Hung; }
      var index := pass.length;
      ghost var data := packetData[..index];
      packetData[index] := 0;
      assert packetData[..index] == data;
      var reply := Acknowledge(pass.sum);
      if reply == None { return Hung; }
      if !reply.value { return Refused; }
      packetData[index] := 0;
      assert packetData[..index] == data;
      result := Accepted(index);
    }

    /** Receives a packet into the caller's buffer. */
    method ReceivePacket(packetData: array<Byte>) returns (length: Option<nat>)
      requires packetData.Length > 0
      modifies this, packetData
      ensures match Receive(old(input), packetData.Length)
        case Waiting(naks) => length == None && input == [] && output == old(output) + Copies([NAK], naks)
        case Received(data, rest, naks) =>
          && length == Some(|data|) && input == rest
          && output == old(output) + Copies([NAK], naks) + [ACK]
          && |data| < packetData.Length && packetData[..|data|] == data && packetData[|data|] == 0
    {
      forall i | 0 <= i < packetData.Length { packetData[i] := 0; }
      ghost var naks: nat := 0;
      while true
        invariant Receive(old(input), packetData.Length) == More(Receive(input, packetData.Length), naks)
        invariant output == old(output) + Copies([NAK], naks)
        decreases |input|
      {
        var result := Attempt(packetData);
        if result == Hung { return None; }
        if result.Accepted? { return Some(result.length); }
        assert old(output) + Copies([NAK], naks) + [NAK] == old(output) + Copies([NAK], naks + 1);
        naks := naks + 1;
      }
    }
  }

  datatype Result = Hung | Refused | Accepted(length: nat)

  /** What the check characters make of the data read. */
  function Verdict(data: seq<Byte>, rest: seq<Byte>, size: nat): Reception
    requires size > 0
  {
    if |rest| < 2 then Waiting(0)
    else if HexToUintn(rest[..2]) == CheckSum(data) then Received(data, rest[2..], 0)
    else Later(Receive(rest[2..], size))
  }

  /** How a pass of the character loop ends. */
  datatype Pass = Silent | Again | Read(length: nat, sum: nat)

  function Prepend(data: seq<Byte>, b: Body): Body {
    if b.Ended? then Ended(data + b.data, b.rest) else b
  }

  function AddFrames(s: Sending, n: nat): Sending {
    s.(frames := s.frames + n)
  }

  lemma {:induction false} StringStands(buffer: seq<Byte>)
    requires 0 in buffer
    ensures var s := CString(buffer);
      && |s| < |buffer| && buffer[|s|] == 0
      && forall i | 0 <= i < |s| :: buffer[i] == s[i] && s[i] != 0
  {
    if buffer[0] != 0 { StringStands(buffer[1..]); }
  }

  lemma SentMore(before: seq<Byte>, payload: seq<Byte>, i: nat)
    requires i < |payload|
    ensures before + payload[..i] + [payload[i]] == before + payload[..i + 1]
    ensures CheckSum(payload[..i + 1]) == (CheckSum(payload[..i]) + payload[i]) % 256
  {
    assert payload[..i + 1] == payload[..i] + [payload[i]];
    CheckSumMore(payload[..i], payload[i]);
    Assoc(before, payload[..i], [payload[i]]);
  }
}
