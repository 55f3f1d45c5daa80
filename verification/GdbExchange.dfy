/** Sender, receiver and a line that damages packets, together. */
module GdbExchange {
  import opened Common
  import opened GdbPacket
  import opened GdbLink

  /** A payload the stub can send and a buffer of `size` bytes can take. */
  predicate Sendable(payload: seq<Byte>, size: nat) {
    Plain(payload) && 0 !in payload && |payload| + 2 <= size
  }

  function Clean(payload: seq<Byte>): Attempt {
    Attempt([], [], payload, Hex2(CheckSum(payload)))
  }

  lemma CleanIsFrame(payload: seq<Byte>, size: nat)
    requires Sendable(payload, size)
    ensures Shaped(Clean(payload), size) && Good(Clean(payload))
    ensures Render(Clean(payload), size) == Frame(payload)
  {
    Hex2Decodes(CheckSum(payload));
  }

  /** Whatever noise and abandoned fragments come before it, a frame is received
      as its payload alone, with no '-' sent. */
  lemma Resynchronises(noise: seq<Byte>, fragments: seq<seq<Byte>>, payload: seq<Byte>, rest: seq<Byte>, size: nat)
    requires DOLLAR !in noise && Sendable(payload, size)
    requires forall i | 0 <= i < |fragments| :: Plain(fragments[i]) && |fragments[i]| < size - 1
    ensures Receive(noise + [DOLLAR] + Cuts(fragments) + Frame(payload)[1..] + rest, size)
         == Received(payload, rest, 0)
  {
    var a := Attempt(noise, fragments, payload, Hex2(CheckSum(payload)));
    Hex2Decodes(CheckSum(payload));
    AttemptOutcome(a, rest, size);
    assert Frame(payload)[1..] == payload + [HASH] + Hex2(CheckSum(payload));
    RegroupFrame(noise + [DOLLAR] + Cuts(fragments), payload, [HASH], Hex2(CheckSum(payload)));
  }

  lemma RegroupFrame(head: seq<Byte>, data: seq<Byte>, hash: seq<Byte>, check: seq<Byte>)
    ensures head + data + hash + check == head + (data + hash + check)
  {
  }

  /** A frame after the line has damaged it: still '$', data, '#' and two
      characters, without a stray '$' or '#', but failing the checksum. */
  predicate Damaged(a: Attempt, size: nat) {
    a.noise == [] && a.fragments == [] && |a.data| + 2 <= size && Shaped(a, size) && !Good(a)
  }

  function Naks(n: nat): seq<Byte> {
    Copies([NAK], n)
  }

  lemma {:induction false} SendNaks(n: nat, more: seq<Byte>, retries: nat)
    requires n <= retries
    ensures Send(Naks(n) + more, retries) == AddFrames(Send(more, retries - n), n)
  {
    if n == 0 {
      assert Naks(0) + more == more;
    } else {
      CopiesMore([NAK], n - 1);
      assert (Naks(n) + more)[1..] == Naks(n - 1) + more;
      SendNaks(n - 1, more, retries - 1);
    }
  }

  lemma OnlyNaks(n: nat, retries: nat)
    requires n <= retries
    ensures Send(Naks(n), retries) == AddFrames(Send([], retries - n), n)
  {
    SendNaks(n, [], retries);
    assert Naks(n) + [] == Naks(n);
  }

  lemma AllRefused(attempts: seq<Attempt>, size: nat)
    requires size > 0 && Failures(attempts, size)
    ensures Receive(RenderAll(attempts, size), size) == Waiting(|attempts|)
  {
    AfterFailures(attempts, [], size);
    assert RenderAll(attempts, size) + [] == RenderAll(attempts, size);
  }

  /** After the first `j` damaged frames the receiver has sent `j` times '-' and
      nothing else, and a sender that has seen just that has sent j + 1 frames:
      each side has done exactly what the other's next step needs. */
  lemma LockStep(damaged: seq<Attempt>, j: nat, size: nat, retries: nat)
    requires size > 0 && forall i | 0 <= i < |damaged| :: Damaged(damaged[i], size)
    requires j <= |damaged| && j < retries
    ensures Receive(RenderAll(damaged[..j], size), size) == Waiting(j)
    ensures Send(Naks(j), retries) == Sending(j + 1, [], false)
  {
    AllRefused(damaged[..j], size);
    OnlyNaks(j, retries);
  }

  /** When the frame after |damaged| damaged ones comes through intact, the
      receiver returns the payload, once, and the sender, seeing the receiver's
      replies, has sent |damaged| + 1 identical frames and is done. */
  lemma DeliveredOnce(damaged: seq<Attempt>, payload: seq<Byte>, size: nat, retries: nat)
    requires Sendable(payload, size)
    requires forall i | 0 <= i < |damaged| :: Damaged(damaged[i], size)
    requires |damaged| < retries
    ensures Receive(RenderAll(damaged, size) + Frame(payload), size) == Received(payload, [], |damaged|)
    ensures Send(Naks(|damaged|) + [ACK], retries) == Sending(|damaged| + 1, [], true)
  {
    var a := Clean(payload);
    CleanIsFrame(payload, size);
    AfterFailures(damaged, Frame(payload), size);
    AttemptOutcome(a, [], size);
    assert Render(a, size) + [] == Frame(payload);
    SendNaks(|damaged|, [ACK], retries);
  }

  // ------------------------------------------------------------ the exchange

  /** What arrives when a frame is sent; frames are numbered from 0. */
  type Line = (nat, seq<Byte>) -> seq<Byte>

  /** Sender and receiver with the line between them: the frames sent, as a
      number and as bytes, what the line has delivered, and the replies. */
  datatype Session = Session(frames: nat, emitted: seq<Byte>, delivered: seq<Byte>, replies: seq<Byte>)

  /** What the receiver has sent back when it has come to this. */
  function Replies(r: Reception): seq<Byte> {
    Naks(r.naks) + if r.Received? then [ACK] else []
  }

  /** The sender, if the replies it has seen call for one more frame, sends it,
      the line delivers something, and the receiver reads on and replies. */
  function Turn(s: Session, frame: seq<Byte>, size: nat, retries: nat, line: Line): Session
    requires size > 0
  {
    if Send(s.replies, retries).frames <= s.frames then s
    else
      var delivered := s.delivered + line(s.frames, frame);
      Session(s.frames + 1, s.emitted + frame, delivered, Replies(Receive(delivered, size)))
  }

  function Exchange(frame: seq<Byte>, size: nat, retries: nat, line: Line, turns: nat): Session
    requires size > 0
  {
    if turns == 0 then Session(0, [], [], [])
    else Turn(Exchange(frame, size, retries, line, turns - 1), frame, size, retries, line)
  }

  /** The line damages the first frames, into these. */
  ghost predicate Damages(line: Line, frame: seq<Byte>, damaged: seq<Attempt>, size: nat) {
    forall i | 0 <= i < |damaged| ::
      Damaged(damaged[i], size) && line(i, frame) == Render(damaged[i], size)
  }

  lemma {:induction false} RenderAllMore(attempts: seq<Attempt>, a: Attempt, size: nat)
    ensures RenderAll(attempts + [a], size) == RenderAll(attempts, size) + Render(a, size)
  {
    if attempts == [] {
      assert attempts + [a] == [a] && [a][1..] == [];
      assert RenderAll([a], size) == Render(a, size) + [];
    } else {
      assert (attempts + [a])[1..] == attempts[1..] + [a];
      RenderAllMore(attempts[1..], a, size);
      Assoc(Render(attempts[0], size), RenderAll(attempts[1..], size), Render(a, size));
    }
  }

  /** The exchange after n turns, all of whose frames were damaged. */
  function Struggling(frame: seq<Byte>, damaged: seq<Attempt>, size: nat, n: nat): Session
    requires n <= |damaged|
  {
    Session(n, Copies(frame, n), RenderAll(damaged[..n], size), Naks(n))
  }

  lemma DamagedTurn(frame: seq<Byte>, size: nat, retries: nat, line: Line, damaged: seq<Attempt>, n: nat)
    requires size > 0 && Damages(line, frame, damaged, size) && 0 < n <= |damaged| && n <= retries
    ensures Turn(Struggling(frame, damaged, size, n - 1), frame, size, retries, line)
         == Struggling(frame, damaged, size, n)
  {
    LockStep(damaged, n - 1, size, retries);
    DamagedSoFar(damaged, size, n);
    RefusedTurn(Struggling(frame, damaged, size, n - 1), frame, size, retries, line, Render(damaged[n - 1], size), n);
  }

  lemma DamagedSoFar(damaged: seq<Attempt>, size: nat, n: nat)
    requires size > 0 && 0 < n <= |damaged| && forall i | 0 <= i < |damaged| :: Damaged(damaged[i], size)
    ensures RenderAll(damaged[..n], size) == RenderAll(damaged[..n - 1], size) + Render(damaged[n - 1], size)
    ensures Receive(RenderAll(damaged[..n], size), size) == Waiting(n)
  {
    RenderAllMore(damaged[..n - 1], damaged[n - 1], size);
    assert damaged[..n - 1] + [damaged[n - 1]] == damaged[..n];
    AllRefused(damaged[..n], size);
  }

  /** A turn in which what arrives leaves the receiver waiting. */
  lemma RefusedTurn(s: Session, frame: seq<Byte>, size: nat, retries: nat, line: Line, arrived: seq<Byte>, k: nat)
    requires size > 0 && Send(s.replies, retries).frames > s.frames && line(s.frames, frame) == arrived
    requires Receive(s.delivered + arrived, size) == Waiting(k)
    ensures Turn(s, frame, size, retries, line)
         == Session(s.frames + 1, s.emitted + frame, s.delivered + arrived, Naks(k))
  {
    assert Naks(k) + [] == Naks(k);
  }

  lemma StrugglesFromStart(frame: seq<Byte>, damaged: seq<Attempt>, size: nat)
    ensures Struggling(frame, damaged, size, 0) == Session(0, [], [], [])
  {
    assert damaged[..0] == [];
  }

  lemma StruggleNext(frame: seq<Byte>, size: nat, retries: nat, line: Line, damaged: seq<Attempt>, n: nat)
    requires size > 0 && Damages(line, frame, damaged, size) && 0 < n <= |damaged| && n <= retries
    requires Exchange(frame, size, retries, line, n - 1) == Struggling(frame, damaged, size, n - 1)
    ensures Exchange(frame, size, retries, line, n) == Struggling(frame, damaged, size, n)
  {
    DamagedTurn(frame, size, retries, line, damaged, n);
  }

  lemma {:induction false} ExchangeStruggles(frame: seq<Byte>, size: nat, retries: nat, line: Line,
                                             damaged: seq<Attempt>, n: nat)
    requires size > 0 && Damages(line, frame, damaged, size) && n <= |damaged| && n <= retries
    ensures Exchange(frame, size, retries, line, n) == Struggling(frame, damaged, size, n)
  {
    if n == 0 {
      StrugglesFromStart(frame, damaged, size);
    } else {
      ExchangeStruggles(frame, size, retries, line, damaged, n - 1);
      StruggleNext(frame, size, retries, line, damaged, n);
    }
  }

  /** A session in which the sender has nothing more to send stays as it is. */
  lemma {:induction false} ExchangeRests(frame: seq<Byte>, size: nat, retries: nat, line: Line, n: nat, m: nat)
    requires size > 0 && n <= m
    requires var s := Exchange(frame, size, retries, line, n); Send(s.replies, retries).frames <= s.frames
    ensures Exchange(frame, size, retries, line, m) == Exchange(frame, size, retries, line, n)
  {
    if n < m { ExchangeRests(frame, size, retries, line, n, m - 1); }
  }

  /** The frame after |damaged| damaged ones gets through, and the retry limit
      allows it.  Then the exchange comes to rest after that frame: the sender
      has sent |damaged| + 1 identical frames and returns the payload's length,
      the receiver has returned the payload, once, and nothing is left over. */
  lemma ExchangeDelivers(payload: seq<Byte>, size: nat, retries: nat, line: Line, damaged: seq<Attempt>, turns: nat)
    requires Sendable(payload, size) && Damages(line, Frame(payload), damaged, size) && |damaged| < retries
    requires line(|damaged|, Frame(payload)) == Frame(payload) && turns > |damaged|
    ensures var s := Exchange(Frame(payload), size, retries, line, turns);
      && s.frames == |damaged| + 1 && s.emitted == Copies(Frame(payload), |damaged| + 1)
      && Receive(s.delivered, size) == Received(payload, [], |damaged|)
      && s.replies == Naks(|damaged|) + [ACK]
      && Send(s.replies, retries) == Sending(|damaged| + 1, [], true)
      && ReturnValue(Send(s.replies, retries), payload) == Some(|payload|)
  {
    var d := |damaged|;
    ExchangeStruggles(Frame(payload), size, retries, line, damaged, d);
    assert damaged[..d] == damaged;
    LockStep(damaged, d, size, retries);
    DeliveredOnce(damaged, payload, size, retries);
    assert Exchange(Frame(payload), size, retries, line, d + 1).replies == Naks(d) + [ACK];
    ExchangeRests(Frame(payload), size, retries, line, d + 1, turns);
  }

  /** If the line damages as many frames as the sender has tries, it gives up:
      the receiver has returned nothing.  The sender's return value is the same
      as on success, unless it had no tries at all. */
  lemma ExchangeGivesUp(payload: seq<Byte>, size: nat, retries: nat, line: Line, damaged: seq<Attempt>, turns: nat)
    requires size > 0 && Damages(line, Frame(payload), damaged, size) && |damaged| == retries && turns >= retries
    ensures var s := Exchange(Frame(payload), size, retries, line, turns);
      && s.frames == retries && s.emitted == Copies(Frame(payload), retries)
      && Receive(s.delivered, size) == Waiting(retries)
      && Send(s.replies, retries) == Sending(retries, [], true)
      && ReturnValue(Send(s.replies, retries), payload) == Some(if retries == 0 then 0 else |payload|)
  {
    ExchangeStruggles(Frame(payload), size, retries, line, damaged, retries);
    assert damaged[..retries] == damaged;
    AllRefused(damaged, size);
    OnlyNaks(retries, retries);
    ExchangeRests(Frame(payload), size, retries, line, retries, turns);
  }

  // --------------------------------------------------------- binary escapes

  predicate Special(c: Byte) {
    c == 0x7D || c == 0x23 || c == 0x24 || c == 0x2A
  }

  /** Exclusive or with 0x20. */
  function Flip(c: Byte): Byte {
    if (c / 32) % 2 == 1 then c - 32 else c + 32
  }

  function Escape(s: seq<Byte>): seq<Byte> {
    if s == [] then []
    else (if Special(s[0]) then [0x7D, Flip(s[0])] else [s[0]]) + Escape(s[1..])
  }

  function Unescape(s: seq<Byte>): seq<Byte> {
    if s == [] then []
    else if s[0] == 0x7D && |s| > 1 then [Flip(s[1])] + Unescape(s[2..])
    else [s[0]] + Unescape(s[1..])
  }

  lemma UnescapeCons(c: Byte, rest: seq<Byte>)
    ensures Unescape((if Special(c) then [0x7D, Flip(c)] else [c]) + rest) == [c] + Unescape(rest)
  {
    if Special(c) {
      assert ([0x7D, Flip(c)] + rest)[2..] == rest;
    } else {
      assert ([c] + rest)[1..] == rest;
    }
  }

  /** Escaping is undone by unescaping. */
  lemma {:induction false} EscapeRoundTrip(s: seq<Byte>)
    ensures Unescape(Escape(s)) == s
  {
    if s != [] {
      EscapeRoundTrip(s[1..]);
      UnescapeCons(s[0], Escape(s[1..]));
      assert s == [s[0]] + s[1..];
    }
  }

  /** An escaped text holds no '#', '$' or '*', and a NUL only if the text does. */
  lemma {:induction false} EscapeIsTame(s: seq<Byte>)
    ensures forall c | c in Escape(s) :: c != 0x23 && c != 0x24 && c != 0x2A && (c == 0 ==> 0 in s)
  {
    if s != [] {
      EscapeIsTame(s[1..]);
      assert 0 in s[1..] ==> 0 in s;
    }
  }

  lemma {:induction false} EscapeSnoc(s: seq<Byte>, c: Byte)
    ensures Escape(s + [c]) == Escape(s) + Escape([c])
  {
    if s == [] {
      assert s + [c] == [c];
    } else {
      assert (s + [c])[1..] == s[1..] + [c];
      EscapeSnoc(s[1..], c);
    }
  }

  /** The four escaped bytes, as they are sent; every other byte is sent as it is. */
  lemma EscapeExactly(c: Byte)
    ensures Escape([c]) ==
      if c == 0x7D then [0x7D, 0x5D] else if c == 0x23 then [0x7D, 0x03]
      else if c == 0x24 then [0x7D, 0x04] else if c == 0x2A then [0x7D, 0x0A] else [c]
  {
    assert [c][1..] == [];
  }

  /** And a text is escaped byte by byte. */
  lemma {:induction false} EscapesAppend(s: seq<Byte>, t: seq<Byte>)
    ensures Escape(s + t) == Escape(s) + Escape(t)
  {
    if t == [] {
      assert s + t == s;
    } else {
      var m := |t| - 1;
      EscapesAppend(s, t[..m]);
      EscapeSnoc(s + t[..m], t[m]);
      EscapeSnoc(t[..m], t[m]);
      assert s + t == (s + t[..m]) + [t[m]] && t == t[..m] + [t[m]];
    }
  }

  /** An escaped text that fits is framed, received and unescaped unchanged. */
  lemma EscapedDelivery(s: seq<Byte>, rest: seq<Byte>, size: nat)
    requires 0 !in s && |Escape(s)| + 2 <= size
    ensures Receive(Frame(Escape(s)) + rest, size) == Received(Escape(s), rest, 0)
    ensures Unescape(Escape(s)) == s
  {
    EscapeRoundTrip(s);
    EscapeIsTame(s);
    CleanIsFrame(Escape(s), size);
    AttemptOutcome(Clean(Escape(s)), rest, size);
  }

  /** The encoding loop of the qXfer answer and the NUL after it.  None when it
      would write past the buffer. */
  method EncodeInto(outBuffer: array<Byte>, str: seq<Byte>) returns (count: Option<nat>)
    modifies outBuffer
    ensures count == None <==> |Escape(str)| >= outBuffer.Length
    ensures count.Some? ==> count.value == |str| + 1
    ensures count.Some? ==> outBuffer[..|Escape(str)|] == Escape(str) && outBuffer[|Escape(str)|] == 0
  {
    var out: nat := 0;
    var i: nat := 0;
    while i < |str|
      invariant i <= |str|
      invariant out == |Escape(str[..i])| <= outBuffer.Length && out + |Escape(str[i..])| == |Escape(str)|
      invariant outBuffer[..out] == Escape(str[..i])
    {
      EscapeNext(str, i);
      out := PutEscaped(outBuffer, out, str[i]);
      if out > outBuffer.Length { return None; }
      i := i + 1;
    }
    assert str[..i] == str;
    if out == outBuffer.Length { return None; }
    outBuffer[out] := 0;
    count := Some(i + 1);
  }

  lemma EscapeNext(s: seq<Byte>, i: nat)
    requires i < |s|
    ensures Escape(s[..i + 1]) == Escape(s[..i]) + Escape([s[i]])
    ensures |Escape(s[i..])| == |Escape([s[i]])| + |Escape(s[i + 1..])|
  {
    assert s[..i + 1] == s[..i] + [s[i]] && s[i..][1..] == s[i + 1..] && [s[i]][1..] == [];
    EscapeSnoc(s[..i], s[i]);
  }

  /** One character, escaped if need be; `next` is past the buffer if it did not
      fit. */
  method PutEscaped(outBuffer: array<Byte>, out: nat, b: Byte) returns (next: nat)
    requires out <= outBuffer.Length
    modifies outBuffer
    ensures next == out + |Escape([b])|
    ensures next <= outBuffer.Length ==> outBuffer[..next] == old(outBuffer[..out]) + Escape([b])
  {
    assert [b][1..] == [];
    var c := b;
    next := out;
    if c == 0x7D || c == 0x23 || c == 0x24 || c == 0x2A {
      if next < outBuffer.Length { outBuffer[next] := 0x7D; }
      next := next + 1;
      c := Flip(c);
    }
    if next < outBuffer.Length { outBuffer[next] := c; }
    next := next + 1;
  }

  /** Answers a qXfer read.  The response type is not part of what is sent: the
      data is written over it.  An escaped text that leaves no place for its NUL
      overruns the buffer; then `count` is None and nothing is said of what
      follows. */
  method XferObjectReadResponse(port: Port, outBuffer: array<Byte>, kind: Byte, str: seq<Byte>, retries: nat)
      returns (count: Option<nat>, sent: Option<nat>)
    requires 0 !in str && outBuffer.Length > 0
    modifies port, outBuffer
    ensures count == None <==> |Escape(str)| >= outBuffer.Length
    ensures count.Some? ==> count.value == |str| + 1
    ensures count.Some? ==> var s := Send(old(port.input), retries);
      && port.input == s.rest && port.output == old(port.output) + Copies(Frame(Escape(str)), s.frames)
      && sent == ReturnValue(s, Escape(str))
  {
    outBuffer[0] := kind;
    count := EncodeInto(outBuffer, str);
    if count == None { return None, None; }
    EscapeIsTame(str);
    TerminatedString(outBuffer[..], Escape(str));
    sent := port.SendPacket(outBuffer[..], retries);
  }

  lemma TerminatedString(buffer: seq<Byte>, s: seq<Byte>)
    requires 0 !in s && |s| < |buffer| && buffer[..|s|] == s && buffer[|s|] == 0
    ensures CString(buffer) == s && 0 in buffer
  {
    NulEnds(s, buffer[|s| + 1..]);
    assert buffer == s + [0] + buffer[|s| + 1..];
  }
}
