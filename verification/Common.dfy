/** Types shared by the models. */
module Common {
  datatype Option<+T> = None | Some(value: T)

  type Byte = b: int | 0 <= b < 256

  // ------------------------------------------------- 64-bit unsigned integers

  const SPAN64: nat := 0x1_0000_0000_0000_0000

  function Add64(a: nat, b: nat): (r: nat)
    ensures a + b < SPAN64 ==> r == a + b
  {
    (a + b) % SPAN64
  }

  function Sub64(a: nat, b: nat): (r: nat)
    ensures b <= a < SPAN64 ==> r == a - b
    ensures a < b < SPAN64 ==> r == a - b + SPAN64
  {
    (a - b) % SPAN64
  }

  // ---------------------------------------------------------------- sequences

  lemma Assoc<T>(a: seq<T>, b: seq<T>, c: seq<T>)
    ensures a + b + c == a + (b + c)
  {
  }

  /** `all` with `data` written over it at `at`. */
  function Overwrite<T>(all: seq<T>, at: nat, data: seq<T>): seq<T>
    requires at + |data| <= |all|
  {
    all[..at] + data + all[at + |data|..]
  }

  lemma OverwriteMore<T>(all: seq<T>, at: nat, data: seq<T>, more: seq<T>)
    requires at + |data| + |more| <= |all|
    ensures |Overwrite(all, at, data)| == |all|
    ensures Overwrite(Overwrite(all, at, data), at + |data|, more) == Overwrite(all, at, data + more)
  {
  }

  lemma OverwriteNone<T>(all: seq<T>, at: nat)
    requires at <= |all|
    ensures Overwrite(all, at, []) == all
  {
  }

  lemma OverwriteAt<T>(all: seq<T>, at: nat, data: seq<T>, i: nat)
    requires at + |data| <= |all| && i < |all|
    ensures |Overwrite(all, at, data)| == |all|
    ensures Overwrite(all, at, data)[i] == if at <= i < at + |data| then data[i - at] else all[i]
  {
  }

  /** A block copy.  The source is taken as it is before the call, so the two
      ranges may overlap. */
  method CopyMem(destination: array<Byte>, at: nat, source: seq<Byte>)
    requires at + |source| <= destination.Length
    modifies destination
    ensures destination[..] == Overwrite(old(destination[..]), at, source)
  {
    ghost var before := destination[..];
    for i := 0 to |source|
      invariant forall a | 0 <= a < destination.Length ::
        destination[a] == if at <= a < at + i then source[a - at] else before[a]
    {
      destination[at + i] := source[i];
    }
    assert destination[..] == Overwrite(before, at, source);
  }

  // ---------------------------------------------------------------- C strings

  /** The bytes of a C string up to its terminator. */
  function CString(buffer: seq<Byte>): (s: seq<Byte>)
    ensures 0 !in s && |s| <= |buffer| && s == buffer[..|s|]
    ensures |s| < |buffer| ==> buffer[|s|] == 0
  {
    if buffer == [] || buffer[0] == 0 then [] else [buffer[0]] + CString(buffer[1..])
  }

  lemma {:induction false} NulEnds(s: seq<Byte>, tail: seq<Byte>)
    requires 0 !in s
    ensures CString(s + [0] + tail) == s
  {
    var all := s + [0] + tail;
    if s != [] {
      assert s[0] in s;
      NulEnds(s[1..], tail);
      assert all[1..] == s[1..] + [0] + tail;
    }
  }
}
