/** Packing an SMBIOS record: the fixed part, then its strings. */
module Smbios {
  import opened Common

  /** The string set as section 6.1.3 of DMTF DSP0134 lays it out: each string
      and its NUL, then one more NUL. */
  function Packed(strings: seq<seq<Byte>>): seq<Byte> {
    if strings == [] then [] else Packed(strings[..|strings| - 1]) + strings[|strings| - 1] + [0]
  }

  function Record(template: seq<Byte>, strings: seq<seq<Byte>>): seq<Byte> {
    template + Packed(strings) + (if strings == [] then [0, 0] else [0])
  }

  /** C strings hold no NUL. */
  predicate CStrings(strings: seq<seq<Byte>>) {
    forall i | 0 <= i < |strings| :: 0 !in strings[i]
  }

  /** A reader of the string set: strings up to the first empty one. */
  function Strings(s: seq<Byte>): seq<seq<Byte>>
    decreases |s|
  {
    var first := CString(s);
    if first == [] || |first| == |s| then [] else [first] + Strings(s[|first| + 1..])
  }

  // ------------------------------------------------------------ the packer

  lemma PackedMore(strings: seq<seq<Byte>>, i: nat)
    requires i < |strings|
    ensures Packed(strings[..i + 1]) == Packed(strings[..i]) + strings[i] + [0]
  {
    assert strings[..i + 1][..i] == strings[..i];
  }

  lemma {:induction false} PackedLength(strings: seq<seq<Byte>>, i: nat)
    requires i <= |strings|
    ensures |Packed(strings[..i])| <= |Packed(strings)|
    decreases |strings| - i
  {
    if i < |strings| {
      PackedLength(strings, i + 1);
      PackedMore(strings, i);
    } else {
      assert strings[..i] == strings;
    }
  }

  /** What follows the fixed part, by the first loop's account. */
  function PackSize(stringPack: Option<seq<seq<Byte>>>): nat {
    match stringPack
    case None => 2
    case Some(strings) => |Packed(strings)| + if strings == [] then 2 else 1
  }

  /** The first loop: the size to allocate. */
  method RecordSize(length: nat, stringPack: Option<seq<seq<Byte>>>) returns (size: nat)
    ensures size == length + PackSize(stringPack)
  {
    size := length;
    if stringPack == None {
      size := size + 2;
      return;
    }
    var strings := stringPack.value;
    for index := 0 to |strings|
      invariant size == length + |Packed(strings[..index])|
    {
      PackedMore(strings, index);
      var stringSize := |strings[index]| + 1;
      size := size + stringSize;
    }
    assert strings[..|strings|] == strings;
    if strings == [] {
      size := size + 1;
    }
    size := size + 1;
  }

  /** One more string with its NUL. */
  lemma StringMore(all: seq<Byte>, start: nat, strings: seq<seq<Byte>>, i: nat)
    requires i < |strings| && start + |Packed(strings)| <= |all|
    ensures var p, q := Packed(strings[..i]), Packed(strings[..i + 1]);
      && |p| + |strings[i]| + 1 == |q| <= |Packed(strings)|
      && |Overwrite(all, start, p)| == |all|
      && Overwrite(Overwrite(all, start, p), start + |p|, strings[i] + [0]) == Overwrite(all, start, q)
  {
    PackedMore(strings, i);
    PackedLength(strings, i + 1);
    Assoc(Packed(strings[..i]), strings[i], [0]);
    OverwriteMore(all, start, Packed(strings[..i]), strings[i] + [0]);
  }

  /** The second loop: each string with its NUL, one after the other. */
  method AppendStrings(record: array<Byte>, start: nat, strings: seq<seq<Byte>>) returns (str: nat)
    requires start + |Packed(strings)| < record.Length
    modifies record
    ensures str == start + |Packed(strings)|
    ensures record[..] == Overwrite(old(record[..]), start, Packed(strings))
  {
    str := start;
    ghost var before := record[..];
    OverwriteNone(before, start);
    for index := 0 to |strings|
      invariant str == start + |Packed(strings[..index])| <= start + |Packed(strings)|
      invariant record[..] == Overwrite(before, start, Packed(strings[..index]))
    {
      StringMore(before, start, strings, index);
      var stringSize := |strings[index]| + 1;
      CopyMem(record, str, strings[index] + [0]);
      str := str + stringSize;
    }
    assert strings[..|strings|] == strings;
  }

  lemma RecordLayout(zeros: seq<Byte>, template: seq<Byte>, strings: seq<seq<Byte>>)
    requires |zeros| == |template| + |Packed(strings)| + if strings == [] then 2 else 1
    requires forall i | 0 <= i < |zeros| :: zeros[i] == 0
    ensures Overwrite(zeros, 0, template + Packed(strings)) == Record(template, strings)
  {
  }

  /** Builds the record.  The second byte of the template is its length.  A NULL
      string pack has a size, but the guard of the second loop reads its first
      element all the same; that such a read gives no result is an assumption. */
  method LogSmbiosData(template: seq<Byte>, stringPack: Option<seq<seq<Byte>>>) returns (result: Option<array<Byte>>)
    requires |template| >= 4 && template[1] == |template|
    ensures result == None <==> stringPack == None
    ensures result != None ==> fresh(result.value) && result.value[..] == Record(template, stringPack.value)
  {
    var size := RecordSize(|template|, stringPack);
    if stringPack == None { return None; }
    var record := BuildRecord(template, stringPack.value, size);
    result := Some(record);
  }

  method BuildRecord(template: seq<Byte>, strings: seq<seq<Byte>>, size: nat) returns (record: array<Byte>)
    requires |template| >= 4 && template[1] == |template| && size == |template| + PackSize(Some(strings))
    ensures fresh(record) && record[..] == Record(template, strings)
  {
    record := new Byte[size](_ => 0);
    ghost var zeros := record[..];
    CopyMem(record, 0, template);
    assert record[1] == record[..][1] == template[1];
    var str := AppendStrings(record, record[1], strings);
    OverwriteMore(zeros, 0, template, Packed(strings));
    RecordLayout(zeros, template, strings);
    assert record[..] == Record(template, strings);
    assert record[..][str] == 0;
    record[str] := 0;
  }

  // ------------------------------------------------------------ round trip

  lemma Regroup(a: seq<Byte>, p: seq<Byte>, x: seq<Byte>)
    ensures a + p + x + [0] == a + (p + x + [0])
  {
  }

  lemma PackedOne(first: seq<Byte>)
    ensures Packed([first]) == first + [0] + Packed([])
  {
    assert [first][..0] == [];
    assert Packed([first]) == [] + first + [0];
  }

  lemma ConsSplits<T>(first: T, rest: seq<T>)
    requires rest != []
    ensures ([first] + rest)[..|rest|] == [first] + rest[..|rest| - 1]
    ensures ([first] + rest)[|rest|] == rest[|rest| - 1]
  {
  }

  lemma {:induction false} PackedCons(first: seq<Byte>, rest: seq<seq<Byte>>)
    ensures Packed([first] + rest) == first + [0] + Packed(rest)
  {
    if rest == [] {
      PackedOne(first);
      assert [first] + rest == [first];
    } else {
      var init, last := rest[..|rest| - 1], rest[|rest| - 1];
      PackedCons(first, init);
      ConsSplits(first, rest);
      Regroup(first + [0], Packed(init), last);
    }
  }

  /** What a reader gets: the strings up to the first empty one. */
  function UpToEmpty(strings: seq<seq<Byte>>): seq<seq<Byte>> {
    if strings == [] || strings[0] == [] then [] else [strings[0]] + UpToEmpty(strings[1..])
  }

  lemma {:induction false} ReadsUpToEmpty(strings: seq<seq<Byte>>, tail: seq<Byte>)
    requires CStrings(strings)
    ensures Strings(Packed(strings) + [0] + tail) == UpToEmpty(strings)
  {
    if strings == [] {
      assert Packed(strings) + [0] + tail == [] + [0] + tail;
      NulEnds([], tail);
    } else {
      var rest := Packed(strings[1..]) + [0] + tail;
      PackedCons(strings[0], strings[1..]);
      assert [strings[0]] + strings[1..] == strings;
      assert Packed(strings) + [0] + tail == strings[0] + [0] + rest;
      NulEnds(strings[0], rest);
      ReadsUpToEmpty(strings[1..], tail);
      assert (strings[0] + [0] + rest)[|strings[0]| + 1..] == rest;
    }
  }

  lemma {:induction false} AllWhenNoneEmpty(strings: seq<seq<Byte>>)
    ensures UpToEmpty(strings) == strings <==> forall i | 0 <= i < |strings| :: strings[i] != []
  {
    if strings != [] && strings[0] != [] {
      AllWhenNoneEmpty(strings[1..]);
      assert [strings[0]] + strings[1..] == strings;
      if UpToEmpty(strings) == strings {
        assert UpToEmpty(strings[1..]) == UpToEmpty(strings)[1..];
      }
      if forall i | 0 <= i < |strings| :: strings[i] != [] {
        assert forall i | 0 <= i < |strings[1..]| :: strings[1..][i] == strings[i + 1];
      }
    }
  }

  /** How far a reader has to go for the next record: past the first two NULs. */
  function EndOfSet(s: seq<Byte>): nat {
    if |s| < 2 then |s| else if s[0] == 0 && s[1] == 0 then 2 else 1 + EndOfSet(s[1..])
  }

  lemma {:induction false} PastString(first: seq<Byte>, rest: seq<Byte>)
    requires 0 !in first && rest != []
    ensures EndOfSet(first + [0] + rest) == |first| + if rest[0] == 0 then 2 else 1 + EndOfSet(rest)
  {
    var s := first + [0] + rest;
    if first == [] {
      assert s[0] == 0 && s[1..] == rest;
    } else {
      assert first[0] in first && s[1..] == first[1..] + [0] + rest;
      PastString(first[1..], rest);
    }
  }

  /** What follows the fixed part. */
  function StringSet(strings: seq<seq<Byte>>): seq<Byte> {
    Packed(strings) + if strings == [] then [0, 0] else [0]
  }

  lemma SetCons(first: seq<Byte>, rest: seq<seq<Byte>>)
    ensures StringSet([first] + rest) == first + [0] + if rest == [] then [0] else StringSet(rest)
  {
    PackedCons(first, rest);
    Assoc(first + [0], Packed(rest), [0]);
  }

  lemma SetStart(strings: seq<seq<Byte>>)
    requires CStrings(strings)
    ensures |StringSet(strings)| >= 2 && (StringSet(strings)[0] == 0 <==> strings == [] || strings[0] == [])
  {
    if strings != [] {
      SetCons(strings[0], strings[1..]);
      assert [strings[0]] + strings[1..] == strings;
      if strings[0] != [] { assert StringSet(strings)[0] == strings[0][0] && strings[0][0] in strings[0]; }
    }
  }

  /** The reader finds the end of the record at its last byte exactly when no
      string but the first is empty. */
  lemma {:induction false} EndsExactly(strings: seq<seq<Byte>>)
    requires CStrings(strings)
    ensures EndOfSet(StringSet(strings)) == |StringSet(strings)| <==> forall i | 1 <= i < |strings| :: strings[i] != []
  {
    if strings != [] {
      var first, rest := strings[0], strings[1..];
      assert [first] + rest == strings;
      SetCons(first, rest);
      if rest == [] {
        PastString(first, [0]);
      } else {
        SetStart(rest);
        PastString(first, StringSet(rest));
        EndsExactly(rest);
        assert strings[1] == rest[0];
        assert forall i | 1 <= i < |rest| :: rest[i] == strings[i + 1];
        RestNonempty(strings);
      }
    }
  }

  lemma RestNonempty(strings: seq<seq<Byte>>)
    requires |strings| > 1
    ensures (forall i | 1 <= i < |strings| :: strings[i] != []) <==>
      strings[1..][0] != [] && forall i | 1 <= i < |strings[1..]| :: strings[1..][i] != []
  {
    var rest := strings[1..];
    if rest[0] != [] && forall i | 1 <= i < |rest| :: rest[i] != [] {
      forall i | 1 <= i < |strings| ensures strings[i] != [] { assert strings[i] == rest[i - 1]; }
    }
    if forall i | 1 <= i < |strings| :: strings[i] != [] {
      forall i | 0 <= i < |rest| ensures rest[i] != [] { assert rest[i] == strings[i + 1]; }
    }
  }

  /** The record ends in two NULs, and reading the strings after the fixed part
      gives the original list back exactly when none of them is empty. */
  lemma RoundTripExactly(template: seq<Byte>, strings: seq<seq<Byte>>)
    requires CStrings(strings)
    ensures var r := Record(template, strings);
      && r[|template|..] == StringSet(strings)
      && |r| >= |template| + 2 && r[|r| - 1] == 0 && r[|r| - 2] == 0 && r[..|template|] == template
      && (Strings(r[|template|..]) == strings <==> forall i | 0 <= i < |strings| :: strings[i] != [])
  {
    var r := Record(template, strings);
    var tail := if strings == [] then [0] else [];
    assert r[|template|..] == Packed(strings) + [0] + tail;
    ReadsUpToEmpty(strings, tail);
    AllWhenNoneEmpty(strings);
  }
}
