/** The stored form of the configuration: fields of four kinds laid end to end, little-endian, in the order in
    which versions added them, so that every older layout is a prefix of the newer ones. */
module ConfigCodec {
  import opened Arith

  datatype Kind = U8 | U16 | U32 | I32

  function Size(k: Kind): nat {
    match k
    case U8 => 1
    case U16 => 2
    case U32 => 4
    case I32 => 4
  }

  /** The value fits the variable it is kept in. */
  predicate Fits(k: Kind, v: int) {
    match k
    case U8 => 0 <= v < 0x100
    case U16 => 0 <= v < 0x1_0000
    case U32 => 0 <= v < 0x1_0000_0000
    case I32 => -0x8000_0000 <= v < 0x8000_0000
  }

  // ----- one field -----

  function Bytes2(v: int): seq<Byte> { [v % 0x100, (v / 0x100) % 0x100] }

  function Bytes4(v: int): seq<Byte> {
    [v % 0x100, (v / 0x100) % 0x100, (v / 0x1_0000) % 0x100, (v / 0x100_0000) % 0x100]
  }

  function FieldBytes(k: Kind, v: int): (bytes: seq<Byte>)
    ensures |bytes| == Size(k)
  {
    match k
    case U8 => [v % 0x100]
    case U16 => Bytes2(v)
    case U32 => Bytes4(v)
    case I32 => Bytes4(v)
  }

  function Word(b: seq<Byte>): Word32
    requires |b| >= 4
  {
    (b[0] as int) + 0x100 * (b[1] as int) + 0x1_0000 * (b[2] as int) + 0x100_0000 * (b[3] as int)
  }

  function FieldValue(k: Kind, b: seq<Byte>): int
    requires |b| >= Size(k)
  {
    match k
    case U8 => b[0]
    case U16 => (b[0] as int) + 0x100 * (b[1] as int)
    case U32 => Word(b)
    case I32 => ToInt32(Word(b))
  }

  lemma Digits(v: int)
    ensures v == v % 0x100 + 0x100 * ((v / 0x100) % 0x100) + 0x1_0000 * ((v / 0x1_0000) % 0x100) +
                 0x100_0000 * (v / 0x100_0000)
  {
    assert v / 0x1_0000 == (v / 0x100) / 0x100 && v / 0x100_0000 == (v / 0x1_0000) / 0x100;
  }

  lemma WordOfBytes(v: int)
    ensures Word(Bytes4(v)) == v % 0x1_0000_0000
  {
    Digits(v);
    assert v / 0x100_0000 == 0x100 * (v / 0x1_0000_0000) + (v / 0x100_0000) % 0x100;
  }

  lemma FieldRoundTrip(k: Kind, v: int, tail: seq<Byte>)
    requires Fits(k, v)
    ensures FieldValue(k, FieldBytes(k, v) + tail) == v
  {
    hide Word, Bytes4;
    match k
    case U8 =>
    case U16 =>
    case U32 => WordReads(v, tail);
    case I32 => WordReads(v, tail);
  }

  lemma WordReads(v: int, tail: seq<Byte>)
    ensures Word(Bytes4(v) + tail) == v % 0x1_0000_0000
  {
    hide Word;
    WordOfBytes(v);
    WordOfPrefix(Bytes4(v), tail);
  }

  lemma WordOfPrefix(b: seq<Byte>, tail: seq<Byte>)
    requires |b| == 4
    ensures Word(b + tail) == Word(b)
  {
    assert forall i :: 0 <= i < 4 ==> (b + tail)[i] == b[i];
  }

  /** Changing one byte of a stored word changes its value. */
  lemma WordInjective(b: seq<Byte>, k: nat, x: Byte)
    requires |b| == 4 && k < 4 && x != b[k]
    ensures Word(b[k := x]) != Word(b)
  {
  }

  // ----- a list of fields -----

  function TotalSize(kinds: seq<Kind>): nat
    decreases |kinds|
  {
    if kinds == [] then 0 else Size(kinds[0]) + TotalSize(kinds[1..])
  }

  predicate AllFit(kinds: seq<Kind>, values: seq<int>) {
    |values| == |kinds| && forall i :: 0 <= i < |kinds| ==> Fits(kinds[i], values[i])
  }

  function Encode(kinds: seq<Kind>, values: seq<int>): (bytes: seq<Byte>)
    requires |values| == |kinds|
    ensures |bytes| == TotalSize(kinds)
    decreases |kinds|
  {
    if kinds == [] then [] else FieldBytes(kinds[0], values[0]) + Encode(kinds[1..], values[1..])
  }

  function Decode(kinds: seq<Kind>, bytes: seq<Byte>): (values: seq<int>)
    requires |bytes| >= TotalSize(kinds)
    ensures |values| == |kinds|
    decreases |kinds|
  {
    if kinds == [] then [] else [FieldValue(kinds[0], bytes)] + Decode(kinds[1..], bytes[Size(kinds[0])..])
  }

  /** Fields written one after the other are read back as they were, whatever follows them. */
  lemma {:induction false} RoundTrip(kinds: seq<Kind>, values: seq<int>, tail: seq<Byte>)
    requires AllFit(kinds, values)
    ensures Decode(kinds, Encode(kinds, values) + tail) == values
    decreases |kinds|
  {
    if kinds != [] {
      var first, rest := FieldBytes(kinds[0], values[0]), Encode(kinds[1..], values[1..]);
      assert Encode(kinds, values) + tail == first + (rest + tail);
      FieldRoundTrip(kinds[0], values[0], rest + tail);
      assert (first + (rest + tail))[Size(kinds[0])..] == rest + tail;
      RoundTrip(kinds[1..], values[1..], tail);
    }
  }

  lemma {:induction false} EncodeConcat(a: seq<Kind>, b: seq<Kind>, x: seq<int>, y: seq<int>)
    requires |x| == |a| && |y| == |b|
    ensures Encode(a + b, x + y) == Encode(a, x) + Encode(b, y)
    decreases |a|
  {
    if a == [] {
      assert a + b == b && x + y == y;
    } else {
      assert (a + b)[1..] == a[1..] + b && (x + y)[1..] == x[1..] + y;
      EncodeConcat(a[1..], b, x[1..], y);
    }
  }

  lemma {:induction false} SizeConcat(a: seq<Kind>, b: seq<Kind>)
    ensures TotalSize(a + b) == TotalSize(a) + TotalSize(b)
    decreases |a|
  {
    if a == [] {
      assert a + b == b;
    } else {
      assert (a + b)[1..] == a[1..] + b;
      SizeConcat(a[1..], b);
    }
  }

  /** A prefix of the encoding, cut where the first `n` fields end, decodes to the first `n` values. */
  lemma PrefixDecodes(kinds: seq<Kind>, values: seq<int>, n: nat)
    requires AllFit(kinds, values) && n <= |kinds|
    ensures TotalSize(kinds[..n]) <= TotalSize(kinds)
    ensures Decode(kinds[..n], Encode(kinds, values)[..TotalSize(kinds[..n])]) == values[..n]
  {
    assert kinds == kinds[..n] + kinds[n..] && values == values[..n] + values[n..];
    SizeConcat(kinds[..n], kinds[n..]);
    EncodeConcat(kinds[..n], kinds[n..], values[..n], values[n..]);
    var head := Encode(kinds[..n], values[..n]);
    assert Encode(kinds, values)[..TotalSize(kinds[..n])] == head == head + [];
    RoundTrip(kinds[..n], values[..n], []);
  }

  /** Decoding reads only the bytes of its fields. */
  lemma {:induction false} DecodeIgnoresTail(kinds: seq<Kind>, bytes: seq<Byte>, tail: seq<Byte>)
    requires |bytes| >= TotalSize(kinds)
    ensures Decode(kinds, bytes + tail) == Decode(kinds, bytes)
    decreases |kinds|
  {
    if kinds != [] {
      var n := Size(kinds[0]);
      assert (bytes + tail)[n..] == bytes[n..] + tail;
      DecodeIgnoresTail(kinds[1..], bytes[n..], tail);
    }
  }

  /** The same with anything behind the cut. */
  lemma PrefixDecodesAnyway(kinds: seq<Kind>, values: seq<int>, n: nat, length: nat, payload: seq<Byte>,
                            tail: seq<Byte>)
    requires AllFit(kinds, values) && n <= |kinds| && length == TotalSize(kinds[..n]) &&
             payload == Encode(kinds, values)
    ensures length <= |payload| && Decode(kinds[..n], payload[..length] + tail) == values[..n]
  {
    PrefixDecodes(kinds, values, n);
    DecodeIgnoresTail(kinds[..n], payload[..length], tail);
  }

  /** The buffer holds `bytes` from `at` on and is otherwise as it was. */
  predicate Written(buffer: seq<Byte>, was: seq<Byte>, at: nat, bytes: seq<Byte>) {
    |buffer| == |was| && at + |bytes| <= |was| &&
    buffer[..at] == was[..at] && buffer[at..at + |bytes|] == bytes && buffer[at + |bytes|..] == was[at + |bytes|..]
  }

  /** Writes the fields into a buffer, the cursor moving behind each one. */
  method EncodePayload(kinds: seq<Kind>, values: seq<int>, buffer: array<Byte>, at: nat)
    requires |values| == |kinds| && at + TotalSize(kinds) <= buffer.Length
    modifies buffer
    ensures Written(buffer[..], old(buffer[..]), at, Encode(kinds, values))
  {
    var cursor: nat := at;
    ghost var was := buffer[..];
    assert buffer[at..at] == [];
    for i := 0 to |kinds|
      invariant cursor == at + TotalSize(kinds[..i])
      invariant cursor + TotalSize(kinds[i..]) == at + TotalSize(kinds)
      invariant Written(buffer[..], was, at, Encode(kinds[..i], values[..i]))
    {
      OneMore(kinds, values, i);
      assert kinds[i..][0] == kinds[i] && kinds[i..][1..] == kinds[i + 1..];
      AppendField(kinds[i], values[i], buffer, cursor, was, at, Encode(kinds[..i], values[..i]));
      cursor := cursor + Size(kinds[i]);
    }
    assert kinds[..|kinds|] == kinds && values[..|kinds|] == values;
  }

  method AppendField(k: Kind, v: int, buffer: array<Byte>, cursor: nat, ghost was: seq<Byte>, ghost at: nat,
                     ghost done: seq<Byte>)
    requires Written(buffer[..], was, at, done) && cursor == at + |done| && cursor + Size(k) <= buffer.Length
    modifies buffer
    ensures Written(buffer[..], was, at, done + FieldBytes(k, v))
  {
    ghost var before := buffer[..];
    WriteField(k, v, buffer, cursor);
    Extended(before, buffer[..], was, at, cursor, done, FieldBytes(k, v));
  }

  lemma Extended(before: seq<Byte>, after: seq<Byte>, was: seq<Byte>, at: nat, cursor: nat, done: seq<Byte>,
                 bytes: seq<Byte>)
    requires Written(before, was, at, done) && cursor == at + |done| && Written(after, before, cursor, bytes)
    ensures Written(after, was, at, done + bytes)
  {
    assert after[..at] == after[..cursor][..at] && before[..at] == before[..cursor][..at];
    assert after[at..cursor] == after[..cursor][at..] && before[at..cursor] == before[..cursor][at..];
    assert after[at..cursor + |bytes|] == after[at..cursor] + after[cursor..cursor + |bytes|];
    assert before[cursor + |bytes|..] == before[cursor..][|bytes|..] &&
           was[cursor + |bytes|..] == was[cursor..][|bytes|..];
  }

  lemma OneMore(kinds: seq<Kind>, values: seq<int>, i: nat)
    requires |values| == |kinds| && i < |kinds|
    ensures TotalSize(kinds[..i + 1]) == TotalSize(kinds[..i]) + Size(kinds[i])
    ensures Encode(kinds[..i + 1], values[..i + 1]) == Encode(kinds[..i], values[..i]) + FieldBytes(kinds[i], values[i])
  {
    assert kinds[..i + 1] == kinds[..i] + [kinds[i]] && values[..i + 1] == values[..i] + [values[i]];
    SizeConcat(kinds[..i], [kinds[i]]);
    EncodeConcat(kinds[..i], [kinds[i]], values[..i], [values[i]]);
    assert [kinds[i]][1..] == [] && [values[i]][1..] == [];
    assert Encode([kinds[i]], [values[i]]) == FieldBytes(kinds[i], values[i]) + [];
  }

  lemma OneMoreByte(before: seq<Byte>, after: seq<Byte>, was: seq<Byte>, at: nat, bytes: seq<Byte>, i: nat)
    requires i < |bytes| && at + |bytes| <= |was| && Written(before, was, at, bytes[..i]) &&
             after == before[at + i := bytes[i]]
    ensures Written(after, was, at, bytes[..i + 1])
  {
    assert after[..at] == before[..at];
    assert after[at..at + i + 1] == before[at..at + i] + [bytes[i]] == bytes[..i + 1];
    assert after[at + i + 1..] == before[at + i..][1..] == was[at + i..][1..] == was[at + i + 1..];
  }

  method WriteField(k: Kind, v: int, buffer: array<Byte>, at: nat)
    requires at + Size(k) <= buffer.Length
    modifies buffer
    ensures Written(buffer[..], old(buffer[..]), at, FieldBytes(k, v))
  {
    var bytes := FieldBytes(k, v);
    ghost var was := buffer[..];
    assert buffer[at..at] == bytes[..0];
    for i := 0 to Size(k)
      invariant Written(buffer[..], was, at, bytes[..i])
    {
      ghost var before := buffer[..];
      buffer[at + i] := bytes[i];
      OneMoreByte(before, buffer[..], was, at, bytes, i);
    }
    assert bytes[..Size(k)] == bytes;
  }

  /** Reads fields from a buffer, the cursor moving behind each one. */
  method DecodePayload(kinds: seq<Kind>, bytes: seq<Byte>) returns (values: seq<int>)
    requires |bytes| >= TotalSize(kinds)
    ensures values == Decode(kinds, bytes)
  {
    values := [];
    var cursor: nat := 0;
    for i := 0 to |kinds|
      invariant cursor <= |bytes| && |bytes| - cursor >= TotalSize(kinds[i..])
      invariant values + Decode(kinds[i..], bytes[cursor..]) == Decode(kinds, bytes)
    {
      assert kinds[i..][0] == kinds[i] && kinds[i..][1..] == kinds[i + 1..];
      assert bytes[cursor..][Size(kinds[i])..] == bytes[cursor + Size(kinds[i])..];
      values := values + [FieldValue(kinds[i], bytes[cursor..])];
      cursor := cursor + Size(kinds[i]);
    }
  }
}
