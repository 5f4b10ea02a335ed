/** A fixed-layout record written into a buffer as a list of fields: a
    string of bytes, a little-endian word or a little-endian double word at
    an offset. The fields are stored one after the other, as a run of
    `struct.pack_into` calls or of slice assignments of packed values does. */
module Layout {
  import opened PyInt
  import opened Bytes

  /** `pack_into("2s", .., offset, bytes)`, `pack_into("<H", .., offset, value)`
      and `pack_into("<L", .., offset, value)`. */
  datatype Field =
    | Str(offset: nat, bytes: seq<byte>)
    | Word(offset: nat, value: int)
    | Dword(offset: nat, value: int)

  /** The number of bytes a field occupies. */
  function Width(f: Field): nat
  {
    match f
    case Str(_, b) => |b|
    case Word(_, _) => 2
    case Dword(_, _) => 4
  }

  /** One past the last byte a field occupies. */
  function End(f: Field): nat
  {
    f.offset + Width(f)
  }

  predicate Covers(f: Field, i: int)
  {
    f.offset <= i < End(f)
  }

  /** `struct` packs the value: it fits the field's width. */
  predicate InRange(f: Field)
  {
    match f
    case Str(_, _) => true
    case Word(_, v) => IsU16(v)
    case Dword(_, v) => IsU32(v)
  }

  /** A word packs exactly when it is in 16 bits, a double word exactly when
      it is in 32 bits; a string always packs. */
  lemma InRangeBounds(f: Field)
    ensures InRange(f) <==> (f.Word? ==> 0 <= f.value < 0x1_0000) && (f.Dword? ==> 0 <= f.value < 0x1_0000_0000)
  {
  }

  /** The bytes `struct` packs for a field. */
  function Packed(f: Field): (b: seq<byte>)
    requires InRange(f)
    ensures |b| == Width(f)
  {
    match f
    case Str(_, b) => b
    case Word(_, v) => LE16(v)
    case Dword(_, v) => LE32(v)
  }

  /** A packed field reads back as what was packed: the string itself, or
      the value, low byte first. */
  lemma PackedReadsBack(f: Field)
    requires InRange(f)
    ensures f.Str? ==> Packed(f) == f.bytes
    ensures f.Word? ==> U16At(Packed(f), 0) == f.value
    ensures f.Dword? ==> U32At(Packed(f), 0) == f.value
  {
    match f
    case Str(_, _) =>
    case Word(_, v) => LE16Value(v);
    case Dword(_, v) => LE32Value(v);
  }

  /** Every field can be packed and lies inside a buffer of `n` bytes. */
  predicate Fits(fs: seq<Field>, n: nat)
  {
    forall k :: 0 <= k < |fs| ==> InRange(fs[k]) && End(fs[k]) <= n
  }

  /** Each field ends at or before the next one starts. */
  predicate Ascending(fs: seq<Field>)
  {
    forall k :: 0 <= k < |fs| - 1 ==> End(fs[k]) <= fs[k + 1].offset
  }

  /** `s` with the fields stored in order, the first one first. A field
      that cannot be packed or does not fit is not stored; the encoders only
      store fields that fit (see `Fits`). */
  function Fill(s: seq<byte>, fs: seq<Field>): (r: seq<byte>)
    ensures |r| == |s|
    decreases |fs|
  {
    if fs == [] then s
    else if InRange(fs[0]) && End(fs[0]) <= |s| then Fill(Poke(s, fs[0].offset, Packed(fs[0])), fs[1..])
    else Fill(s, fs[1..])
  }

  /** In an ascending list, every field ends before any later field starts. */
  lemma {:induction false} AscendingApart(fs: seq<Field>, j: nat, k: nat)
    requires Ascending(fs) && j < k < |fs|
    ensures End(fs[j]) <= fs[k].offset
    decreases k - j
  {
    if j + 1 < k {
      AscendingApart(fs, j + 1, k);
    }
  }

  /** A byte no field covers keeps its value. */
  lemma {:induction false} FillOutside(s: seq<byte>, fs: seq<Field>, i: nat)
    requires i < |s|
    requires forall k :: 0 <= k < |fs| ==> !Covers(fs[k], i)
    ensures Fill(s, fs)[i] == s[i]
    decreases |fs|
  {
    if fs != [] {
      assert forall k :: 0 <= k < |fs| - 1 ==> fs[1..][k] == fs[k + 1];
      if InRange(fs[0]) && End(fs[0]) <= |s| {
        PokeAt(s, fs[0].offset, Packed(fs[0]));
        FillOutside(Poke(s, fs[0].offset, Packed(fs[0])), fs[1..], i);
      } else {
        FillOutside(s, fs[1..], i);
      }
    }
  }

  /** A byte inside a field holds that field's byte: no later field of an
      ascending list overwrites it. */
  lemma {:induction false} FillInside(s: seq<byte>, fs: seq<Field>, k: nat, i: nat)
    requires Fits(fs, |s|) && Ascending(fs)
    requires k < |fs| && Covers(fs[k], i)
    ensures i < |s| && Fill(s, fs)[i] == Packed(fs[k])[i - fs[k].offset]
    decreases |fs|
  {
    var t := Poke(s, fs[0].offset, Packed(fs[0]));
    var rest := fs[1..];
    assert forall j :: 0 <= j < |rest| ==> rest[j] == fs[j + 1];
    if k == 0 {
      forall j | 0 <= j < |rest|
        ensures !Covers(rest[j], i)
      {
        AscendingApart(fs, 0, j + 1);
      }
      PokeAt(s, fs[0].offset, Packed(fs[0]));
      FillOutside(t, rest, i);
    } else {
      assert Fits(rest, |t|) && Ascending(rest);
      FillInside(t, rest, k - 1, i);
    }
  }

  /** Each field of an ascending list reads back whole. */
  lemma FillSlice(s: seq<byte>, fs: seq<Field>, k: nat)
    requires Fits(fs, |s|) && Ascending(fs) && k < |fs|
    ensures End(fs[k]) <= |s| && Fill(s, fs)[fs[k].offset..End(fs[k])] == Packed(fs[k])
  {
    var f, r := fs[k], Fill(s, fs);
    assert InRange(f) && End(f) <= |s|;
    forall j | 0 <= j < Width(f)
      ensures r[f.offset + j] == Packed(f)[j]
    {
      FillInside(s, fs, k, f.offset + j);
    }
    assert r[f.offset..End(f)] == Packed(f);
  }

  /** A stored word reads back as its value. */
  lemma FillWord(s: seq<byte>, fs: seq<Field>, k: nat)
    requires Fits(fs, |s|) && Ascending(fs) && k < |fs| && fs[k].Word?
    ensures End(fs[k]) <= |s| && U16At(Fill(s, fs), fs[k].offset) == fs[k].value
  {
    FillSlice(s, fs, k);
    U16Slice(Fill(s, fs), fs[k].offset);
    LE16Value(fs[k].value);
  }

  /** A stored double word reads back as its value. */
  lemma FillDword(s: seq<byte>, fs: seq<Field>, k: nat)
    requires Fits(fs, |s|) && Ascending(fs) && k < |fs| && fs[k].Dword?
    ensures End(fs[k]) <= |s| && U32At(Fill(s, fs), fs[k].offset) == fs[k].value
  {
    FillSlice(s, fs, k);
    U32Slice(Fill(s, fs), fs[k].offset);
    LE32Value(fs[k].value);
  }

  /** Packs `f`, the first of the fields `rest` still to be stored, into
      `buf`: storing the rest from here gives what storing all of them from
      the buffer's former contents gives. */
  method Store(buf: array<byte>, ghost rest: seq<Field>, f: Field) returns (ghost rest': seq<Field>)
    requires rest != [] && rest[0] == f && InRange(f) && End(f) <= buf.Length
    modifies buf
    ensures buf[..] == Poke(old(buf[..]), f.offset, Packed(f))
    ensures rest' == rest[1..]
    ensures Fill(buf[..], rest') == Fill(old(buf[..]), rest)
  {
    Splice(buf, f.offset, Packed(f));
    rest' := rest[1..];
  }
}
