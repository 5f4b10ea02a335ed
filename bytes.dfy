/** Byte buffers as the encoders see them: zero-filled buffers, fixed-offset
    stores, little-endian integers and the two checksum reductions. */
module Bytes {

  /** One byte of a buffer. */
  newtype byte = x: int | 0 <= x < 256

  /** A zero-initialised buffer, as `bytearray(n)`. */
  function Zeros(n: nat): (r: seq<byte>)
    ensures |r| == n
    ensures forall i :: 0 <= i < n ==> r[i] == 0
  {
    seq(n, _ => 0)
  }

  /** Overwrite `b` into `s` at offset `n`, keeping the length: the effect of
      `struct.pack_into(fmt, s, n, ...)` and of a slice assignment
      `s[n:n+len(b)] = b`. */
  function Poke(s: seq<byte>, n: nat, b: seq<byte>): (r: seq<byte>)
    requires n + |b| <= |s|
    ensures |r| == |s|
  {
    seq(|s|, i requires 0 <= i < |s| => if n <= i < n + |b| then b[i - n] else s[i])
  }

  /** Inside the poked range the buffer holds `b`, elsewhere what it held. */
  lemma PokeAt(s: seq<byte>, n: nat, b: seq<byte>)
    requires n + |b| <= |s|
    ensures forall i :: 0 <= i < |s| ==> Poke(s, n, b)[i] == if n <= i < n + |b| then b[i - n] else s[i]
  {
  }

  /** The 16-bit little-endian word stored at `n`. */
  function U16At(s: seq<byte>, n: nat): int
    requires n + 2 <= |s|
  {
    s[n] as int + 256 * s[n + 1] as int
  }

  /** The 32-bit little-endian double word stored at `n`. */
  function U32At(s: seq<byte>, n: nat): int
    requires n + 4 <= |s|
  {
    U16At(s, n) + 0x1_0000 * U16At(s, n + 2)
  }

  /** The `n` low-order bytes of `v`, least significant first. */
  function LE(v: int, n: nat): (r: seq<byte>)
    ensures |r| == n
    decreases n
  {
    if n == 0 then [] else [(v % 256) as byte] + LE(v / 256, n - 1)
  }

  /** `struct.pack("<H", v)`; `struct` refuses values outside 16 bits. */
  function LE16(v: int): (r: seq<byte>)
    requires 0 <= v < 0x1_0000
    ensures |r| == 2
  {
    LE(v, 2)
  }

  /** `struct.pack("<L", v)`; `struct` refuses values outside 32 bits. */
  function LE32(v: int): (r: seq<byte>)
    requires 0 <= v < 0x1_0000_0000
    ensures |r| == 4
  {
    LE(v, 4)
  }

  /** A packed word reads back as the value packed. */
  lemma LE16Value(v: int)
    requires 0 <= v < 0x1_0000
    ensures U16At(LE16(v), 0) == v
  {
  }

  /** A packed double word reads back as the value packed. */
  lemma LE32Value(v: int)
    requires 0 <= v < 0x1_0000_0000
    ensures U32At(LE32(v), 0) == v
  {
  }

  /** A stored little-endian word reads back as the value written, wherever
      it was poked into a larger buffer. */
  lemma PokeU16(s: seq<byte>, n: nat, v: int)
    requires 0 <= v < 0x1_0000 && n + 2 <= |s|
    ensures U16At(Poke(s, n, LE16(v)), n) == v
  {
    var r := Poke(s, n, LE16(v));
    PokeAt(s, n, LE16(v));
    LE16Value(v);
    assert r[n] == LE16(v)[0] && r[n + 1] == LE16(v)[1];
  }

  /** As PokeU16, for a stored double word. */
  lemma PokeU32(s: seq<byte>, n: nat, v: int)
    requires 0 <= v < 0x1_0000_0000 && n + 4 <= |s|
    ensures U32At(Poke(s, n, LE32(v)), n) == v
  {
    var r := Poke(s, n, LE32(v));
    var b := LE32(v);
    PokeAt(s, n, b);
    assert r[n] == b[0] && r[n + 1] == b[1] && r[n + 2] == b[2] && r[n + 3] == b[3];
    LE32Value(v);
  }

  /** A field reads the same from the buffer and from its own slice. */
  lemma U16Slice(s: seq<byte>, n: nat)
    requires n + 2 <= |s|
    ensures U16At(s, n) == U16At(s[n..n + 2], 0)
  {
  }

  lemma U32Slice(s: seq<byte>, n: nat)
    requires n + 4 <= |s|
    ensures U32At(s, n) == U32At(s[n..n + 4], 0)
  {
  }

  // ---------------------------------------------------------------------
  // The P3 checksum: a sum of 16-bit little-endian words.

  /** The little-endian word starting at byte `i`; an odd final byte is
      paired with a zero (`itertools.zip_longest(..., fillvalue=0)`). */
  function WordTerm(s: seq<byte>, i: nat): (r: int)
    requires i < |s|
    ensures 0 <= r < 0x1_0000
    ensures i + 1 < |s| ==> r == U16At(s, i)
    ensures i + 1 == |s| ==> r == s[i] as int
  {
    s[i] as int + 256 * (if i + 1 < |s| then s[i + 1] as int else 0)
  }

  /** The sum of the words starting at byte `i`, `i + 2`, `i + 4`, ... */
  function WordsFrom(s: seq<byte>, i: nat): (r: int)
    ensures 0 <= r
    ensures i < |s| ==> r <= 0xffff * ((|s| - i + 1) / 2)
    decreases |s| - i
  {
    if i >= |s| then 0 else WordTerm(s, i) + WordsFrom(s, i + 2)
  }

  /** The sum of all 16-bit little-endian words of `s`. */
  function WordSum(s: seq<byte>): (r: int)
    ensures 0 <= r <= 0xffff * ((|s| + 1) / 2)
  {
    WordsFrom(s, 0)
  }

  /** A trailing zero byte adds nothing: pairing an odd final byte with 0,
      as `zip_longest` does, sums the same as padding the buffer. */
  lemma {:induction false} WordsFromPadded(s: seq<byte>, i: nat)
    ensures WordsFrom(s + [0], i) == WordsFrom(s, i)
    decreases |s| - i
  {
    var t := s + [0];
    if i < |s| {
      assert t[i] == s[i];
      assert i + 1 < |s| ==> t[i + 1] == s[i + 1];
      WordsFromPadded(s, i + 2);
    } else if i == |s| {
      assert WordTerm(t, i) == 0;
    }
  }

  lemma WordSumPadded(s: seq<byte>)
    ensures WordSum(s + [0]) == WordSum(s)
  {
    WordsFromPadded(s, 0);
  }

  /** Changing one aligned word changes the word sum by exactly the change of
      that word, and nothing else does. */
  lemma {:induction false} WordsFromChange(s: seq<byte>, t: seq<byte>, i: nat, k: nat)
    requires |t| == |s| && i <= k && k + 1 < |s| && (k - i) % 2 == 0
    requires forall j :: 0 <= j < |s| && j != k && j != k + 1 ==> t[j] == s[j]
    ensures WordsFrom(t, i) == WordsFrom(s, i) - WordTerm(s, k) + WordTerm(t, k)
    decreases |s| - i
  {
    if i == k {
      WordsFromSame(s, t, i + 2, k + 2);
    } else {
      WordsFromChange(s, t, i + 2, k);
    }
  }

  /** Word sums of two buffers that agree from byte `k` on agree from every
      word boundary at or after `k`. */
  lemma {:induction false} WordsFromSame(s: seq<byte>, t: seq<byte>, i: nat, k: nat)
    requires |t| == |s| && k <= i
    requires forall j :: k <= j < |s| ==> t[j] == s[j]
    ensures WordsFrom(t, i) == WordsFrom(s, i)
    decreases |s| - i
  {
    if i < |s| {
      WordsFromSame(s, t, i + 2, k);
    }
  }

  /** A checksum `c` stored into a zeroed word slot at an even offset `k`
      brings the word sum to `(WordSum(s) + c)`. */
  lemma WordSumAfterPoke(s: seq<byte>, k: nat, c: int)
    requires k % 2 == 0 && k + 2 <= |s| && s[k] == 0 && s[k + 1] == 0
    requires 0 <= c < 0x1_0000
    ensures WordSum(Poke(s, k, LE16(c))) == WordSum(s) + c
  {
    var t := Poke(s, k, LE16(c));
    PokeAt(s, k, LE16(c));
    WordsFromChange(s, t, 0, k);
    assert WordTerm(t, k) == U16At(t, k);
    PokeU16(s, k, c);
  }

  // ---------------------------------------------------------------------
  // The MP checksums: XOR over the even and over the odd bytes.

  /** The XOR of bytes `i`, `i + 2`, `i + 4`, ...: `reduce(xor, s[i::2])`. */
  function XorFrom(s: seq<byte>, i: nat): bv8
    decreases |s| - i
  {
    if i >= |s| then 0 else (s[i] as bv8) ^ XorFrom(s, i + 2)
  }

  /** The slice `s[i::2]`: bytes `i`, `i + 2`, `i + 4`, ... */
  function Stride(s: seq<byte>, i: nat): (r: seq<bv8>)
    ensures |r| == if i < |s| then (|s| - i + 1) / 2 else 0
    ensures forall k :: 0 <= k < |r| ==> r[k] == s[i + 2 * k] as bv8
    decreases |s| - i
  {
    if i >= |s| then [] else [s[i] as bv8] + Stride(s, i + 2)
  }

  /** `functools.reduce` of XOR with no start value: the first element is
      the start. */
  function XorReduce(xs: seq<bv8>): (r: bv8)
    requires xs != []
    ensures |xs| == 1 ==> r == xs[0]
    ensures |xs| > 1 ==> r == XorReduce(xs[..|xs| - 1]) ^ xs[|xs| - 1]
    decreases |xs|
  {
    var n := |xs|;
    if n == 1 then xs[0]
    else
      var ys := xs[1..];
      assert ys == ys[..n - 2] + [xs[n - 1]];
      assert xs[..n - 1][1..] == ys[..n - 2];
      XorFoldSnoc(xs[0], ys[..n - 2], xs[n - 1]);
      XorFold(xs[0], xs[1..])
  }

  /** The left fold of XOR from `a`: each element in turn is XORed onto
      the value so far. */
  function XorFold(a: bv8, xs: seq<bv8>): bv8
    decreases |xs|
  {
    if xs == [] then a else XorFold(a ^ xs[0], xs[1..])
  }

  /** Folding a list with one more element at the end XORs that element
      onto the fold of the list, as the loop inside `functools.reduce` does. */
  lemma {:induction false} XorFoldSnoc(a: bv8, xs: seq<bv8>, x: bv8)
    ensures XorFold(a, xs + [x]) == XorFold(a, xs) ^ x
    decreases |xs|
  {
    if xs == [] {
      assert [] + [x] == [x] + [];
      XorFoldCons(a, x, []);
    } else {
      var y, ys := xs[0], xs[1..];
      calc {
        XorFold(a, xs + [x]);
        == { assert xs + [x] == [y] + (ys + [x]); XorFoldCons(a, y, ys + [x]); }
        XorFold(a ^ y, ys + [x]);
        == { XorFoldSnoc(a ^ y, ys, x); }
        XorFold(a ^ y, ys) ^ x;
        == { assert xs == [y] + ys; XorFoldCons(a, y, ys); }
        XorFold(a, xs) ^ x;
      }
    }
  }

  /** Folding the stride from `a` is `a` XOR the stride's XOR. */
  lemma {:induction false} XorFoldStride(a: bv8, s: seq<byte>, i: nat)
    ensures XorFold(a, Stride(s, i)) == a ^ XorFrom(s, i)
    decreases |s| - i
  {
    if i < |s| {
      var b := s[i] as bv8;
      XorFoldCons(a, b, Stride(s, i + 2));
      XorFoldStride(a ^ b, s, i + 2);
    }
  }

  lemma XorFoldCons(a: bv8, b: bv8, xs: seq<bv8>)
    ensures XorFold(a, [b] + xs) == XorFold(a ^ b, xs)
  {
    assert ([b] + xs)[1..] == xs;
  }

  /** `XorFrom` is the script's `reduce(xor, s[i::2])` on any non-empty
      stride. */
  lemma XorFromIsReduce(s: seq<byte>, i: nat)
    requires i < |s|
    ensures XorFrom(s, i) == XorReduce(Stride(s, i))
  {
    var st := Stride(s, i);
    assert st[0] == s[i] as bv8 && st[1..] == Stride(s, i + 2);
    XorFoldStride(s[i] as bv8, s, i + 2);
  }

  /** Replacing byte `k` by `x` changes the XOR of the bytes in `k`'s parity
      class by `s[k] ^ x`. */
  lemma {:induction false} XorFromUpdate(s: seq<byte>, i: nat, k: nat, x: byte)
    requires i <= k < |s| && (k - i) % 2 == 0
    ensures XorFrom(s[k := x], i) == XorFrom(s, i) ^ (s[k] as bv8) ^ (x as bv8)
    decreases |s| - i
  {
    if i == k {
      XorFromHere(s, k, x);
    } else {
      XorFromUpdate(s, i + 2, k, x);
      assert s[k := x][i] == s[i];
      XorRegroup(s[i] as bv8, XorFrom(s, i + 2), s[k] as bv8, x as bv8);
    }
  }

  lemma XorFromHere(s: seq<byte>, k: nat, x: byte)
    requires k < |s|
    ensures XorFrom(s[k := x], k) == XorFrom(s, k) ^ (s[k] as bv8) ^ (x as bv8)
  {
    XorFromAbove(s, k + 2, k, x);
    var r := XorFrom(s, k + 2);
    assert XorFrom(s[k := x], k) == (x as bv8) ^ r;
    assert XorFrom(s, k) == (s[k] as bv8) ^ r;
    XorCancel(s[k] as bv8, r, x as bv8);
  }

  lemma XorCancel(c: bv8, r: bv8, d: bv8)
    ensures d ^ r == (c ^ r) ^ c ^ d
  {
  }

  lemma XorRegroup(a: bv8, b: bv8, c: bv8, d: bv8)
    ensures a ^ (b ^ c ^ d) == (a ^ b) ^ c ^ d
  {
  }

  /** ... and leaves the XOR of the other parity class alone. */
  lemma {:induction false} XorFromOther(s: seq<byte>, i: nat, k: nat, x: byte)
    requires i <= k < |s| && (k - i) % 2 == 1
    ensures XorFrom(s[k := x], i) == XorFrom(s, i)
    decreases |s| - i
  {
    if i + 1 == k {
      XorFromAbove(s, i + 2, k, x);
    } else {
      XorFromOther(s, i + 2, k, x);
    }
  }

  /** A change below `i` does not reach the XOR from `i`. */
  lemma {:induction false} XorFromAbove(s: seq<byte>, i: nat, k: nat, x: byte)
    requires k < i && k < |s|
    ensures XorFrom(s[k := x], i) == XorFrom(s, i)
    decreases |s| - i
  {
    if i < |s| {
      XorFromAbove(s, i + 2, k, x);
    }
  }

  // ---------------------------------------------------------------------
  // Stores into a mutable buffer.

  /** Copy `b` into `buf` at offset `n`: a slice assignment
      `buf[n:n+len(b)] = b`, or `struct.pack_into` of already packed bytes. */
  method Splice(buf: array<byte>, n: nat, b: seq<byte>)
    requires n + |b| <= buf.Length
    modifies buf
    ensures buf[..] == Poke(old(buf[..]), n, b)
  {
    for j := 0 to |b|
      invariant forall i :: 0 <= i < buf.Length ==>
        buf[i] == if n <= i < n + j then b[i - n] else old(buf[i])
    {
      buf[n + j] := b[j];
    }
    PokeAt(old(buf[..]), n, b);
  }

  /** `struct.pack_into("<H", buf, n, v)`. */
  method PackWord(buf: array<byte>, n: nat, v: int)
    requires n + 2 <= buf.Length && 0 <= v < 0x1_0000
    modifies buf
    ensures buf[..] == Poke(old(buf[..]), n, LE16(v))
  {
    Splice(buf, n, LE16(v));
  }
}
