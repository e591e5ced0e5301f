/**
Bytes, little-endian integers, C strings and the buffer primitives (`memcpy`, `fill_n`)
that every other module is written in terms of.
*/
module Bytes {
  datatype Option<+T> = None | Some(value: T)

  type byte = b: int | 0 <= b < 0x100
  type u16 = n: int | 0 <= n < 0x1_0000
  type u32 = n: int | 0 <= n < 0x1_0000_0000

  function Min(a: int, b: int): int {
    if a <= b then a else b
  }

  lemma ConcatAssociative<T>(a: seq<T>, b: seq<T>, c: seq<T>)
    ensures a + (b + c) == (a + b) + c
  {
  }

  lemma AppendFields<T>(file: seq<T>, a: seq<T>, b: seq<T>, c: seq<T>)
    ensures file + a + b + c == file + (a + b + c)
    ensures c == [] ==> file + a + b == file + (a + b + c)
  {
  }

  function Zeros(n: nat): (s: seq<byte>)
    ensures |s| == n
    ensures forall i :: 0 <= i < n ==> s[i] == 0
  {
    seq(n, i => 0)
  }

  // Storing an integer in a narrower field drops its high bits, as a C++ cast does.
  function Le16(n: nat): (s: seq<byte>)
    ensures |s| == 2
  {
    [n % 0x100, n / 0x100 % 0x100]
  }

  function Le32(n: nat): (s: seq<byte>)
    ensures |s| == 4
  {
    Le16(n) + Le16(n / 0x1_0000)
  }

  function U16At(s: seq<byte>, off: nat): u16
    requires off + 2 <= |s|
  {
    s[off] as int + 0x100 * (s[off + 1] as int)
  }

  function U32At(s: seq<byte>, off: nat): u32
    requires off + 4 <= |s|
  {
    U16At(s, off) as int + 0x1_0000 * (U16At(s, off + 2) as int)
  }

  function U64At(s: seq<byte>, off: nat): nat
    requires off + 8 <= |s|
  {
    U32At(s, off) as int + 0x1_0000_0000 * (U32At(s, off + 4) as int)
  }

  /** A 16-bit field reads back as the stored number modulo 2^16, wherever it is placed. */
  lemma Le16At(p: seq<byte>, n: nat, q: seq<byte>)
    ensures U16At(p + Le16(n) + q, |p|) == n % 0x1_0000
  {
    var s := p + Le16(n) + q;
    assert s[|p|] == Le16(n)[0] && s[|p| + 1] == Le16(n)[1];
    LowBytes(n);
  }

  lemma LowBytes(n: nat)
    ensures n % 0x1_0000 == n % 0x100 + 0x100 * (n / 0x100 % 0x100)
  {
    var hi := n / 0x100;
    assert n == 0x1_0000 * (hi / 0x100) + (0x100 * (hi % 0x100) + n % 0x100);
  }

  /** A 32-bit field reads back as the stored number modulo 2^32, wherever it is placed. */
  lemma Le32At(p: seq<byte>, n: nat, q: seq<byte>)
    ensures U32At(p + Le32(n) + q, |p|) == n % 0x1_0000_0000
  {
    hide Le16, U16At;
    var hi := n / 0x1_0000;
    assert p + Le32(n) + q == p + Le16(n) + (Le16(hi) + q);
    assert p + Le32(n) + q == (p + Le16(n)) + Le16(hi) + q;
    Le16At(p, n, Le16(hi) + q);
    Le16At(p + Le16(n), hi, q);
    HighAndLow(n);
  }

  lemma HighAndLow(n: nat)
    ensures n % 0x1_0000_0000 == n % 0x1_0000 + 0x1_0000 * (n / 0x1_0000 % 0x1_0000)
  {
    var hi := n / 0x1_0000;
    assert n == 0x1_0000_0000 * (hi / 0x1_0000) + (0x1_0000 * (hi % 0x1_0000) + n % 0x1_0000);
  }

  /** What a field reads, byte by byte: the byte at the lowest offset counts least. */
  lemma LittleEndian(s: seq<byte>, off: nat)
    ensures off + 2 <= |s| ==> U16At(s, off) == s[off] as int + 0x100 * s[off + 1] as int
    ensures off + 4 <= |s| ==>
      U32At(s, off) == s[off] as int + 0x100 * s[off + 1] as int
                       + 0x1_0000 * s[off + 2] as int + 0x100_0000 * s[off + 3] as int
    ensures off + 8 <= |s| ==>
      U64At(s, off) == s[off] as int + 0x100 * s[off + 1] as int
                       + 0x1_0000 * s[off + 2] as int + 0x100_0000 * s[off + 3] as int
                       + 0x1_0000_0000 * s[off + 4] as int + 0x100_0000_0000 * s[off + 5] as int
                       + 0x1_0000_0000_0000 * s[off + 6] as int + 0x100_0000_0000_0000 * s[off + 7] as int
  {
  }

  // The bytes of a character buffer up to its terminating NUL, or all of them.
  function CStr(s: seq<byte>): (r: seq<byte>)
    ensures |r| <= |s| && r == s[..|r|] && 0 !in r
    ensures |r| < |s| ==> s[|r|] == 0
  {
    if s == [] || s[0] == 0 then [] else [s[0]] + CStr(s[1..])
  }

  // The NUL-free beginning of a buffer that a NUL or the end of the buffer ends is its string.
  lemma CStrExactly(s: seq<byte>, r: seq<byte>)
    ensures CStr(s) == r <==>
            |r| <= |s| && r == s[..|r|] && 0 !in r && (|r| == |s| || s[|r|] == 0)
  {
    var c := CStr(s);
    assert forall i :: 0 <= i < |c| ==> c[i] in c && s[i] == c[i];
    assert |r| <= |s| && r == s[..|r|] ==> forall i :: 0 <= i < |r| ==> r[i] in r && s[i] == r[i];
  }

  /** A NUL-free string followed by a NUL reads back unchanged, whatever follows. */
  lemma {:induction false} CStrOfPadded(name: seq<byte>, rest: seq<byte>)
    requires 0 !in name
    requires rest == [] || rest[0] == 0
    ensures CStr(name + rest) == name
  {
    if name == [] {
      assert name + rest == rest;
    } else {
      CStrOfPadded(name[1..], rest);
      assert (name + rest)[1..] == name[1..] + rest;
    }
  }

  // Forcing a NUL at the end of the buffer only cuts the string where the buffer ends.
  lemma {:induction false} CStrTerminated(s: seq<byte>)
    ensures CStr(s + [0]) == CStr(s)
  {
    if s == [] {
      assert s + [0] == [0];
    } else {
      CStrTerminated(s[1..]);
      assert (s + [0])[1..] == s[1..] + [0];
    }
  }

  // part sits in b at off.
  predicate At(b: seq<byte>, off: nat, part: seq<byte>) {
    off + |part| <= |b| && b[off..off + |part|] == part
  }

  lemma TailSplit(b: seq<byte>, off: nat, p: seq<byte>, q: seq<byte>)
    requires off <= |b| && b[off..] == p + q
    ensures At(b, off, p) && off + |p| <= |b| && b[off + |p|..] == q
  {
    var s := b[off..];
    assert s[..|p|] == p && s[|p|..] == q;
    assert b[off..off + |p|] == s[..|p|];
    assert b[off + |p|..] == s[|p|..];
  }

  lemma AtSplit(b: seq<byte>, off: nat, p: seq<byte>, q: seq<byte>)
    requires At(b, off, p + q)
    ensures At(b, off, p) && At(b, off + |p|, q)
  {
    var s := b[off..off + |p| + |q|];
    assert s[..|p|] == p && s[|p|..] == q;
    assert b[off..off + |p|] == s[..|p|];
    assert b[off + |p|..off + |p| + |q|] == s[|p|..];
  }

  // s with the bytes at off replaced by src.
  function Splice(s: seq<byte>, off: nat, src: seq<byte>): (r: seq<byte>)
    requires off + |src| <= |s|
    ensures |r| == |s|
  {
    s[..off] + src + s[off + |src|..]
  }

  lemma SpliceIndex(s: seq<byte>, off: nat, src: seq<byte>)
    requires off + |src| <= |s|
    ensures var r := Splice(s, off, src);
            forall i :: 0 <= i < |s| ==> r[i] == if off <= i < off + |src| then src[i - off] else s[i]
  {
  }

  method CopyInto(buf: array<byte>, off: nat, src: seq<byte>)
    requires off + |src| <= buf.Length
    modifies buf
    ensures buf[..] == Splice(old(buf[..]), off, src)
  {
    forall i | 0 <= i < |src| {
      buf[off + i] := src[i];
    }
  }

  method FillZero(buf: array<byte>, n: nat)
    requires n <= buf.Length
    modifies buf
    ensures buf[..] == Splice(old(buf[..]), 0, Zeros(n))
  {
    forall i | 0 <= i < n {
      buf[i] := 0;
    }
  }
}
