/**
A model of `std::istream` over a fixed byte sequence: a read position and a failure flag
that stays set once a read has come up short.
*/
module Streams {
  import opened Bytes

  // What a zeroed buffer of n bytes holds after reading at off: the bytes there are, then zeros.
  function Window(b: seq<byte>, off: nat, n: nat): (w: seq<byte>)
    ensures |w| == n
    ensures off + n <= |b| ==> w == b[off..off + n]
  {
    if off + n <= |b| then b[off..off + n]
    else if off <= |b| then b[off..] + Zeros(n - (|b| - off))
    else Zeros(n)
  }

  class InputStream {
    const data: seq<byte>
    var pos: nat
    var good: bool

    constructor (data: seq<byte>)
      ensures this.data == data && pos == 0 && good
    {
      this.data := data;
      pos := 0;
      good := true;
    }

    // Read n bytes into a zeroed buffer. A failed stream reads nothing; a short read fails it.
    method Read(n: nat) returns (buf: seq<byte>)
      modifies this
      ensures good == (old(good) && (n == 0 || old(pos) + n <= |data|))
      ensures good ==> pos == old(pos) + n
      ensures buf == if old(good) then Window(data, old(pos), n) else Zeros(n)
    {
      if !good {
        return Zeros(n);
      }
      buf := Window(data, pos, n);
      if n == 0 || pos + n <= |data| {
        pos := pos + n;
      } else {
        pos, good := |data|, false;
      }
    }

    // Seeking moves the position but does not clear a failure.
    method Seek(p: nat)
      modifies this
      ensures good == old(good)
      ensures good ==> pos == p
    {
      if good {
        pos := p;
      }
    }
  }
}
