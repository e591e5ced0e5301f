/**
The GXP GPIO driver's output path: `csm_gpio_set` takes ownership of a line, writes it and gives
the ownership bit back, all by read-modify-write on 32-bit registers. The hardware lets a write to a
data register change only the lines whose ownership bit is set.
*/
module Gpio {
  type Word = bv32

  // BIT(k)
  function Bit(k: Word): Word
    requires k < 32
  {
    1 << (k as bv6)
  }

  // regmap_update_bits: the masked bits from val, the others as they were.
  function Update(w: Word, mask: Word, val: Word): Word {
    (w & !mask) | (val & mask)
  }

  predicate IsSet(w: Word, k: Word)
    requires k < 32
  {
    w & Bit(k) != 0
  }

  lemma BitsDistinct(i: Word, j: Word)
    requires i < 32 && j < 32
    ensures Bit(i) != 0
    ensures i != j ==> Bit(i) & Bit(j) == 0
  {
  }

  /** Writing one bit sets exactly that bit to the written value. */
  lemma UpdateOneBit(w: Word, i: Word, v: bool, j: Word)
    requires i < 32 && j < 32
    ensures IsSet(Update(w, Bit(i), if v then Bit(i) else 0), j) == if i == j then v else IsSet(w, j)
  {
    BitsDistinct(i, j);
  }

  // Setting any masked bits and then writing back what they were restores the word.
  lemma MaskedReturn(w: Word, m: Word)
    ensures Update(Update(w, m, m), m, w & m) == w
  {
  }

  // One bit of a word is either clear or the whole mask.
  lemma BitOrNothing(w: Word, i: Word)
    requires i < 32
    ensures w & Bit(i) == if IsSet(w, i) then Bit(i) else 0
  {
  }

  /** Taking a bit and then writing back what it was leaves the word as it was, bit for bit. */
  lemma BorrowAndReturn(w: Word, i: Word)
    requires i < 32
    ensures Update(Update(w, Bit(i), Bit(i)), Bit(i), if IsSet(w, i) then Bit(i) else 0) == w
  {
    hide Bit, Update, IsSet;
    BitOrNothing(w, i);
    MaskedReturn(w, Bit(i));
  }

  // A write to a data register: only the bits whose ownership bit is set take the new value.
  function Gated(w: Word, own: Word, written: Word): Word {
    (w & !own) | (written & own)
  }

  predicate OwnsAll(own: Word, mask: Word) {
    own & mask == mask
  }

  predicate OwnsNone(own: Word, mask: Word) {
    own & mask == 0
  }

  // A masked update takes effect whole where the masked bits are owned, and not at all where none is.
  lemma GatedUpdate(w: Word, own: Word, mask: Word, val: Word)
    ensures OwnsAll(own, mask) ==> Gated(w, own, Update(w, mask, val)) == Update(w, mask, val)
    ensures OwnsNone(own, mask) ==> Gated(w, own, Update(w, mask, val)) == w
  {
  }

  // Setting the masked ownership bits owns them all.
  lemma BorrowOwns(own: Word, mask: Word)
    ensures OwnsAll(Update(own, mask, mask), mask)
  {
  }

  // One line is either owned or not.
  lemma OwnsOne(own: Word, k: Word)
    requires k < 32
    ensures if IsSet(own, k) then OwnsAll(own, Bit(k)) else OwnsNone(own, Bit(k))
  {
    hide Bit;
    BitOrNothing(own, k);
  }

  /** Without the loan a set is lost: the written line reads as before unless its bit was owned. */
  lemma LoanNeeded(w: Word, own: Word, k: Word, value: bool)
    requires k < 32
    ensures var written := Update(w, Bit(k), if value then Bit(k) else 0);
            IsSet(Gated(w, own, written), k) == if IsSet(own, k) then value else IsSet(w, k)
  {
    hide Bit, Update, Gated, IsSet, OwnsAll, OwnsNone;
    OwnsOne(own, k);
    GatedUpdate(w, own, Bit(k), if value then Bit(k) else 0);
    UpdateOneBit(w, k, value, k);
  }

  // The output lines: four words of 32 lines from line 64 on.
  predicate IsOutput(line: Word) {
    64 <= line <= 191
  }

  function WordOf(line: Word): nat
    requires IsOutput(line)
    ensures WordOf(line) < 4
  {
    if line <= 95 then 0 else if line <= 127 then 1 else if line <= 159 then 2 else 3
  }

  function BitOf(line: Word): (k: Word)
    requires IsOutput(line)
    ensures k < 32
  {
    if line <= 95 then line - 64 else if line <= 127 then line - 96
    else if line <= 159 then line - 128 else line - 160
  }

  lemma LinesDistinct(a: Word, b: Word)
    requires IsOutput(a) && IsOutput(b)
    ensures WordOf(a) == WordOf(b) && BitOf(a) == BitOf(b) ==> a == b
  {
  }

  // CSM_ASRESTAT_SW_RESET, BIT(7)
  const SW_RESET: bv8 := 0x80

  // The lines a set has an effect on: the outputs and the software reset, line 192.
  predicate Writable(line: Word) {
    IsOutput(line) || line == 192
  }

  // What reading a line gives, for the values of the registers behind it.
  function ReadLine(gpi: seq<Word>, dat: seq<Word>, asrestat: bv8, line: Word): bool
    requires |gpi| == 2 && |dat| == 4
  {
    if line <= 31 then IsSet(gpi[0], line)
    else if line <= 63 then IsSet(gpi[1], line - 32)
    else if IsOutput(line) then IsSet(dat[WordOf(line)], BitOf(line))
    else if line == 192 then asrestat & SW_RESET != 0
    else false
  }

  // What setting a line makes of the data words and of the reset register.
  function DataAfter(dat: seq<Word>, line: Word, value: bool): (dat': seq<Word>)
    requires |dat| == 4
    ensures |dat'| == 4
  {
    if !IsOutput(line) then dat
    else
      var w, bit := WordOf(line), Bit(BitOf(line));
      dat[w := Update(dat[w], bit, if value then bit else 0)]
  }

  function ResetAfter(asrestat: bv8, line: Word, value: bool): bv8 {
    if line != 192 then asrestat else if value then SW_RESET else 0
  }

  // Bit k of a word, counted from the least significant one.
  predicate BitSet(w: Word, k: Word)
    requires k < 32
  {
    (w >> (k as bv6)) & 1 == 1
  }

  lemma IsSetMeans(w: Word, k: Word)
    requires k < 32
    ensures IsSet(w, k) <==> BitSet(w, k)
  {
  }

  lemma OutputPlaces(k: Word)
    requires k < 32
    ensures IsOutput(64 + k) && WordOf(64 + k) == 0 && BitOf(64 + k) == k
    ensures IsOutput(96 + k) && WordOf(96 + k) == 1 && BitOf(96 + k) == k
    ensures IsOutput(128 + k) && WordOf(128 + k) == 2 && BitOf(128 + k) == k
    ensures IsOutput(160 + k) && WordOf(160 + k) == 3 && BitOf(160 + k) == k
  {
  }

  /**
  Which bit of which register serves which line: 32 lines each from the two input words and the four
  output words, in that order, then the software reset; no other line reads as set.
  */
  lemma LinePlaces(gpi: seq<Word>, dat: seq<Word>, asrestat: bv8, k: Word, line: Word)
    requires |gpi| == 2 && |dat| == 4 && k < 32
    ensures ReadLine(gpi, dat, asrestat, k) == BitSet(gpi[0], k)
    ensures ReadLine(gpi, dat, asrestat, 32 + k) == BitSet(gpi[1], k)
    ensures ReadLine(gpi, dat, asrestat, 64 + k) == BitSet(dat[0], k)
    ensures ReadLine(gpi, dat, asrestat, 96 + k) == BitSet(dat[1], k)
    ensures ReadLine(gpi, dat, asrestat, 128 + k) == BitSet(dat[2], k)
    ensures ReadLine(gpi, dat, asrestat, 160 + k) == BitSet(dat[3], k)
    ensures ReadLine(gpi, dat, asrestat, 192) == (asrestat & 0x80 != 0)
    ensures line > 192 ==> !ReadLine(gpi, dat, asrestat, line)
  {
    hide IsSet, BitSet, WordOf, BitOf;
    OutputPlaces(k);
    IsSetMeans(gpi[0], k);
    IsSetMeans(gpi[1], k);
    IsSetMeans(dat[0], k);
    IsSetMeans(dat[1], k);
    IsSetMeans(dat[2], k);
    IsSetMeans(dat[3], k);
  }

  /** One set changes what one line reads, to the value set, if the line is writable at all. */
  lemma ReadAfterSet(gpi: seq<Word>, dat: seq<Word>, asrestat: bv8, offset: Word, value: bool, line: Word)
    requires |gpi| == 2 && |dat| == 4
    ensures ReadLine(gpi, DataAfter(dat, offset, value), ResetAfter(asrestat, offset, value), line)
            == if line == offset && Writable(line) then value else ReadLine(gpi, dat, asrestat, line)
  {
    hide IsSet, Update, Bit, WordOf, BitOf;
    ResetBit();
    if IsOutput(line) && IsOutput(offset) {
      LinesDistinct(line, offset);
      UpdateOneBit(dat[WordOf(offset)], BitOf(offset), value, BitOf(line));
    }
  }

  lemma ResetBit()
    ensures SW_RESET & SW_RESET != 0 && 0 as bv8 & SW_RESET == 0
  {
  }

  class CsmGpio {
    // CSM_GPIDATL/H, CSM_GPODATL/H/2L/2H and CSM_GPOOWNL/H/2L/2H.
    const gpi: array<Word>
    const dat: array<Word>
    const own: array<Word>
    // The ASRSTAT/ASRESTAT byte pair.
    var asrstat: bv8
    var asrestat: bv8

    ghost predicate Valid() {
      gpi.Length == 2 && dat.Length == 4 && own.Length == 4 && dat != own && gpi != dat && gpi != own
    }

    constructor (gpi: array<Word>, dat: array<Word>, own: array<Word>)
      requires gpi.Length == 2 && dat.Length == 4 && own.Length == 4 && dat != own && gpi != dat && gpi != own
      ensures Valid() && this.gpi == gpi && this.dat == dat && this.own == own
    {
      this.gpi, this.dat, this.own := gpi, dat, own;
      asrstat, asrestat := 0, 0;
    }

    function Get(offset: Word): bool
      requires Valid()
      reads this, gpi, dat
    {
      if offset <= 31 then IsSet(gpi[0], offset)
      else if offset <= 63 then IsSet(gpi[1], offset - 32)
      else if offset <= 95 then IsSet(dat[0], offset - 64)
      else if offset <= 127 then IsSet(dat[1], offset - 96)
      else if offset <= 159 then IsSet(dat[2], offset - 128)
      else if offset <= 191 then IsSet(dat[3], offset - 160)
      else if offset == 192 then asrestat & SW_RESET != 0
      else false
    }

    static method UpdateBits(regs: array<Word>, r: nat, mask: Word, val: Word)
      requires r < regs.Length
      modifies regs
      ensures regs[..] == old(regs[..])[r := Update(old(regs[r]), mask, val)]
    {
      regs[r] := Update(regs[r], mask, val);
    }

    // regmap_update_bits on a data register, through the ownership register beside it.
    method UpdateData(r: nat, mask: Word, val: Word)
      requires Valid() && r < 4
      modifies dat
      ensures dat[..] == old(dat[..])[r := Gated(old(dat[r]), own[r], Update(old(dat[r]), mask, val))]
    {
      dat[r] := Gated(dat[r], own[r], Update(dat[r], mask, val));
    }

    // One of the four output branches: borrow the ownership bit, write the line, give it back.
    method SetOutput(r: nat, k: Word, value: bool)
      requires Valid() && r < 4 && k < 32
      modifies dat, own
      ensures own[..] == old(own[..])
      ensures dat[..] == old(dat[..])[r := Update(old(dat[r]), Bit(k), if value then Bit(k) else 0)]
    {
      hide Update, IsSet, Gated, OwnsAll;
      ghost var before := own[..];
      var mine := IsSet(own[r], k);
      BorrowAndReturn(own[r], k);
      UpdateBits(own, r, Bit(k), Bit(k));
      BorrowOwns(before[r], Bit(k));
      GatedUpdate(dat[r], own[r], Bit(k), if value then Bit(k) else 0);
      UpdateData(r, Bit(k), if value then Bit(k) else 0);
      assert own[r] == Update(before[r], Bit(k), Bit(k));
      UpdateBits(own, r, Bit(k), if mine then Bit(k) else 0);
      assert own[..] == before;
    }

    method Set(offset: Word, value: bool)
      requires Valid()
      modifies dat, own, this
      ensures own[..] == old(own[..])
      ensures dat[..] == DataAfter(old(dat[..]), offset, value)
      ensures asrestat == ResetAfter(old(asrestat), offset, value)
      ensures asrstat == if offset == 192 && value then 0 else old(asrstat)
    {
      if 64 <= offset <= 95 {
        SetOutput(0, offset - 64, value);
      } else if 96 <= offset <= 127 {
        SetOutput(1, offset - 96, value);
      } else if 128 <= offset <= 159 {
        SetOutput(2, offset - 128, value);
      } else if 160 <= offset <= 191 {
        SetOutput(3, offset - 160, value);
      } else if offset == 192 {
        if value {
          asrstat := 0;
          asrestat := SW_RESET;
        } else {
          asrestat := 0;
        }
      }
    }

    lemma GetReads(line: Word)
      requires Valid()
      ensures Get(line) == ReadLine(gpi[..], dat[..], asrestat, line)
    {
    }

    method SetReads(offset: Word, value: bool)
      requires Valid()
      modifies dat, own, this
      ensures own[..] == old(own[..])
      ensures forall line :: Get(line) == if line == offset && Writable(line) then value else old(Get(line))
    {
      hide Get, ReadLine, DataAfter, ResetAfter, Writable;
      ghost var data, reset := dat[..], asrestat;
      forall line ensures Get(line) == ReadLine(gpi[..], data, reset, line) {
        GetReads(line);
      }
      Set(offset, value);
      forall line
        ensures Get(line) == if line == offset && Writable(line) then value else ReadLine(gpi[..], data, reset, line)
      {
        GetReads(line);
        ReadAfterSet(gpi[..], data, reset, offset, value, line);
      }
    }

    /**
    Independence over every sequence of sets, on any lines: each output line and the reset line
    reads back the value last written to it, every other line reads as before, and all four
    ownership words end bit for bit as they began.
    */
    method SetAll(sets: seq<(Word, bool)>)
      requires Valid()
      modifies dat, own, this
      ensures own[..] == old(own[..])
      ensures forall line ::
        Get(line) == if Writable(line) then LastWritten(sets, line, old(Get(line))) else old(Get(line))
    {
      for i := 0 to |sets|
        invariant own[..] == old(own[..])
        invariant forall line ::
          Get(line) == if Writable(line) then LastWritten(sets[..i], line, old(Get(line))) else old(Get(line))
      {
        assert sets[..i + 1][..i] == sets[..i] && sets[..i + 1][i] == sets[i];
        SetReads(sets[i].0, sets[i].1);
      }
      assert sets[..|sets|] == sets;
    }
  }

  // The value last written to the line, or what it was before.
  function LastWritten(sets: seq<(Word, bool)>, line: Word, initial: bool): bool {
    if sets == [] then initial
    else if sets[|sets| - 1].0 == line then sets[|sets| - 1].1
    else LastWritten(sets[..|sets| - 1], line, initial)
  }
}
