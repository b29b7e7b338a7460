/**
 * The cache engine's address codec (cacheDecodeAddress / cacheEncodeAddress):
 * a 32-bit address splits, from the most significant bit down, into a tag,
 * a set index and a block offset whose widths are fixed by the cache's
 * geometry and always add up to the address width.
 *
 * Addresses are modelled as unsigned 32-bit values. The C code holds them in
 * a signed int; because every field is masked to at most the bits that lie
 * below the shifted-in sign bits, its arithmetic right shift yields the same
 * fields as the logical shift used here.
 */
module Address {
  import opened Bits

  const AddressSize: nat := 32
  const AddressMask: nat := 0xFFFF_FFFF

  /** A 32-bit address. */
  type Word = a: nat | a < 0x1_0000_0000

  /** Field widths and the precomputed masks of one cache. */
  datatype Layout = Layout(
    tagSize: int,
    indexSize: nat,
    boSize: nat,
    tagMask: nat,
    indexMask: nat,
    boMask: nat)
  {
    /** The widths partition the 32-bit address and each mask has its width's low bits set. */
    predicate Valid() {
      && 0 <= tagSize
      && tagSize + indexSize + boSize == AddressSize
      && tagMask == Pow2(tagSize) - 1
      && indexMask == Pow2(indexSize) - 1
      && boMask == Pow2(boSize) - 1
    }
  }

  /** The decoded fields of an address. */
  datatype Fields = Fields(tag: nat, index: nat, offset: nat)

  lemma Pow2AddressSize()
    ensures Pow2(AddressSize) == 0x1_0000_0000
  {
    Pow2Add(16, 16);
    Pow2Add(8, 8);
    Pow2Add(4, 4);
    Pow2Add(2, 2);
  }

  /** `CreateMask(n) & ADDRESS_MASK` as cacheInit builds each mask. */
  function AddressFieldMask(nBits: int): (mask: nat)
    ensures 0 <= nBits <= AddressSize ==> mask == Pow2(nBits) - 1
  {
    var m := CreateMask(nBits);
    if 0 <= nBits <= AddressSize then
      Pow2AddressSize();
      Pow2Monotone(nBits, AddressSize);
      AndComm(m, AddressMask);
      AndComm(m, Pow2(AddressSize) - 1);
      AndLowMask(m, AddressSize);
      ModSmall(m, Pow2(AddressSize));
      And(m, AddressMask)
    else
      And(m, AddressMask)
  }

  /**
   * The layout cacheInit derives from the offset and index widths: the tag
   * takes the remaining bits of the 32-bit address.
   */
  function MakeLayout(boSize: nat, indexSize: nat): (l: Layout)
    ensures l.boSize == boSize && l.indexSize == indexSize
    ensures l.tagSize + l.indexSize + l.boSize == AddressSize
    ensures boSize + indexSize <= AddressSize ==> l.Valid()
  {
    var tagSize := AddressSize - (boSize + indexSize);
    Layout(tagSize, indexSize, boSize,
           AddressFieldMask(tagSize), AddressFieldMask(indexSize), AddressFieldMask(boSize))
  }

  /** utilShiftAndMask with a low-bits mask takes one base-2 digit group. */
  lemma ShiftAndMaskDigits(x: nat, s: nat, w: nat)
    ensures ShiftAndMask(x, s, Pow2(w) - 1) == (x / Pow2(s)) % Pow2(w)
  {
    DivMod(x, Pow2(s));
    AndLowMask(x / Pow2(s), w);
  }

  /** The top field of a 32-bit address needs no mask. */
  lemma TopField(a: Word, hi: nat, w: nat)
    requires hi + w == AddressSize
    ensures (a / Pow2(hi)) % Pow2(w) == a / Pow2(hi)
    ensures a / Pow2(hi) < Pow2(w)
  {
    var p, q := Pow2(hi), Pow2(w);
    Pow2Add(hi, w);
    Pow2AddressSize();
    assert a < p * q;
    TopDigit(a, p, q);
  }

  lemma TopDigit(a: nat, p: nat, q: nat)
    requires p > 0 && a < p * q
    ensures a / p < q && (a / p) % q == a / p
  {
    DivBelow(a, p, q);
    ModSmall(a / p, q);
  }

  /**
   * cacheDecodeAddress: offset, index and tag are successive digit groups of
   * the address in base 2, the tag being everything above the index.
   */
  function Decode(l: Layout, a: Word): (f: Fields)
    requires l.Valid()
    ensures f.tag < Pow2(l.tagSize) && f.index < Pow2(l.indexSize) && f.offset < Pow2(l.boSize)
  {
    FieldBounds(a, l.boSize, l.indexSize, l.tagSize);
    Fields(a / Pow2(l.boSize + l.indexSize), (a / Pow2(l.boSize)) % Pow2(l.indexSize), a % Pow2(l.boSize))
  }

  /** Each digit group of a 32-bit address fits its width. */
  lemma FieldBounds(a: Word, bw: nat, iw: nat, tw: nat)
    requires bw + iw + tw == AddressSize
    ensures 0 <= a / Pow2(bw + iw) < Pow2(tw)
    ensures 0 <= (a / Pow2(bw)) % Pow2(iw) < Pow2(iw)
    ensures 0 <= a % Pow2(bw) < Pow2(bw)
  {
    TopField(a, bw + iw, tw);
    DivMod(a, Pow2(bw + iw));
    DivMod(a / Pow2(bw), Pow2(iw));
    DivMod(a, Pow2(bw));
  }

  /**
   * The fields are what cacheDecodeAddress computes: each is the address
   * shifted right past the lower fields and masked to its width.
   */
  lemma DecodeShiftAndMask(l: Layout, a: Word)
    requires l.Valid()
    ensures Decode(l, a) == Fields(ShiftAndMask(a, l.boSize + l.indexSize, l.tagMask),
                                   ShiftAndMask(a, l.boSize, l.indexMask),
                                   ShiftAndMask(a, 0, l.boMask))
  {
    var hi := l.boSize + l.indexSize;
    ShiftAndMaskDigits(a, 0, l.boSize);
    ShiftAndMaskDigits(a, l.boSize, l.indexSize);
    ShiftAndMaskDigits(a, hi, l.tagSize);
    TopField(a, hi, l.tagSize);
    assert a / Pow2(0) == a;
  }

  /** `mask & x` with a low-bits mask is x mod 2^w. */
  lemma MaskedField(x: nat, w: nat)
    ensures And(Pow2(w) - 1, x) == x % Pow2(w) && x % Pow2(w) < Pow2(w)
  {
    AndComm(Pow2(w) - 1, x);
    AndLowMask(x, w);
    DivMod(x, Pow2(w));
  }

  /** A value below 2^w, for widths that make up the address, is a 32-bit word. */
  lemma FitsWord(v: nat, tw: nat, iw: nat, bw: nat)
    requires tw + iw + bw == AddressSize && v < Pow2(tw + iw + bw)
    ensures v < 0x1_0000_0000
  {
    Pow2AddressSize();
  }

  /** The number whose base-2 digit groups are t, i and o, the last two pi and p1 wide. */
  function Digits(t: int, i: int, o: int, pi: int, p1: int): int {
    (t * pi + i) * p1 + o
  }

  /** The three masked, shifted fields do not overlap, so OR-ing them adds them. */
  lemma EncodeSum(t: nat, i: nat, o: nat, tw: nat, iw: nat, bw: nat)
    requires t < Pow2(tw) && i < Pow2(iw) && o < Pow2(bw)
    ensures Or(Or(Shl(t, bw + iw), Shl(i, bw)), o) == Digits(t, i, o, Pow2(iw), Pow2(bw))
    ensures Digits(t, i, o, Pow2(iw), Pow2(bw)) < Pow2(tw + iw + bw)
  {
    var p1, pi, pt := Pow2(bw), Pow2(iw), Pow2(tw);
    var upper := Or(Shl(t, bw + iw), Shl(i, bw));
    assert i * p1 < Pow2(bw + iw) by {
      Pow2Add(bw, iw);
      DigitBound(i, pi, 0, p1);
    }
    assert upper == (t * pi + i) * p1 by {
      OrShifted(t, bw + iw, i * p1);
      Pow2Add(bw, iw);
      Regroup(t, i, p1, pi);
    }
    assert Or(upper, o) == (t * pi + i) * p1 + o by {
      OrShifted(t * pi + i, bw, o);
    }
    assert (t * pi + i) * p1 + o < Pow2(tw + iw + bw) by {
      Pow2Add(tw, iw);
      Pow2Add(tw + iw, bw);
      Stack(t, i, o, pt, pi, p1);
    }
  }

  lemma Regroup(t: nat, i: nat, p1: nat, pi: nat)
    ensures t * (p1 * pi) + i * p1 == (t * pi + i) * p1
  {
  }

  lemma Stack(t: nat, i: nat, o: nat, pt: nat, pi: nat, p1: nat)
    requires t < pt && i < pi && o < p1
    ensures (t * pi + i) * p1 + o < pt * pi * p1
  {
    DigitBound(t, pt, i, pi);
    DigitBound(t * pi + i, pt * pi, o, p1);
  }

  /**
   * cacheEncodeAddress: each field is masked to its width, shifted into place
   * and the three are OR-ed together; the result is the base-2 number whose
   * digit groups are the masked fields.
   */
  function Encode(l: Layout, tag: nat, index: nat, offset: nat): (a: Word)
    requires l.Valid()
    ensures a == Digits(tag % Pow2(l.tagSize), index % Pow2(l.indexSize), offset % Pow2(l.boSize),
                        Pow2(l.indexSize), Pow2(l.boSize))
  {
    EncodeFields(tag, index, offset, l.tagSize, l.indexSize, l.boSize);
    Or(Or(Shl(And(l.tagMask, tag), l.boSize + l.indexSize), Shl(And(l.indexMask, index), l.boSize)),
       And(l.boMask, offset))
  }

  /** The masked fields, shifted and OR-ed, make the 32-bit number with those digit groups. */
  lemma EncodeFields(tag: nat, index: nat, offset: nat, tw: nat, iw: nat, bw: nat)
    requires tw + iw + bw == AddressSize
    ensures var v := Or(Or(Shl(And(Pow2(tw) - 1, tag), bw + iw), Shl(And(Pow2(iw) - 1, index), bw)),
                        And(Pow2(bw) - 1, offset));
      && v == Digits(tag % Pow2(tw), index % Pow2(iw), offset % Pow2(bw), Pow2(iw), Pow2(bw))
      && v < 0x1_0000_0000
  {
    var t, i, o := And(Pow2(tw) - 1, tag), And(Pow2(iw) - 1, index), And(Pow2(bw) - 1, offset);
    assert t == tag % Pow2(tw) && t < Pow2(tw) by { MaskedField(tag, tw); }
    assert i == index % Pow2(iw) && i < Pow2(iw) by { MaskedField(index, iw); }
    assert o == offset % Pow2(bw) && o < Pow2(bw) by { MaskedField(offset, bw); }
    var v := Or(Or(Shl(t, bw + iw), Shl(i, bw)), o);
    assert v == Digits(t, i, o, Pow2(iw), Pow2(bw)) && v < Pow2(tw + iw + bw) by {
      EncodeSum(t, i, o, tw, iw, bw);
    }
    FitsWord(v, tw, iw, bw);
    DigitsEq(t, i, o, tag % Pow2(tw), index % Pow2(iw), offset % Pow2(bw), Pow2(iw), Pow2(bw));
  }

  lemma DigitsEq(t: int, i: int, o: int, t': int, i': int, o': int, pi: int, p1: int)
    requires t == t' && i == i' && o == o'
    ensures Digits(t, i, o, pi, p1) == Digits(t', i', o', pi, p1)
  {
  }

  /** Decoding an encoded address returns the fields, when each fits its width. */
  lemma DecodeEncode(l: Layout, tag: nat, index: nat, offset: nat)
    requires l.Valid()
    requires tag < Pow2(l.tagSize) && index < Pow2(l.indexSize) && offset < Pow2(l.boSize)
    ensures Decode(l, Encode(l, tag, index, offset)) == Fields(tag, index, offset)
  {
    var p1, pi := Pow2(l.boSize), Pow2(l.indexSize);
    var a := Encode(l, tag, index, offset);
    assert a == Digits(tag, index, offset, pi, p1) by {
      ModSmall(tag, Pow2(l.tagSize));
      ModSmall(index, pi);
      ModSmall(offset, p1);
    }
    DigitsSplit(a, tag, index, offset, pi, p1);
    Pow2Add(l.boSize, l.indexSize);
  }

  /** Encoding the decoded fields of an address gives the address back. */
  lemma EncodeDecode(l: Layout, a: Word)
    requires l.Valid()
    ensures var f := Decode(l, a); Encode(l, f.tag, f.index, f.offset) == a
  {
    var f := Decode(l, a);
    var p1, pi := Pow2(l.boSize), Pow2(l.indexSize);
    assert f.tag == a / p1 / pi by {
      Pow2Add(l.boSize, l.indexSize);
      DivDiv(a, p1, pi);
    }
    assert Encode(l, f.tag, f.index, f.offset) == Digits(f.tag, f.index, f.offset, pi, p1) by {
      ModSmall(f.tag, Pow2(l.tagSize));
      ModSmall(f.index, pi);
      ModSmall(f.offset, p1);
    }
    Recompose(a, p1, pi);
  }

  /** The digit groups of a mixed-radix number are its remainders and quotients. */
  lemma DigitsSplit(a: int, t: nat, i: nat, o: nat, pi: nat, p1: nat)
    requires i < pi && o < p1 && a == Digits(t, i, o, pi, p1)
    ensures a % p1 == o && (a / p1) % pi == i && a / (p1 * pi) == t
  {
    var q := t * pi + i;
    assert a == q * p1 + o;
    DivModUnique(a, p1, q, o);
    DivModUnique(q, pi, t, i);
    DivDiv(a, p1, pi);
  }

  /** Every natural is the mixed-radix number of its digit groups. */
  lemma Recompose(a: nat, p1: nat, pi: nat)
    requires p1 > 0 && pi > 0
    ensures a == Digits(a / p1 / pi, (a / p1) % pi, a % p1, pi, p1)
  {
    var q := a / p1;
    DivMod(a, p1);
    DivMod(q, pi);
  }
}
