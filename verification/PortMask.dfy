/** 32-bit port masks as sets of port numbers. */
module PortMask {

  const MAX_ETHPORTS: nat := 32

  type Port = p: nat | p < MAX_ETHPORTS

  function Bit(p: Port): bv32 {
    (1 as bv32) << p
  }

  predicate Has(mask: bv32, p: Port) {
    mask & Bit(p) != 0
  }

  ghost function Bits(mask: bv32): set<Port> {
    set p: Port | 0 <= p < MAX_ETHPORTS && Has(mask, p)
  }

  lemma BitsEmpty()
    ensures Bits(0) == {}
  {
    forall p: Port ensures !Has(0, p) {}
  }

  lemma HasOr(m: bv32, n: bv32, p: Port)
    ensures Has(m | n, p) <==> Has(m, p) || Has(n, p)
  {
    hide Bit;
    assert (m | n) & Bit(p) == (m & Bit(p)) | (n & Bit(p));
  }

  lemma BitOrNothing(m: bv32, p: Port)
    ensures m & Bit(p) == 0 || m & Bit(p) == Bit(p)
  {
  }

  lemma HasAnd(m: bv32, n: bv32, p: Port)
    ensures Has(m & n, p) <==> Has(m, p) && Has(n, p)
  {
    BitOrNothing(m, p);
    BitOrNothing(n, p);
    hide Bit;
    assert (m & n) & Bit(p) == (m & Bit(p)) & (n & Bit(p));
  }

  lemma BitsOr(m: bv32, n: bv32)
    ensures Bits(m | n) == Bits(m) + Bits(n)
  {
    hide Has;
    forall p: Port ensures Has(m | n, p) <==> Has(m, p) || Has(n, p) { HasOr(m, n, p); }
  }

  lemma BitsAnd(m: bv32, n: bv32)
    ensures Bits(m & n) == Bits(m) * Bits(n)
  {
    hide Has;
    forall p: Port ensures Has(m & n, p) <==> Has(m, p) && Has(n, p) { HasAnd(m, n, p); }
  }

  lemma OwnBit(p: Port)
    ensures Has(Bit(p), p)
  {
  }

  /** One shifted by another amount is another bit. */
  lemma OtherBit(p: Port, q: Port)
    requires p < q
    ensures Bit(p) & Bit(q) == 0 && Bit(q) & Bit(p) == 0
  {
  }

  lemma HasBit(p: Port, q: Port)
    ensures Has(Bit(p), q) <==> p == q
  {
    hide Bit;
    if p == q {
      OwnBit(p);
    } else if p < q {
      OtherBit(p, q);
    } else {
      OtherBit(q, p);
    }
  }

  lemma BitsOfBit(p: Port)
    ensures Bits(Bit(p)) == {p}
  {
    hide Has;
    forall q: Port ensures Has(Bit(p), q) <==> p == q { HasBit(p, q); }
  }

  /** One of the eight bits from `low` on is set in `mask`. */
  ghost predicate SomeIn(mask: bv32, low: nat)
    requires low <= 24
  {
    exists p: Port :: low <= p < low + 8 && Has(mask, p)
  }

  lemma SomeInByte0(mask: bv32)
    requires mask & 0x000000ff != 0
    ensures SomeIn(mask, 0)
  {
    assert mask & 0x1 != 0 || mask & 0x2 != 0 || mask & 0x4 != 0 || mask & 0x8 != 0
           || mask & 0x10 != 0 || mask & 0x20 != 0 || mask & 0x40 != 0 || mask & 0x80 != 0;
    assert Has(mask, 0) || Has(mask, 1) || Has(mask, 2) || Has(mask, 3)
           || Has(mask, 4) || Has(mask, 5) || Has(mask, 6) || Has(mask, 7);
  }

  lemma SomeInByte1(mask: bv32)
    requires mask & 0x0000ff00 != 0
    ensures SomeIn(mask, 8)
  {
    assert mask & 0x100 != 0 || mask & 0x200 != 0 || mask & 0x400 != 0 || mask & 0x800 != 0
           || mask & 0x1000 != 0 || mask & 0x2000 != 0 || mask & 0x4000 != 0 || mask & 0x8000 != 0;
    assert Has(mask, 8) || Has(mask, 9) || Has(mask, 10) || Has(mask, 11)
           || Has(mask, 12) || Has(mask, 13) || Has(mask, 14) || Has(mask, 15);
  }

  lemma SomeInByte2(mask: bv32)
    requires mask & 0x00ff0000 != 0
    ensures SomeIn(mask, 16)
  {
    assert mask & 0x10000 != 0 || mask & 0x20000 != 0 || mask & 0x40000 != 0 || mask & 0x80000 != 0
           || mask & 0x100000 != 0 || mask & 0x200000 != 0 || mask & 0x400000 != 0 || mask & 0x800000 != 0;
    assert Has(mask, 16) || Has(mask, 17) || Has(mask, 18) || Has(mask, 19)
           || Has(mask, 20) || Has(mask, 21) || Has(mask, 22) || Has(mask, 23);
  }

  lemma SomeInByte3(mask: bv32)
    requires mask & 0xff000000 != 0
    ensures SomeIn(mask, 24)
  {
    assert mask & 0x1000000 != 0 || mask & 0x2000000 != 0 || mask & 0x4000000 != 0 || mask & 0x8000000 != 0
           || mask & 0x10000000 != 0 || mask & 0x20000000 != 0 || mask & 0x40000000 != 0 || mask & 0x80000000 != 0;
    assert Has(mask, 24) || Has(mask, 25) || Has(mask, 26) || Has(mask, 27)
           || Has(mask, 28) || Has(mask, 29) || Has(mask, 30) || Has(mask, 31);
  }

  /** A mask with no bit set is zero. */
  lemma NoBits(mask: bv32)
    ensures mask == 0 <==> Bits(mask) == {}
  {
    if mask != 0 {
      assert mask & 0xff != 0 || mask & 0xff00 != 0 || mask & 0xff0000 != 0 || mask & 0xff000000 != 0;
      if mask & 0xff != 0 { SomeInByte0(mask); }
      else if mask & 0xff00 != 0 { SomeInByte1(mask); }
      else if mask & 0xff0000 != 0 { SomeInByte2(mask); }
      else { SomeInByte3(mask); }
      var p: Port :| Has(mask, p);
      assert p in Bits(mask);
    } else {
      BitsEmpty();
    }
  }

  // The mask operations of the port map check, as sets.

  /** `mask & 1 << p` */
  function Test(mask: bv32, p: Port): (isSet: bool)
    ensures isSet <==> p in Bits(mask)
  {
    mask & Bit(p) != 0
  }

  /** `mask | 1 << p` */
  function WithPort(mask: bv32, p: Port): (r: bv32)
    ensures Bits(r) == Bits(mask) + {p}
  {
    BitsOr(mask, Bit(p));
    BitsOfBit(p);
    mask | Bit(p)
  }

  /** `m & n`, as a condition */
  function Overlap(m: bv32, n: bv32): (overlap: bool)
    ensures overlap <==> Bits(m) * Bits(n) != {}
  {
    BitsAnd(m, n);
    NoBits(m & n);
    m & n != 0
  }

  function Union(m: bv32, n: bv32): (r: bv32)
    ensures Bits(r) == Bits(m) + Bits(n)
  {
    BitsOr(m, n);
    m | n
  }

  function Intersection(m: bv32, n: bv32): (r: bv32)
    ensures Bits(r) == Bits(m) * Bits(n)
  {
    BitsAnd(m, n);
    m & n
  }
}
