/** Byte-addressed contents, and little-endian stores into them. */
module ByteStores {
  import opened Prelude

  type Bytes = map<int, Byte>

  /** Where a store goes: `width` bytes from `addr`. */
  datatype Shape = Shape(addr: int, width: nat)

  predicate Touches(f: Shape, b: int) {
    f.addr <= b < f.addr + f.width
  }

  /** Byte `i` of a data word, least significant first. */
  function DataByte(data: nat, i: nat): Byte
    decreases i
  {
    if i == 0 then data % 256 else DataByte(data / 256, i - 1)
  }

  function Poke(m: Bytes, f: Shape, data: nat): Bytes {
    m + map b {:trigger Touches(f, b)} | f.addr <= b < f.addr + f.width && Touches(f, b) :: DataByte(data, b - f.addr)
  }

  predicate SameByte(r1: Bytes, r2: Bytes, b: int) {
    (b in r1 <==> b in r2) && (b in r1 ==> r1[b] == r2[b])
  }

  lemma PokeAt(m: Bytes, f: Shape, data: nat, b: int)
    ensures if Touches(f, b) then b in Poke(m, f, data) && Poke(m, f, data)[b] == DataByte(data, b - f.addr)
            else SameByte(Poke(m, f, data), m, b)
  {
  }

  /** A word from its four bytes, the lowest first. */
  function Word(b0: Byte, b1: Byte, b2: Byte, b3: Byte): nat {
    b0 + 256 * b1 + 65536 * b2 + 16777216 * b3
  }

  lemma WordBytes(b0: Byte, b1: Byte, b2: Byte, b3: Byte)
    ensures var w := Word(b0, b1, b2, b3);
            DataByte(w, 0) == b0 && DataByte(w, 1) == b1 && DataByte(w, 2) == b2 && DataByte(w, 3) == b3
  {
    var w := Word(b0, b1, b2, b3);
    var w1, w2 := b1 + 256 * b2 + 65536 * b3, b2 + 256 * b3;
    assert w / 256 == w1 && w1 / 256 == w2 && w2 / 256 == b3;
    assert DataByte(w, 1) == DataByte(w1, 0);
    assert DataByte(w, 2) == DataByte(w1, 1) == DataByte(w2, 0);
    assert DataByte(w, 3) == DataByte(w1, 2) == DataByte(w2, 1) == DataByte(b3, 0);
  }

  lemma SameBytes(r1: Bytes, r2: Bytes)
    requires forall b :: SameByte(r1, r2, b)
    ensures r1 == r2
  {
    forall b | b in r1 || b in r2 ensures b in r1 && b in r2 && r1[b] == r2[b] {
      assert SameByte(r1, r2, b);
    }
  }
}
