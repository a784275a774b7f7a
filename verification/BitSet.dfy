/**
 * The piece bitmap of the Java client (client_java/rz/BitSet.java), eight
 * pieces to a byte.
 */
module BitSets {
  import opened Bits
  import opened Wrappers

  // 1 << k, for the bits of one byte
  function Mask(k: nat): bv8
    requires k < 8
  {
    match k
    case 0 => 0x01 case 1 => 0x02 case 2 => 0x04 case 3 => 0x08
    case 4 => 0x10 case 5 => 0x20 case 6 => 0x40 case 7 => 0x80
  }

  predicate Bit(b: bv8, k: nat)
    requires k < 8
  {
    b & Mask(k) != 0
  }

  lemma SetBit(b: bv8, k: nat, j: nat)
    requires k < 8 && j < 8
    ensures Bit(b | Mask(k), j) == (j == k || Bit(b, j))
  {
  }

  lemma ClearBit(b: bv8, k: nat, j: nat)
    requires k < 8 && j < 8
    ensures Bit(b & !Mask(k), j) == (j != k && Bit(b, j))
  {
  }

  // Java's division and remainder truncate toward zero.
  function JavaDiv(a: int, d: int): int
    requires d > 0
  {
    if a >= 0 then a / d else -((-a) / d)
  }

  // The quotient is the one that leaves a remainder smaller than the divisor, of
  // the sign of the dividend.
  lemma JavaDivIs(a: int, d: int, q: int)
    requires d > 0
    ensures q == JavaDiv(a, d) <==> var r := a - q * d; if a >= 0 then 0 <= r < d else -d < r <= 0
  {
    var r := a - q * d;
    if a >= 0 && 0 <= r < d {
      QuotientUnique(a, d, q, r);
    } else if a < 0 && -d < r <= 0 {
      assert -a == (-q) * d + (-r);
      QuotientUnique(-a, d, -q, -r);
    } else {
      assert a >= 0 ==> a == (a / d) * d + a % d;
      assert a < 0 ==> -a == ((-a) / d) * d + (-a) % d;
    }
  }

  // Piece i of eight is the bit of weight two to the i, whatever the others are.
  lemma MaskIsShift(k: nat)
    requires k < 8
    ensures Mask(k) == (1 as bv8) << k
  {
  }

  class BitSet {
    var bits: array<bv8>

    // The indices whose bit is set.
    ghost function Members(): set<int>
      reads this, bits
    {
      set i | 0 <= i < 8 * bits.Length && Bit(bits[i / 8], i % 8)
    }

    // Whether bits[i/8] is in bounds; otherwise Java throws.
    predicate InBounds(i: int)
      reads this
    {
      0 <= JavaDiv(i, 8) < bits.Length
    }

    constructor (size: nat)
      ensures fresh(bits) && bits.Length == (size + 7) / 8
      ensures Members() == {}
    {
      bits := new bv8[(size + 7) / 8](_ => 0);
      new;
      ClearAll();
    }

    // fromByteArray keeps the given array, it does not copy it.
    constructor FromByteArray(a: array<bv8>)
      ensures bits == a
    {
      bits := a;
    }

    // A negative index above -8 selects byte 0 with a mask above its eight bits.
    method Set(i: int) returns (ok: bool)
      modifies bits
      ensures ok == InBounds(i)
      ensures Members() == old(Members()) + if ok && i >= 0 then {i} else {}
    {
      ok := InBounds(i);
      if ok && i >= 0 {
        var b := bits[i / 8];
        bits[i / 8] := b | Mask(i % 8);
        forall j | 0 <= j < 8 * bits.Length
          ensures Bit(bits[j / 8], j % 8) == (j == i || old(Bit(bits[j / 8], j % 8)))
        {
          SetBit(b, i % 8, j % 8);
          SamePosition(i, j);
        }
      }
    }

    method Clear(i: int) returns (ok: bool)
      modifies bits
      ensures ok == InBounds(i)
      ensures Members() == old(Members()) - if ok && i >= 0 then {i} else {}
    {
      ok := InBounds(i);
      if ok && i >= 0 {
        var b := bits[i / 8];
        bits[i / 8] := b & !Mask(i % 8);
        forall j | 0 <= j < 8 * bits.Length
          ensures Bit(bits[j / 8], j % 8) == (j != i && old(Bit(bits[j / 8], j % 8)))
        {
          ClearBit(b, i % 8, j % 8);
          SamePosition(i, j);
        }
      }
    }

    // None stands for the exception of an index out of bounds; a negative index
    // above -8 tests the sign of byte 0.
    method Test(i: int) returns (r: Option<bool>)
      ensures r.Some? == InBounds(i)
      ensures r.Some? && i >= 0 ==> r.value == (i in Members())
      ensures r.Some? && i < 0 ==> r.value == (7 in Members())
    {
      if !InBounds(i) {
        r := None;
      } else if i < 0 {
        r := Some(Bit(bits[0], 7));
      } else {
        r := Some(bits[i / 8] & Mask(i % 8) != 0);
      }
    }

    method SetAll()
      modifies bits
      ensures forall i :: i in Members() <==> 0 <= i < 8 * bits.Length
    {
      for i := 0 to bits.Length
        invariant forall j :: 0 <= j < i ==> bits[j] == 0xFF
      {
        bits[i] := 0xFF;
      }
      forall j, k: nat | 0 <= j < bits.Length && k < 8
        ensures Bit(bits[j], k)
      {
        AllOnes(k);
      }
    }

    method ClearAll()
      modifies bits
      ensures Members() == {}
    {
      for i := 0 to bits.Length
        invariant forall j :: 0 <= j < i ==> bits[j] == 0
      {
        bits[i] := 0;
      }
    }

    method ToByteArray() returns (copy: array<bv8>)
      ensures fresh(copy) && copy[..] == bits[..]
    {
      copy := new bv8[bits.Length](_ => 0);
      for i := 0 to bits.Length
        invariant forall j :: 0 <= j < i ==> copy[j] == bits[j]
      {
        copy[i] := bits[i];
      }
    }

    // The bitmap a peer rebuilds from the bytes it was sent marks the same pieces.
    static method Transfer(b: BitSet) returns (c: BitSet)
      ensures fresh(c) && fresh(c.bits) && c.Members() == b.Members()
    {
      var bytes := b.ToByteArray();
      c := new BitSet.FromByteArray(bytes);
      assert forall i :: 0 <= i < c.bits.Length ==> c.bits[..][i] == b.bits[..][i];
    }
  }

  lemma AllOnes(k: nat)
    requires k < 8
    ensures Bit(0xFF, k)
  {
  }

  lemma SamePosition(i: nat, j: nat)
    ensures i / 8 == j / 8 && i % 8 == j % 8 <==> i == j
  {
    assert i == 8 * (i / 8) + i % 8 && j == 8 * (j / 8) + j % 8;
  }
}
