/** The bit-packed block bitmap (file-systems-noodlez102/fs.c:56-66). */
module FsBitmap {

  /** Digit `k` of the binary notation of a number is one. */
  predicate Digit(x: nat, k: nat) {
    if k == 0 then x % 2 == 1 else Digit(x / 2, k - 1)
  }

  /** Block `index` is in use: its byte, as a number, has a one at the place of the block. */
  predicate Bit(bitmap: seq<bv8>, index: nat)
    requires index < 8 * |bitmap|
  {
    Digit(bitmap[index / 8] as int, index % 8)
  }

  lemma {:induction false} NoDigits(k: nat)
    ensures !Digit(0, k)
  {
    if k > 0 {
      NoDigits(k - 1);
    }
  }

  function Mask(k: nat): bv8
    requires k < 8
  {
    (1 as bv8) << k
  }

  lemma MaskCases(k: nat)
    requires k < 8
    ensures Mask(k) == match k case 0 => 1 case 1 => 2 case 2 => 4 case 3 => 8
      case 4 => 16 case 5 => 32 case 6 => 64 case _ => 128
  {
    assert Mask(0) == 1 && Mask(1) == 2 && Mask(2) == 4 && Mask(3) == 8;
    assert Mask(4) == 16 && Mask(5) == 32 && Mask(6) == 64 && Mask(7) == 128;
  }

  lemma Odd(x: bv8)
    ensures x & 1 != 0 <==> x as int % 2 == 1
  {}

  lemma Half(x: bv8)
    ensures (x / 2) as int == x as int / 2
  {}

  lemma MaskOfHalf(x: bv8, k: nat)
    requires 0 < k < 8
    ensures x & Mask(k) != 0 <==> (x / 2) & Mask(k - 1) != 0
  {
    MaskCases(k);
    MaskCases(k - 1);
  }

  /** Masking a byte tells the digit: what the bit operations of the code see is a digit of a number. */
  lemma {:induction false} MaskIsDigit(x: bv8, k: nat)
    requires k < 8
    ensures x & Mask(k) != 0 <==> Digit(x as int, k)
    decreases k
  {
    if k == 0 {
      MaskCases(0);
      Odd(x);
    } else {
      MaskOfHalf(x, k);
      Half(x);
      MaskIsDigit(x / 2, k - 1);
    }
  }

  /** Setting a bit of a byte sets that bit and no other. */
  lemma SetDigit(x: bv8, k: nat, j: nat)
    requires k < 8 && j < 8
    ensures Digit((x | Mask(k)) as int, j) <==> j == k || Digit(x as int, j)
  {
    MaskIsDigit(x | Mask(k), j);
    MaskIsDigit(x, j);
    SetMasked(x, k, j);
  }

  lemma SetMasked(x: bv8, k: nat, j: nat)
    requires k < 8 && j < 8
    ensures (x | Mask(k)) & Mask(j) != 0 <==> j == k || x & Mask(j) != 0
  {
    MaskCases(k);
    MaskCases(j);
  }

  /** Clearing a bit of a byte clears that bit and no other. */
  lemma ClearDigit(x: bv8, k: nat, j: nat)
    requires k < 8 && j < 8
    ensures Digit((x & !Mask(k)) as int, j) <==> j != k && Digit(x as int, j)
  {
    MaskIsDigit(x & !Mask(k), j);
    MaskIsDigit(x, j);
    ClearMasked(x, k, j);
  }

  lemma ClearMasked(x: bv8, k: nat, j: nat)
    requires k < 8 && j < 8
    ensures x & !Mask(k) & Mask(j) != 0 <==> j != k && x & Mask(j) != 0
  {
    MaskCases(k);
    MaskCases(j);
  }

  /** A byte of the bitmap is replaced by one with other digits; the bits of other bytes stay. */
  lemma SetInByte(bits: seq<bv8>, index: nat, j: nat)
    requires index < 8 * |bits| && j < 8 * |bits|
    ensures Bit(bits[index / 8 := bits[index / 8] | Mask(index % 8)], j) <==> j == index || Bit(bits, j)
  {
    SetDigit(bits[index / 8], index % 8, j % 8);
  }

  lemma ClearInByte(bits: seq<bv8>, index: nat, j: nat)
    requires index < 8 * |bits| && j < 8 * |bits|
    ensures Bit(bits[index / 8 := bits[index / 8] & !Mask(index % 8)], j) <==> j != index && Bit(bits, j)
  {
    ClearDigit(bits[index / 8], index % 8, j % 8);
  }

  method SetBit(bitmap: array<bv8>, index: nat)
    requires index < 8 * bitmap.Length
    modifies bitmap
    ensures forall j: nat :: j < 8 * bitmap.Length ==>
      (Bit(bitmap[..], j) <==> j == index || Bit(old(bitmap[..]), j))
  {
    ghost var bits := bitmap[..];
    bitmap[index / 8] := bitmap[index / 8] | Mask(index % 8);
    assert bitmap[..] == bits[index / 8 := bits[index / 8] | Mask(index % 8)];
    forall j: nat | j < 8 * bitmap.Length
      ensures Bit(bitmap[..], j) <==> j == index || Bit(bits, j)
    {
      SetInByte(bits, index, j);
    }
  }

  method ClearBit(bitmap: array<bv8>, index: nat)
    requires index < 8 * bitmap.Length
    modifies bitmap
    ensures forall j: nat :: j < 8 * bitmap.Length ==>
      (Bit(bitmap[..], j) <==> j != index && Bit(old(bitmap[..]), j))
  {
    ghost var bits := bitmap[..];
    bitmap[index / 8] := bitmap[index / 8] & !Mask(index % 8);
    assert bitmap[..] == bits[index / 8 := bits[index / 8] & !Mask(index % 8)];
    forall j: nat | j < 8 * bitmap.Length
      ensures Bit(bitmap[..], j) <==> j != index && Bit(bits, j)
    {
      ClearInByte(bits, index, j);
    }
  }

  method GetBit(bitmap: array<bv8>, index: nat) returns (isSet: bool)
    requires index < 8 * bitmap.Length
    ensures isSet == Bit(bitmap[..], index)
  {
    isSet := bitmap[index / 8] & Mask(index % 8) != 0;
    MaskIsDigit(bitmap[index / 8], index % 8);
  }
}
