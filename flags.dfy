/**
 * The flag byte of an AVL node (avl.c:41-63).
 *
 *   bit 7      unused (sign bit of the int8_t)
 *   bits 6-4   balance + 2, so -2..+2 is stored as 0..4
 *   bit 3      first node of its slab (the address later given to free)
 *   bit 2      node is in use (part of the tree)
 *   bit 1      node is marked for release by the slab reclamation pass
 *   bit 0      available
 *
 * The byte is modelled as a bv8; the source's macros become functions whose
 * contracts state the round trips and what they leave alone.
 */
module Flags {

  const BAL_MASK: bv8 := 0x70
  /** Bit positions, used as shift amounts exactly as in the source. */
  const FLG_1ST: nat := 3
  const FLG_USD: nat := 2
  const FLG_CLN: nat := 1

  /** A balance that a node may carry, including the transient -2 and +2. */
  predicate IsBal(b: int) { -2 <= b <= 2 }

  /** The bits that are not the balance field. */
  function Rest(f: bv8): (r: bv8) { f & 0x8F }

  /** AVL_getbal: the balance field minus 2. */
  function GetBal(f: bv8): (b: int)
    ensures -2 <= b <= 5
  {
    ((f & BAL_MASK) >> 4) as int - 2
  }

  /** AVL_setbal: replace the balance field, keep every other bit. */
  function SetBal(f: bv8, b: int): (g: bv8)
    requires IsBal(b)
    ensures GetBal(g) == b
    ensures Rest(g) == Rest(f)
  {
    var v: bv8 := (b + 2) as bv8;
    assert v < 5;
    (f & !BAL_MASK) | (v << 4)
  }

  /** AVL_incbal: add one to the balance field. */
  function IncBal(f: bv8): (g: bv8)
    ensures -2 <= GetBal(f) < 2 ==> GetBal(g) == GetBal(f) + 1 && Rest(g) == Rest(f)
  {
    f + 0x10
  }

  /** AVL_decbal: subtract one from the balance field. */
  function DecBal(f: bv8): (g: bv8)
    ensures -2 < GetBal(f) <= 2 ==> GetBal(g) == GetBal(f) - 1 && Rest(g) == Rest(f)
  {
    f - 0x10
  }

  /** The mask of flag bit k. */
  function Bit(k: nat): (r: bv8)
    requires k < 8
  {
    (1 as bv8) << k
  }

  /** AVL_getbit, read as a truth value (the source tests it against 0). */
  predicate GetBit(f: bv8, k: nat)
    requires k < 8
  {
    f & Bit(k) != 0
  }

  /** AVL_setbit: set bit k, keep every other bit. */
  function SetBit(f: bv8, k: nat): (g: bv8)
    requires k < 4
    ensures GetBit(g, k)
    ensures forall j :: 0 <= j < 8 && j != k ==> (GetBit(g, j) <==> GetBit(f, j))
    ensures GetBal(g) == GetBal(f)
  {
    f | Bit(k)
  }

  /** AVL_clrbit: clear bit k, keep every other bit. */
  function ClrBit(f: bv8, k: nat): (g: bv8)
    requires k < 4
    ensures !GetBit(g, k)
    ensures forall j :: 0 <= j < 8 && j != k ==> (GetBit(g, j) <==> GetBit(f, j))
    ensures GetBal(g) == GetBal(f)
  {
    f & !Bit(k)
  }

  /** SetBal leaves every flag bit as it was. */
  lemma SetBalKeepsBits(f: bv8, b: int, k: nat)
    requires IsBal(b) && k < 4
    ensures GetBit(SetBal(f, b), k) <==> GetBit(f, k)
  {
    assert SetBal(f, b) & 0x0F == f & 0x0F by {
      assert Rest(SetBal(f, b)) == Rest(f);
    }
  }

  /** Two flag bytes that agree outside the balance field agree on every flag bit. */
  lemma RestBits(f: bv8, g: bv8, k: nat)
    requires Rest(f) == Rest(g) && k < 4
    ensures GetBit(f, k) <==> GetBit(g, k)
  {
    assert f & Bit(k) == Rest(f) & Bit(k) && g & Bit(k) == Rest(g) & Bit(k);
  }

  /** Clearing a bit that is clear changes nothing, so setting it and clearing it again is the identity. */
  lemma ClrUnset(f: bv8, k: nat)
    requires k < 4 && !GetBit(f, k)
    ensures ClrBit(f, k) == f && ClrBit(SetBit(f, k), k) == f
  {
  }

  /** IncBal and DecBal undo each other (bv8 arithmetic wraps). */
  lemma IncDecInverse(f: bv8)
    ensures DecBal(IncBal(f)) == f && IncBal(DecBal(f)) == f
  {
  }
}
