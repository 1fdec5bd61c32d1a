/** Capabilities with exact bounds, and the bounds arithmetic of `src/util/morello.c`. */
module Capability {

  const U32: nat := 0x1_0000_0000
  const U64: nat := 0x1_0000_0000_0000_0000

  /** The permission bits that the repository names (`src/util/perms.h`). */
  datatype Perm =
    | Global
    | Load | LoadCap | MutableLoad
    | Store | StoreCap | StoreLocalCap
    | Execute | Executive | SysReg
    | Seal | Unseal
    | CapInvoke | CmptId | Vmem
    | User1 | User2 | User3

  /** Object types: 0 is unsealed, 1 to 3 are the reserved sentry-like types. */
  const UNSEALED: nat := 0
  const RB: nat := 1
  const LPB: nat := 2
  const LB: nat := 3
  const MAX_OTYPE: nat := 0x7fff

  /** A bit pattern below `range` as a signed number. */
  function Signed(v: nat, range: nat): int {
    if v >= range / 2 then v - range else v
  }

  /** `length` is what the length intrinsic reports, so it is below 2^64 even for NULL. */
  datatype Cap = Cap(tag: bool, base: nat, length: nat, address: int, perms: set<Perm>, otype: nat)
  {
    /** The value fits the architecture; the limit may be 2^64, which 64-bit arithmetic takes for 0. */
    predicate Valid() {
      base < U64 && length < U64 && base + length <= U64 && 0 <= address < U64 && otype <= MAX_OTYPE
    }

    predicate Sealed() { otype != UNSEALED }

    /** `cap == NULL` compares addresses only. */
    predicate IsNull() { address == 0 }

    /** `cheri_length_get_zero`: an untagged NULL has length zero. */
    function LengthZero(): nat {
      if IsNull() && !tag then 0 else length
    }

    /** `cheri_get_limit` */
    function Limit(): nat { (base + LengthZero()) % U64 }

    /** `cheri_get_tail`: how many bytes lie between the address and the limit. */
    function Tail(): nat {
      if base <= address < Limit() then Limit() - address else 0
    }

    /** `cheri_in_bounds`, which uses the plain length. */
    predicate InBounds() { base <= address < (base + length) % U64 }

    /** `cheri_is_deref` */
    predicate Deref() { tag && InBounds() && !Sealed() }

    function At(a: int): Cap { this.(address := a) }

    /** Pointer arithmetic keeps everything but the address. */
    function Plus(d: int): Cap { this.(address := address + d) }

    /** `cheri_perms_and` */
    function PermsAnd(mask: set<Perm>): Cap { this.(perms := perms * mask) }

    /** `cheri_perms_clear` */
    function PermsClear(mask: set<Perm>): Cap { this.(perms := perms - mask) }

    /** `cheri_bounds_set_exact` at the current address: monotonic, or the tag is lost. */
    function SetBounds(len: nat): Cap {
      this.(base := if address < 0 then 0 else address, length := len,
            tag := tag && base <= address && address + len <= base + length && !Sealed())
    }

    /** Sealing with a fixed or given object type; a sealed capability cannot be sealed again. */
    function SealAs(t: nat): Cap {
      this.(otype := t, tag := tag && !Sealed())
    }

    function Unsealed(): Cap { this.(otype := UNSEALED) }

    function Untagged(): Cap { this.(tag := false) }
  }

  const NULL: Cap := Cap(false, 0, U64 - 1, 0, {}, UNSEALED)

  const READ_CAP_PERMS: set<Perm> := {Load, LoadCap, MutableLoad}
  const WRITE_CAP_PERMS: set<Perm> := {Store, StoreCap, StoreLocalCap}
  const EXEC_CAP_PERMS: set<Perm> := {Execute, Executive, SysReg}
  const RW_PERMS: set<Perm> := {Global} + READ_CAP_PERMS + WRITE_CAP_PERMS
  const RX_PERMS: set<Perm> := {Global} + READ_CAP_PERMS + EXEC_CAP_PERMS

  function Min(a: nat, b: nat): nat { if a < b then a else b }

  /** `cheri_align_down` and `cheri_align_up` to 16 bytes, the size of a capability. */
  function AlignDown(a: nat): (r: nat)
    ensures r % 16 == 0 && r <= a < r + 16
  {
    a - a % 16
  }

  function AlignUp(a: nat): (r: nat)
    ensures r % 16 == 0 && r - 16 < a <= r
  {
    AlignDown(a + 15)
  }

  /** Being dereferenceable is the same as being a valid unsealed capability with a non-empty tail. */
  lemma DerefIffTail(c: Cap)
    ensures c.Deref() <==> c.tag && !c.Sealed() && c.Tail() > 0
    ensures c.Valid() && c.Deref() ==> c.Tail() == c.base + c.length - c.address
  {
  }

  /** The tail reaches from an address within bounds up to the limit; it is empty elsewhere and for NULL. */
  lemma TailMeans(c: Cap)
    requires c.Valid() && c.base + c.length < 0x1_0000_0000_0000_0000
    ensures c.base <= c.address < c.base + c.length && (c.tag || c.address != 0) ==>
              c.address + c.Tail() == c.base + c.length && c.InBounds()
    ensures !(c.base <= c.address < c.base + c.length) ==> c.Tail() == 0 && !c.InBounds()
    ensures c.address == 0 && !c.tag ==> c.Tail() == 0
  {
  }

  /** Nothing counts as in bounds of a capability that reaches up to 2^64, because its limit wraps around to 0. */
  lemma TopIsNeverInBounds(c: Cap)
    requires c.Valid() && c.base + c.length == U64
    ensures !c.InBounds() && c.Tail() == 0 && !c.Deref()
  {
  }
}
