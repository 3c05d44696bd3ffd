/** The size classes of the tiered cache (cpp_learning_projects/memory-mgkl/include/Common.hpp:9-30). */
module SizeClasses {

  const ALIGNMENT: nat := 8
  const MAX_BYTES: nat := 256 * 1024
  const FREE_LIST_SIZE: nat := MAX_BYTES / ALIGNMENT

  /** `(bytes + 7) & ~7`; `MaskRoundsDown` ties the mask to the remainder. */
  function Ceil(bytes: nat): nat {
    bytes + 7 - (bytes + 7) % ALIGNMENT
  }

  lemma MaskRoundsDown(x: bv64)
    ensures x & !7 == x - x % 8
  {
  }

  function GetIndex(bytes: nat): nat {
    ((if bytes < ALIGNMENT then ALIGNMENT else bytes) + ALIGNMENT - 1) / ALIGNMENT - 1
  }

  /** The bytes of a block in class `index`. */
  function ClassBytes(index: nat): nat {
    (index + 1) * ALIGNMENT
  }

  /** Each class serves the sizes up to its block size and above that of the class before. */
  lemma ClassIsTight(bytes: nat)
    requires bytes <= MAX_BYTES
    ensures GetIndex(bytes) < FREE_LIST_SIZE && bytes <= ClassBytes(GetIndex(bytes))
    ensures forall i :: 0 <= i < GetIndex(bytes) ==> ClassBytes(i) < bytes
  {
  }

  /** Rounding agrees with the class, except that it leaves zero bytes at zero. */
  lemma CeilMatchesClassIff(bytes: nat)
    ensures Ceil(bytes) == ClassBytes(GetIndex(bytes)) <==> bytes >= 1
  {
  }
}
