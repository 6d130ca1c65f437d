/**
 * Processor feature detection for x86: the five instruction-set extensions the
 * benchmark has kernels for, read from the CPUID feature-information leaves
 * (leaf 01H and leaf 07H sub-leaf 0, as laid out in the CPUID entry of
 * chapter 3 of the Intel 64 and IA-32 Architectures Software Developer's
 * Manual, Volume 2A) and folded into a 5-bit mask.
 *
 * The CPUID instruction itself is not modelled: the four register values it
 * would return are an input (Regs).
 */
module CpuId {

  /** The extensions of cpuid_x86_feature_t, one flag bit each. */
  datatype Feature = Sse | Avx | Fma | Avx512f | Avx512Vnni

  /** Bit index of each flag within the feature mask. */
  function Index(f: Feature): nat
  {
    match f
    case Sse => 0
    case Avx => 1
    case Fma => 2
    case Avx512f => 3
    case Avx512Vnni => 4
  }

  /** The enumerator value of each flag. */
  function Mask(f: Feature): (m: bv32)
    ensures m == 1 << Index(f)
    ensures m != 0 && m & (m - 1) == 0 && m < 0x20
  {
    match f
    case Sse => 0x1
    case Avx => 0x2
    case Fma => 0x4
    case Avx512f => 0x8
    case Avx512Vnni => 0x10
  }

  /** Whether `feat` records `f`: its bit Index(f) is one. */
  predicate Has(feat: bv32, f: Feature)
  {
    match f
    case Sse => (feat >> 0) & 1 == 1
    case Avx => (feat >> 1) & 1 == 1
    case Fma => (feat >> 2) & 1 == 1
    case Avx512f => (feat >> 3) & 1 == 1
    case Avx512Vnni => (feat >> 4) & 1 == 1
  }

  /** Values returned by the two CPUID queries the probe makes. */
  datatype Regs = Regs(
    leaf1Edx: bv32,  // leaf 01H, EDX
    leaf1Ecx: bv32,  // leaf 01H, ECX
    leaf7Ebx: bv32,  // leaf 07H sub-leaf 0, EBX
    leaf7Ecx: bv32   // leaf 07H sub-leaf 0, ECX
  )

  /**
   * Whether the processor reports `f`, per the Intel manual: leaf 01H EDX bit 25
   * is SSE, ECX bit 28 is AVX and ECX bit 12 is FMA; leaf 07H EBX bit 16 is
   * AVX512F and ECX bit 11 is AVX512_VNNI.
   */
  predicate Detected(regs: Regs, f: Feature)
  {
    match f
    case Sse => (regs.leaf1Edx >> 25) & 1 == 1
    case Avx => (regs.leaf1Ecx >> 28) & 1 == 1
    case Fma => (regs.leaf1Ecx >> 12) & 1 == 1
    case Avx512f => (regs.leaf7Ebx >> 16) & 1 == 1
    case Avx512Vnni => (regs.leaf7Ecx >> 11) & 1 == 1
  }

  /** BIT_TEST: 1 when bit `pos` of `bitMap` is set, else 0. */
  function BitTest(bitMap: bv32, pos: nat): (r: nat)
    requires pos < 32
    ensures r <= 1
  {
    if bitMap & (1 << pos) != 0 then 1 else 0
  }

  /**
   * The mask cpuid_x86_init leaves in `feat`: exactly the flags the registers
   * report, and no bit outside the five enumerators.
   */
  function DecodeFeatures(regs: Regs): (feat: bv32)
    ensures feat < 0x20
    ensures forall f :: Has(feat, f) <==> Detected(regs, f)
  {
    (if BitTest(regs.leaf1Edx, 25) == 1 then Mask(Sse) else 0)
    | (if BitTest(regs.leaf1Ecx, 28) == 1 then Mask(Avx) else 0)
    | (if BitTest(regs.leaf1Ecx, 12) == 1 then Mask(Fma) else 0)
    | (if BitTest(regs.leaf7Ebx, 16) == 1 then Mask(Avx512f) else 0)
    | (if BitTest(regs.leaf7Ecx, 11) == 1 then Mask(Avx512Vnni) else 0)
  }

  /** cpuid_x86_support on a mask value: the flag's bit of `feat`, kept in place. */
  function SupportOf(feat: bv32, f: Feature): (r: bv32)
    ensures r == 0 || r == Mask(f)
    ensures r != 0 <==> Has(feat, f)
  {
    feat & Mask(f)
  }

  /** The probe's process-wide state: the static `feat` mask. */
  class FeatureState {
    var feat: bv32

    /** Static storage starts out zero. */
    constructor ()
      ensures feat == 0
    {
      feat := 0;
    }

    /** SET_FEAT: OR a flag into `feat`. */
    method SetFeat(mask: bv32)
      modifies this
      ensures feat == old(feat) | mask
    {
      feat := feat | mask;
    }

    /**
     * cpuid_x86_init: clear `feat`, then set one flag per feature bit the two
     * CPUID leaves report. Whatever `feat` held before is gone.
     */
    method Init(regs: Regs)
      modifies this
      ensures feat == DecodeFeatures(regs)
    {
      feat := 0;

      // leaf 01H, sub-leaf 0
      if BitTest(regs.leaf1Edx, 25) == 1 {
        SetFeat(Mask(Sse));
      }
      if BitTest(regs.leaf1Ecx, 28) == 1 {
        SetFeat(Mask(Avx));
      }
      if BitTest(regs.leaf1Ecx, 12) == 1 {
        SetFeat(Mask(Fma));
      }

      // leaf 07H, sub-leaf 0
      if BitTest(regs.leaf7Ebx, 16) == 1 {
        SetFeat(Mask(Avx512f));
      }
      if BitTest(regs.leaf7Ecx, 11) == 1 {
        SetFeat(Mask(Avx512Vnni));
      }
    }

    /** cpuid_x86_support: `feat & feature`, nonzero exactly when the flag is recorded. */
    function Support(f: Feature): (r: bv32)
      reads this
      ensures r == 0 || r == Mask(f)
      ensures r != 0 <==> Has(feat, f)
    {
      SupportOf(feat, f)
    }
  }

  /** After Init, a single-flag query is nonzero exactly when the registers report that flag. */
  lemma SupportAfterInit(regs: Regs, f: Feature)
    ensures SupportOf(DecodeFeatures(regs), f) != 0 <==> Detected(regs, f)
    ensures SupportOf(DecodeFeatures(regs), f) == (if Detected(regs, f) then Mask(f) else 0)
  {
  }
}
