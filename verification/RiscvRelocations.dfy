/** RISC-V relocations: what the patched instructions compute.  Immediate formats are those
    of the base instruction set: B, J, U, I and S. */
module RiscvRelocations {
  import opened Arith
  import opened RelocationBits

  const WORD: nat := 0x1_0000_0000

  // ----------------------------------------------------------- B: branches

  function PatchBranch(insn: nat, offset: int): nat {
    Field(insn, 1, 128) + Field(insn, 4096, 8192) * 4096
    + Field(offset, 4096, 2) * 0x8000_0000 + Field(offset, 32, 64) * 0x200_0000
    + Field(offset, 2, 16) * 256 + Field(offset, 2048, 2) * 128
  }

  function BranchImm(insn: nat): int {
    -4096 * Field(insn, 0x8000_0000, 2) + 2048 * Field(insn, 128, 2) + 32 * Field(insn, 0x200_0000, 64)
        + 2 * Field(insn, 256, 16)
  }

  // The word's fields, from the top: imm[12], imm[10:5], the registers and function code,
  // imm[4:1], imm[11], the opcode.
  lemma BranchFields(s: nat, hi: nat, mid: nat, lo: nat, b: nat, op: nat)
    requires s < 2 && hi < 64 && mid < 8192 && lo < 16 && b < 2 && op < 128
    ensures var w := op + b * 128 + lo * 256 + mid * 4096 + hi * 0x200_0000 + s * 0x8000_0000;
      && w < WORD && Field(w, 0x8000_0000, 2) == s && Field(w, 0x200_0000, 64) == hi && Field(w, 4096, 8192) == mid
      && Field(w, 256, 16) == lo && Field(w, 128, 2) == b && Field(w, 1, 128) == op
  {
    Placed(0, s, op + b * 128 + lo * 256 + mid * 4096 + hi * 0x200_0000, 0x8000_0000, 2);
    Placed(s, hi, op + b * 128 + lo * 256 + mid * 4096, 0x200_0000, 64);
    Placed(s * 64 + hi, mid, op + b * 128 + lo * 256, 4096, 8192);
    Placed((s * 64 + hi) * 8192 + mid, lo, op + b * 128, 256, 16);
    Placed(((s * 64 + hi) * 8192 + mid) * 16 + lo, b, op, 128, 2);
    Placed((((s * 64 + hi) * 8192 + mid) * 16 + lo) * 2 + b, op, 0, 1, 128);
  }

  lemma BranchSplit(d: int)
    requires -4096 <= d < 4096
    ensures -4096 * Field(d, 4096, 2) + 2048 * Field(d, 2048, 2) + 32 * Field(d, 32, 64) + 2 * Field(d, 2, 16)
      == d - d % 2
  {
    var e := d / 2;
    var f := e / 16;
    var g := f / 64;
    DivTwice(d, 2, 16);
    DivTwice(d, 32, 64);
    DivTwice(d, 2048, 2);
    assert d / 4096 == g / 2 == if d < 0 then -1 else 0;
  }

  /** A branch relocation succeeds and reaches the symbol exactly for even offsets of 13
      signed bits; the opcode, registers and function code stay. */
  lemma BranchReaches(insn: nat, d: int)
    requires insn < WORD
    ensures var w := PatchBranch(insn, AsI32(d));
      && w < WORD && Field(w, 1, 128) == Field(insn, 1, 128) && Field(w, 4096, 8192) == Field(insn, 4096, 8192)
      && (-4096 <= AsI32(d) <= 4095 && BranchImm(w) == d <==> -4096 <= d <= 4094 && d % 2 == 0)
  {
    hide Field;
    var o := AsI32(d);
    BranchFields(Field(o, 4096, 2), Field(o, 32, 64), Field(insn, 4096, 8192), Field(o, 2, 16), Field(o, 2048, 2),
        Field(insn, 1, 128));
    AsI32Exact(d);
    if -4096 <= o <= 4095 { BranchSplit(o); }
  }

  /** The distances whose cast passes the check: those within 2^12 of a multiple of 2^32. */
  lemma BranchAccepted(d: int)
    ensures -4096 <= AsI32(d) <= 4095 <==> (d + 4096) % 0x1_0000_0000 < 8192
  {
  }

  /** A branch 2^32 bytes ahead is accepted and goes somewhere else. */
  lemma WrappedBranchIsAccepted(insn: nat, d: int)
    requires insn < WORD && d == 0x1_0000_0000
    ensures -4096 <= AsI32(d) <= 4095 && BranchImm(PatchBranch(insn, AsI32(d))) != d
  {
    hide BranchImm, PatchBranch;
    BranchReaches(insn, d);
  }

  // --------------------------------------------------------------- J: jal

  function PatchJal(insn: nat, offset: int): nat {
    Field(insn, 1, 4096) + Field(offset, 0x10_0000, 2) * 0x8000_0000 + Field(offset, 2, 1024) * 0x20_0000
    + Field(offset, 2048, 2) * 0x10_0000 + Field(offset, 4096, 256) * 4096
  }

  function JalImm(insn: nat): int {
    -0x10_0000 * Field(insn, 0x8000_0000, 2) + 4096 * Field(insn, 4096, 256) + 2048 * Field(insn, 0x10_0000, 2)
        + 2 * Field(insn, 0x20_0000, 1024)
  }

  lemma JalFields(s: nat, lo: nat, b: nat, hi: nat, op: nat)
    requires s < 2 && lo < 1024 && b < 2 && hi < 256 && op < 4096
    ensures var w := op + hi * 4096 + b * 0x10_0000 + lo * 0x20_0000 + s * 0x8000_0000;
      && w < WORD && Field(w, 0x8000_0000, 2) == s && Field(w, 0x20_0000, 1024) == lo && Field(w, 0x10_0000, 2) == b
      && Field(w, 4096, 256) == hi && Field(w, 1, 4096) == op
  {
    Placed(0, s, op + hi * 4096 + b * 0x10_0000 + lo * 0x20_0000, 0x8000_0000, 2);
    Placed(s, lo, op + hi * 4096 + b * 0x10_0000, 0x20_0000, 1024);
    Placed(s * 1024 + lo, b, op + hi * 4096, 0x10_0000, 2);
    Placed((s * 1024 + lo) * 2 + b, hi, op, 4096, 256);
    Placed(((s * 1024 + lo) * 2 + b) * 256 + hi, op, 0, 1, 4096);
  }

  lemma JalSplit(d: int)
    requires -0x10_0000 <= d < 0x10_0000
    ensures -0x10_0000 * Field(d, 0x10_0000, 2) + 4096 * Field(d, 4096, 256) + 2048 * Field(d, 2048, 2)
      + 2 * Field(d, 2, 1024) == d - d % 2
  {
    var e := d / 2;
    var f := e / 1024;
    var g := f / 2;
    DivTwice(d, 2, 1024);
    DivTwice(d, 2048, 2);
    DivTwice(d, 4096, 256);
    assert d / 0x10_0000 == g / 256 == if d < 0 then -1 else 0;
  }

  /** A jal relocation succeeds and reaches the symbol exactly for even offsets of 21 signed
      bits. */
  lemma JalReaches(insn: nat, d: int)
    requires insn < WORD
    ensures var w := PatchJal(insn, AsI32(d));
      && w < WORD && Field(w, 1, 4096) == Field(insn, 1, 4096)
      && (-0x10_0000 <= AsI32(d) <= 0xF_FFFF && JalImm(w) == d <==> -0x10_0000 <= d <= 0xF_FFFE && d % 2 == 0)
  {
    hide Field;
    var o := AsI32(d);
    JalFields(Field(o, 0x10_0000, 2), Field(o, 2, 1024), Field(o, 2048, 2), Field(o, 4096, 256), Field(insn, 1, 4096));
    AsI32Exact(d);
    if -0x10_0000 <= o <= 0xF_FFFF { JalSplit(o); }
  }

  lemma JalAccepted(d: int)
    ensures -0x10_0000 <= AsI32(d) <= 0xF_FFFF <==> (d + 0x10_0000) % 0x1_0000_0000 < 0x20_0000
  {
  }

  /** A jump 2^32 bytes ahead is accepted and goes somewhere else. */
  lemma WrappedJalIsAccepted(insn: nat, d: int)
    requires insn < WORD && d == 0x1_0000_0000
    ensures -0x10_0000 <= AsI32(d) <= 0xF_FFFF && JalImm(PatchJal(insn, AsI32(d))) != d
  {
    hide JalImm, PatchJal;
    JalReaches(insn, d);
  }

  // ------------------------------------------- U with I or S: 32-bit offsets

  // lui and auipc: value is shifted into the top 20 bits.
  function PatchUpper(insn: nat, value: int): nat {
    Field(insn, 1, 4096) + Field(value, 1, 0x10_0000) * 4096
  }

  function UpperImm(insn: nat): int {
    4096 * Signed(Field(insn, 4096, 0x10_0000), 0x10_0000)
  }

  function PatchI(insn: nat, lo: nat): nat {
    Field(insn, 1, 0x10_0000) + lo * 0x10_0000
  }

  function ImmI(insn: nat): int {
    Signed(Field(insn, 0x10_0000, 4096), 4096)
  }

  function PatchS(insn: nat, lo: nat): nat {
    Field(insn, 1, 128) + Field(insn, 4096, 8192) * 4096 + Field(lo, 32, 128) * 0x200_0000 + Field(lo, 1, 32) * 128
  }

  function ImmS(insn: nat): int {
    Signed(Field(insn, 0x200_0000, 128) * 32 + Field(insn, 128, 32), 4096)
  }

  // The two parts of an offset: the low one is added signed, so the high one is rounded.
  function HiPart(d: int): int {
    (d + 0x800) / 4096
  }

  function LoPart(d: int): (lo: nat)
    ensures lo < 4096
  {
    d % 4096
  }

  lemma UpperRead(insn: nat, value: int)
    requires insn < WORD
    ensures var w := PatchUpper(insn, value);
      && w < WORD && Field(w, 1, 4096) == Field(insn, 1, 4096)
      && UpperImm(w) == 4096 * Signed(value % 0x10_0000, 0x10_0000)
  {
    hide Signed;
    var f, op := Field(value, 1, 0x10_0000), Field(insn, 1, 4096);
    Placed(0, f, op, 4096, 0x10_0000);
    Placed(f, op, 0, 1, 4096);
    assert value / 1 == value;
  }

  lemma IRead(insn: nat, lo: nat)
    requires insn < WORD && lo < 4096
    ensures var w := PatchI(insn, lo);
      w < WORD && Field(w, 1, 0x10_0000) == Field(insn, 1, 0x10_0000) && ImmI(w) == Signed(lo, 4096)
  {
    hide Signed;
    var op := Field(insn, 1, 0x10_0000);
    Placed(0, lo, op, 0x10_0000, 4096);
    Placed(lo, op, 0, 1, 0x10_0000);
  }

  lemma SRead(insn: nat, lo: nat)
    requires insn < WORD && lo < 4096
    ensures var w := PatchS(insn, lo);
      && w < WORD && Field(w, 1, 128) == Field(insn, 1, 128) && Field(w, 4096, 8192) == Field(insn, 4096, 8192)
      && ImmS(w) == Signed(lo, 4096)
  {
    hide Signed;
    var hi, mid, low, op := Field(lo, 32, 128), Field(insn, 4096, 8192), Field(lo, 1, 32), Field(insn, 1, 128);
    Placed(0, hi, op + low * 128 + mid * 4096, 0x200_0000, 128);
    Placed(hi, mid, op + low * 128, 4096, 8192);
    Placed(hi * 8192 + mid, low, op, 128, 32);
    Placed((hi * 8192 + mid) * 32 + low, op, 0, 1, 128);
    assert hi * 32 + low == lo;
  }

  // What an instruction pair adds up to when both parts are patched for offset d.
  function PairSum(d: int): int {
    4096 * Signed(HiPart(d) % 0x10_0000, 0x10_0000) + Signed(LoPart(d), 4096)
  }

  /** A high part and a low part patched for the same offset add up to it exactly when it
      lies in [-2^31 - 2^11, 2^31 - 2^11). */
  lemma PairAddsUp(d: int)
    ensures PairSum(d) == d <==> -0x8000_0800 <= d < 0x7FFF_F800
  {
    var h := HiPart(d);
    LowIsRest(d);
    SignedResidue(h, 0x10_0000);
  }

  lemma LowIsRest(d: int)
    ensures d == 4096 * HiPart(d) + Signed(LoPart(d), 4096)
  {
  }

  /** A call 2^31 - 1 bytes ahead passes the range check of CALL and goes somewhere else. */
  lemma CallAtEndIsWrong(d: int)
    requires d == 0x7FFF_FFFF
    ensures -0x8000_0000 <= d <= 0x7FFF_FFFF && PairSum(d) != d
  {
    hide PairSum;
    PairAddsUp(d);
  }
}
