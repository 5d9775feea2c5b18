/** AArch64 relocations with the procedure linkage table: where a patched BL arrives, and
    what a patched ADRP and ADD compute.  Instruction formats are those of the A64 base
    instruction set. */
module Aarch64Relocations {
  import opened RelocationBits

  const WORD: nat := 0x1_0000_0000

  // ------------------------------------------------------------------ BL, B

  function PatchBl(insn: nat, offset: int): nat {
    Field(insn, 0x400_0000, 64) * 0x400_0000 + Field(offset, 1, 0x400_0000)
  }

  // The byte offset of a BL or B.
  function BlImm(insn: nat): int {
    4 * Signed(Field(insn, 1, 0x400_0000), 0x400_0000)
  }

  // The word offset, as it is computed: shifted right and cast to 32 bits.
  function WordOffset(d: int): int {
    AsI32(d / 4)
  }

  predicate Near(offset: int) {
    -0x200_0000 <= offset <= 0x1FF_FFFF
  }

  // Where a BL patched for distance x lands, relative to itself: 26 bits of words survive.
  function Landing(x: int): int {
    4 * Signed(x / 4 % 0x400_0000, 0x400_0000)
  }

  // Word-aligned and within the 28 signed bits of a BL.
  predicate InBlRange(x: int) {
    x % 4 == 0 && -0x800_0000 <= x < 0x800_0000
  }

  lemma BlRead(insn: nat, offset: int)
    requires insn < WORD
    ensures var w := PatchBl(insn, offset);
      && w < WORD && Field(w, 0x400_0000, 64) == Field(insn, 0x400_0000, 64)
      && BlImm(w) == 4 * Signed(offset % 0x400_0000, 0x400_0000)
  {
    hide Signed;
    var op, f := Field(insn, 0x400_0000, 64), Field(offset, 1, 0x400_0000);
    assert offset / 1 == offset;
    Placed(0, op, f, 0x400_0000, 64);
    Placed(op, f, 0, 1, 0x400_0000);
  }

  lemma CastKeepsLow26(x: int)
    ensures AsI32(x) % 0x400_0000 == x % 0x400_0000
  {
  }

  /** A BL patched for a distance, after the cast to 32 bits and the cut to 26, lands where
      Landing says, and keeps its opcode. */
  lemma BlLands(insn: nat, d: int)
    requires insn < WORD
    ensures var w := PatchBl(insn, WordOffset(d));
      w < WORD && BlImm(w) == Landing(d) && Field(w, 0x400_0000, 64) == Field(insn, 0x400_0000, 64)
  {
    hide Signed, PatchBl, BlImm, AsI32, Field;
    BlRead(insn, WordOffset(d));
    CastKeepsLow26(d / 4);
  }

  /** It lands at the distance exactly when that is word-aligned and in range. */
  lemma LandingIsExact(d: int)
    ensures Landing(d) == d <==> InBlRange(d)
  {
    hide Signed;
    var e := d / 4;
    SignedResidue(e, 0x400_0000);
    assert d == 4 * e + d % 4;
  }

  /** The distances whose cast passes the range check: those within 2^27 of a multiple of
      2^34. */
  lemma TakenForNear(d: int)
    ensures Near(WordOffset(d)) <==> (d + 0x800_0000) % 0x4_0000_0000 < 0x1000_0000
  {
    var e := d / 4;
    CastWindow(e);
    QuarterWindow(d, e);
  }

  lemma CastWindow(e: int)
    ensures Near(AsI32(e)) <==> (e + 0x200_0000) % 0x1_0000_0000 < 0x400_0000
  {
  }

  lemma QuarterWindow(d: int, e: int)
    requires e == d / 4
    ensures (d + 0x800_0000) % 0x4_0000_0000 == 4 * ((e + 0x200_0000) % 0x1_0000_0000) + d % 4
  {
  }

  /** A direct call is accepted and reaches its target exactly when the distance is
      word-aligned and in range. */
  lemma DirectReaches(insn: nat, d: int)
    requires insn < WORD
    ensures Near(WordOffset(d)) && BlImm(PatchBl(insn, WordOffset(d))) == d <==> InBlRange(d)
  {
    hide PatchBl, BlImm, WordOffset, Landing;
    BlLands(insn, d);
    LandingIsExact(d);
    TakenForNear(d);
  }

  /** A distance of 2^34 is taken for zero: the branch is patched to itself and does not reach
      the target. */
  lemma FarIsTakenForNear(insn: nat)
    requires insn < WORD
    ensures var d := 0x4_0000_0000; Near(WordOffset(d)) && BlImm(PatchBl(insn, WordOffset(d))) == 0 != d
  {
    hide PatchBl, BlImm;
    BlLands(insn, 0x4_0000_0000);
  }

  // ------------------------------------------------------------ ADRP and ADD

  function Page(x: int): int {
    x - x % 4096
  }

  function PageOffset(target: int, p: int): int {
    AsI32((Page(target) - Page(p)) / 4096)
  }

  // imm[1:0] at bit 29, imm[20:2] at bit 5.
  function PatchAdrp(insn: nat, offset: int): nat {
    Field(insn, 1, 32) + Field(insn, 0x100_0000, 32) * 0x100_0000 + Field(insn, 0x8000_0000, 2) * 0x8000_0000
    + Field(offset, 1, 4) * 0x2000_0000 + Field(offset, 4, 0x8_0000) * 32
  }

  function AdrpImm(insn: nat): int {
    4096 * Signed(Field(insn, 32, 0x8_0000) * 4 + Field(insn, 0x2000_0000, 4), 0x20_0000)
  }

  function PatchAdd(insn: nat, lo: nat): nat {
    Field(insn, 1, 1024) + Field(insn, 0x40_0000, 1024) * 0x40_0000 + lo * 1024
  }

  function AddImm(insn: nat): nat {
    Field(insn, 1024, 4096)
  }

  lemma AdrpFields(s: nat, lo: nat, op: nat, hi: nat, rd: nat)
    requires s < 2 && lo < 4 && op < 32 && hi < 0x8_0000 && rd < 32
    ensures var w := rd + hi * 32 + op * 0x100_0000 + lo * 0x2000_0000 + s * 0x8000_0000;
      && w < WORD && Field(w, 0x8000_0000, 2) == s && Field(w, 0x2000_0000, 4) == lo && Field(w, 0x100_0000, 32) == op
      && Field(w, 32, 0x8_0000) == hi && Field(w, 1, 32) == rd
  {
    Placed(0, s, rd + hi * 32 + op * 0x100_0000 + lo * 0x2000_0000, 0x8000_0000, 2);
    Placed(s, lo, rd + hi * 32 + op * 0x100_0000, 0x2000_0000, 4);
    Placed(s * 4 + lo, op, rd + hi * 32, 0x100_0000, 32);
    Placed((s * 4 + lo) * 32 + op, hi, rd, 32, 0x8_0000);
    Placed(((s * 4 + lo) * 32 + op) * 0x8_0000 + hi, rd, 0, 1, 32);
  }

  lemma AdrpRead(insn: nat, offset: int)
    requires insn < WORD
    ensures var w := PatchAdrp(insn, offset);
      && w < WORD && AdrpImm(w) == 4096 * Signed(offset % 0x20_0000, 0x20_0000)
      && Field(w, 1, 32) == Field(insn, 1, 32) && Field(w, 0x100_0000, 32) == Field(insn, 0x100_0000, 32)
      && Field(w, 0x8000_0000, 2) == Field(insn, 0x8000_0000, 2)
  {
    AdrpParts(offset);
    hide Signed, Field;
    AdrpFields(Field(insn, 0x8000_0000, 2), Field(offset, 1, 4), Field(insn, 0x100_0000, 32),
        Field(offset, 4, 0x8_0000), Field(insn, 1, 32));
  }

  lemma AdrpParts(offset: int)
    ensures Field(offset, 4, 0x8_0000) * 4 + Field(offset, 1, 4) == offset % 0x20_0000
  {
    assert offset / 1 == offset;
  }

  lemma AddRead(insn: nat, lo: nat)
    requires insn < WORD && lo < 4096
    ensures var w := PatchAdd(insn, lo);
      w < WORD && AddImm(w) == lo && Field(w, 1, 1024) == Field(insn, 1, 1024)
          && Field(w, 0x40_0000, 1024) == Field(insn, 0x40_0000, 1024)
  {
    var op, low := Field(insn, 0x40_0000, 1024), Field(insn, 1, 1024);
    Placed(0, op, lo * 1024 + low, 0x40_0000, 1024);
    Placed(op, lo, low, 1024, 4096);
    Placed(op * 4096 + lo, low, 0, 1, 1024);
  }

  // What an ADRP at p and an ADD compute once both are patched for the target.
  function Recomputed(adrp: nat, add: nat, target: int, p: int): int {
    Page(p) + AdrpImm(PatchAdrp(adrp, PageOffset(target, p))) + AddImm(PatchAdd(add, target % 4096))
  }

  /** The pair recomputes the target exactly when its page is within 2^20 pages of the
      instruction's. */
  lemma AdrpAddRecomputes(adrp: nat, add: nat, target: int, p: int)
    requires adrp < WORD && add < WORD
    ensures var o, pages := PageOffset(target, p), (Page(target) - Page(p)) / 4096;
      && Page(target) - Page(p) == 4096 * pages
      && (-0x10_0000 <= o <= 0xF_FFFF && Recomputed(adrp, add, target, p) == target <==>
           -0x10_0000 <= pages <= 0xF_FFFF)
  {
    hide PatchAdrp, AdrpImm, PatchAdd, AddImm, AsI32, Signed;
    var o := PageOffset(target, p);
    var pages := (Page(target) - Page(p)) / 4096;
    PagesApart(target, p);
    AdrpRead(adrp, o);
    AddRead(add, target % 4096);
    AsI32Exact(pages);
    SignedResidue(o, 0x20_0000);
  }

  lemma PagesApart(target: int, p: int)
    ensures Page(target) - Page(p) == 4096 * ((Page(target) - Page(p)) / 4096)
    ensures Page(target) + target % 4096 == target
  {
  }

  /** The page distances whose cast passes the range check: those within 2^20 of a multiple
      of 2^32. */
  lemma AdrpAccepted(target: int, p: int)
    ensures -0x10_0000 <= PageOffset(target, p) <= 0xF_FFFF <==>
      ((Page(target) - Page(p)) / 4096 + 0x10_0000) % 0x1_0000_0000 < 0x20_0000
  {
    hide Page;
  }

  /** A target 2^32 pages away, for instance 2^44 from address 0, is taken for one on the
      instruction's own page. */
  lemma FarPageIsTakenForNear(adrp: nat, add: nat, target: int, p: int)
    requires adrp < WORD && add < WORD && (Page(target) - Page(p)) / 4096 == 0x1_0000_0000
    ensures PageOffset(target, p) == 0 && Recomputed(adrp, add, target, p) != target
    ensures (Page(0x1000_0000_0000) - Page(0)) / 4096 == 0x1_0000_0000
  {
    hide Recomputed, Page;
    AdrpAddRecomputes(adrp, add, target, p);
    CastOfWrap();
    FarPageExists();
  }

  lemma CastOfWrap()
    ensures AsI32(0x1_0000_0000) == 0
  {
  }

  lemma FarPageExists()
    ensures (Page(0x1000_0000_0000) - Page(0)) / 4096 == 0x1_0000_0000
  {
  }
}
