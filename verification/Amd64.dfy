/**
  Page-table entries and virtual addresses of 64-bit long mode (section 5.3 of the AMD64
  Architecture Programmer's Manual, Volume 2; section 4.5 of the Intel SDM, Volume 3A), and the
  bit operations that the kernel performs on them.
 */
module Amd64 {

  type Entry = bv64
  type Address = bv64

  // The physical address of a page.
  datatype Frame = Frame(address: Address)

  // A position in a table.
  datatype Index = Index(bits: bv9)

  const FLAG_P: Entry := 0x1
  const FLAG_RW: Entry := 0x2
  const FLAG_US: Entry := 0x4
  const FLAG_PS: Entry := 0x80
  const FLAG_XD: Entry := 0x8000_0000_0000_0000

  // The address bits that the kernel uses, 12 to 47.
  const ADDRESS: Entry := 0x0000_FFFF_FFFF_F000

  // The address bits that the hardware uses, 12 to 51.
  const HW_ADDRESS: Entry := 0x000F_FFFF_FFFF_F000

  predicate Present(e: Entry) {
    e & FLAG_P != 0
  }

  predicate Large(e: Entry) {
    e & FLAG_PS != 0
  }

  // An entry above the lowest level that points to another table.
  predicate Descends(e: Entry) {
    Present(e) && !Large(e)
  }

  // The table or page the hardware finds behind an entry, and everything else in it.
  function TableFrame(e: Entry): Frame {
    Frame(e & HW_ADDRESS)
  }

  function FlagsOf(e: Entry): Entry {
    e & !HW_ADDRESS
  }

  // The address bits of a leaf entry that is `levels` above a byte: 4 KiB, 2 MiB or 1 GiB pages.
  function FrameMask(levels: nat): Entry {
    if levels <= 1 then HW_ADDRESS
    else if levels == 2 then 0x000F_FFFF_FFE0_0000
    else 0x000F_FFFF_C000_0000
  }

  // A page-aligned address below 2^48.
  predicate IsFrame(f: Frame) {
    f.address & !ADDRESS == 0
  }

  predicate PageAligned(a: Address) {
    a & 0xFFF == 0
  }

  // ---------- what the kernel computes ----------

  // The table behind an entry, as the kernel reads it.
  function AddressOf(e: Entry): Frame {
    Frame(e & ADDRESS)
  }

  function MakeEntry(f: Frame, flags: Entry): Entry {
    (f.address & ADDRESS) | flags
  }

  function UpdateAddress(e: Entry, f: Frame): Entry {
    (e & !ADDRESS) | (f.address & ADDRESS)
  }

  const WRITE: bv64 := 1
  const EXEC: bv64 := 2
  const USER: bv64 := 4

  function ConvertFlags(flags: bv64): Entry {
    (if flags & WRITE != 0 then FLAG_RW else 0)
    | (if flags & USER != 0 then FLAG_US else 0)
    | (if flags & EXEC == 0 then FLAG_XD else 0)
  }

  // The flags of a leaf entry.
  function LeafFlags(flags: bv64): Entry {
    ConvertFlags(flags) | FLAG_P
  }

  // The entry that a new table is linked with.
  function ParentEntry(f: Frame): Entry {
    MakeEntry(f, FLAG_P | FLAG_RW)
  }

  function LeafEntry(physical: Frame, flags: bv64): Entry {
    MakeEntry(physical, LeafFlags(flags))
  }

  function IndexAt(va: Address, shift: bv64): Index
    requires shift <= 64
  {
    Index(((va >> shift) & 0x1FF) as bv9)
  }

  // The four table indices of a virtual address, top level first.
  function Indices(va: Address): (s: seq<Index>)
    ensures |s| == 4
  {
    [IndexAt(va, 39), IndexAt(va, 30), IndexAt(va, 21), IndexAt(va, 12)]
  }

  // Bits 47 to 63 are all equal.
  predicate Canonical(va: Address) {
    va >> 47 == 0 || va >> 47 == 0x1FFFF
  }

  // ---------- bit facts ----------

  // Entries whose table address fits the kernel's 36 address bits.
  predicate Narrow(e: Entry) {
    e & HW_ADDRESS & !ADDRESS == 0
  }

  lemma NarrowAddress(e: Entry)
    ensures Narrow(e) <==> AddressOf(e) == TableFrame(e)
    ensures IsFrame(AddressOf(e))
  {
  }

  lemma FrameIsMasked(f: Frame)
    ensures IsFrame(f) <==> f.address & ADDRESS == f.address
  {
  }

  lemma ParentBits(f: Frame)
    ensures ParentEntry(f) & HW_ADDRESS == f.address & ADDRESS
    ensures ParentEntry(f) & ADDRESS == f.address & ADDRESS
    ensures ParentEntry(f) & HW_ADDRESS & !ADDRESS == 0
    ensures ParentEntry(f) & FLAG_P != 0 && ParentEntry(f) & FLAG_PS == 0
    ensures ParentEntry(f) & !HW_ADDRESS == FLAG_P | FLAG_RW
  {
  }

  lemma ParentFields(f: Frame)
    requires IsFrame(f)
    ensures Descends(ParentEntry(f)) && TableFrame(ParentEntry(f)) == f && Narrow(ParentEntry(f))
    ensures AddressOf(ParentEntry(f)) == f
    ensures FlagsOf(ParentEntry(f)) == FLAG_P | FLAG_RW
  {
    hide ParentEntry, IsFrame;
    FrameIsMasked(f);
    ParentBits(f);
  }

  // A leaf entry carries exactly the requested rights.  It carries the requested frame exactly when
  // that frame is page-aligned and below 2^48.
  lemma LeafFields(physical: Frame, flags: bv64)
    ensures var e := LeafEntry(physical, flags);
            && Present(e)
            && (Frame(e & FrameMask(1)) == physical <==> IsFrame(physical))
            && e & !FrameMask(1) == LeafFlags(flags)
            && (e & FLAG_RW != 0 <==> flags & WRITE != 0)
            && (e & FLAG_US != 0 <==> flags & USER != 0)
            && (e & FLAG_XD == 0 <==> flags & EXEC != 0)
  {
  }

  lemma UpdateBits(e: Entry, f: Frame)
    ensures UpdateAddress(e, f) & ADDRESS == f.address & ADDRESS
    ensures UpdateAddress(e, f) & HW_ADDRESS & !ADDRESS == e & HW_ADDRESS & !ADDRESS
    ensures UpdateAddress(e, f) & FLAG_P == e & FLAG_P && UpdateAddress(e, f) & FLAG_PS == e & FLAG_PS
    ensures UpdateAddress(e, f) & !HW_ADDRESS == e & !HW_ADDRESS
  {
  }

  // Redirecting an entry keeps everything but the address.
  lemma UpdateFields(e: Entry, f: Frame)
    requires IsFrame(f) && Narrow(e)
    ensures var u := UpdateAddress(e, f);
            && Present(u) == Present(e) && Large(u) == Large(e)
            && TableFrame(u) == f && AddressOf(u) == f && Narrow(u) && FlagsOf(u) == FlagsOf(e)
  {
    hide UpdateAddress, IsFrame;
    FrameIsMasked(f);
    UpdateBits(e, f);
    NarrowAddress(UpdateAddress(e, f));
  }

  // The hardware follows a redirected entry to the new frame exactly when the entry's pointer was
  // narrow: the kernel keeps the address bits above its own mask.
  lemma RedirectExactly(e: Entry, f: Frame)
    requires IsFrame(f)
    ensures TableFrame(UpdateAddress(e, f)) == f <==> Narrow(e)
  {
    hide UpdateAddress, IsFrame, Narrow, TableFrame;
    RedirectBits(e, f);
    if TableFrame(UpdateAddress(e, f)) == f {
      assert TableFrame(UpdateAddress(e, f)).address == f.address;
    }
  }

  lemma RedirectBits(e: Entry, f: Frame)
    requires IsFrame(f)
    ensures TableFrame(UpdateAddress(e, f)).address == f.address <==> Narrow(e)
  {
  }

  // The four indices, top level first, are bits 39 to 47, 30 to 38, 21 to 29 and 12 to 20 of the address.
  lemma IndicesAreFields(va: Address)
    ensures var idx := Indices(va);
            ((idx[0].bits as bv64) << 39) | ((idx[1].bits as bv64) << 30) | ((idx[2].bits as bv64) << 21) | ((idx[3].bits as bv64) << 12)
            == va & 0x0000_FFFF_FFFF_F000
  {
    hide IndexAt;
    Field39(va);
    Field30(va);
    Field21(va);
    Field12(va);
    FieldsTogether(va);
  }

  lemma Field39(va: Address)
    ensures (IndexAt(va, 39).bits as bv64) << 39 == va & 0x0000_FF80_0000_0000
  {
  }

  lemma Field30(va: Address)
    ensures (IndexAt(va, 30).bits as bv64) << 30 == va & 0x0000_007F_C000_0000
  {
  }

  lemma Field21(va: Address)
    ensures (IndexAt(va, 21).bits as bv64) << 21 == va & 0x0000_0000_3FE0_0000
  {
  }

  lemma Field12(va: Address)
    ensures (IndexAt(va, 12).bits as bv64) << 12 == va & 0x0000_0000_001F_F000
  {
  }

  lemma FieldsTogether(va: Address)
    ensures (va & 0x0000_FF80_0000_0000) | (va & 0x0000_007F_C000_0000) | (va & 0x0000_0000_3FE0_0000) | (va & 0x0000_0000_001F_F000)
            == va & 0x0000_FFFF_FFFF_F000
  {
  }

  // A canonical page address is determined by its four indices.
  lemma IndicesInjective(v: Address, w: Address)
    requires PageAligned(v) && PageAligned(w) && Canonical(v) && Canonical(w)
    ensures Indices(v) == Indices(w) <==> v == w
  {
    hide PageAligned, Canonical, Indices;
    if Indices(v) == Indices(w) {
      IndicesAreFields(v);
      IndicesAreFields(w);
      FieldsDecide(v, w);
    }
  }

  // Page offset, fields and sign extension make up the address.
  lemma FieldsDecide(v: Address, w: Address)
    requires PageAligned(v) && PageAligned(w) && Canonical(v) && Canonical(w)
    requires v & 0x0000_FFFF_FFFF_F000 == w & 0x0000_FFFF_FFFF_F000
    ensures v == w
  {
  }

  // ---------- the bits themselves ----------

  // What the hardware reads in an entry, and where the kernel's own mask ends.
  lemma EntryBits(e: Entry, f: Frame)
    ensures Present(e) <==> e & 1 == 1
    ensures Large(e) <==> e & 0x80 == 0x80
    ensures TableFrame(e) == Frame(e & 0x000F_FFFF_FFFF_F000)
    ensures FlagsOf(e) == e & 0xFFF0_0000_0000_0FFF
    ensures AddressOf(e) == Frame(e & 0x0000_FFFF_FFFF_F000)
    ensures FrameMask(1) == 0x000F_FFFF_FFFF_F000 && FrameMask(2) == 0x000F_FFFF_FFE0_0000 && FrameMask(3) == 0x000F_FFFF_C000_0000
    ensures IsFrame(f) <==> f.address & 0xFFFF_0000_0000_0FFF == 0
  {
    hide Present, Large, TableFrame, FlagsOf, AddressOf, IsFrame;
    PresentBit(e);
    LargeBit(e);
    PointerBits(e);
    FlagBits(e);
    FrameBits(f);
  }

  lemma PresentBit(e: Entry)
    ensures Present(e) <==> e & 1 == 1
  {
  }

  lemma LargeBit(e: Entry)
    ensures Large(e) <==> e & 0x80 == 0x80
  {
  }

  lemma PointerBits(e: Entry)
    ensures TableFrame(e) == Frame(e & 0x000F_FFFF_FFFF_F000) && AddressOf(e) == Frame(e & 0x0000_FFFF_FFFF_F000)
  {
  }

  lemma FlagBits(e: Entry)
    ensures FlagsOf(e) == e & 0xFFF0_0000_0000_0FFF
  {
  }

  lemma FrameBits(f: Frame)
    ensures IsFrame(f) <==> f.address & 0xFFFF_0000_0000_0FFF == 0
  {
  }

  // What the kernel writes: a new table is present and writable, nothing else.
  lemma ParentIsWritable(f: Frame)
    requires IsFrame(f)
    ensures ParentEntry(f) == f.address | 3
  {
    hide IsFrame;
    FrameIsMasked(f);
  }

  // A leaf is present, has the requested rights, of which write is 1, execute 2 and user 4, and no
  // other flag.
  lemma LeafBits(f: Frame, flags: bv64)
    ensures LeafEntry(f, flags) & 0x000F_FFFF_FFFF_F000 == f.address & 0x0000_FFFF_FFFF_F000
    ensures LeafEntry(f, flags) & 1 == 1
    ensures LeafEntry(f, flags) & 2 == 2 <==> flags & 1 == 1
    ensures LeafEntry(f, flags) & 4 == 4 <==> flags & 4 == 4
    ensures LeafEntry(f, flags) & 0x8000_0000_0000_0000 == 0 <==> flags & 2 == 2
    ensures LeafEntry(f, flags) & 0x7FF0_0000_0000_0FF8 == 0
  {
    hide *;
    LeafPointer(f, flags);
    LeafPresent(f, flags);
    LeafWrite(f, flags);
    LeafUser(f, flags);
    LeafExecute(f, flags);
    LeafNothingElse(f, flags);
  }

  lemma LeafPointer(f: Frame, flags: bv64)
    ensures LeafEntry(f, flags) & 0x000F_FFFF_FFFF_F000 == f.address & 0x0000_FFFF_FFFF_F000
  {
  }

  lemma LeafPresent(f: Frame, flags: bv64)
    ensures LeafEntry(f, flags) & 1 == 1
  {
  }

  lemma LeafWrite(f: Frame, flags: bv64)
    ensures LeafEntry(f, flags) & 2 == 2 <==> flags & 1 == 1
  {
  }

  lemma LeafUser(f: Frame, flags: bv64)
    ensures LeafEntry(f, flags) & 4 == 4 <==> flags & 4 == 4
  {
  }

  lemma LeafExecute(f: Frame, flags: bv64)
    ensures LeafEntry(f, flags) & 0x8000_0000_0000_0000 == 0 <==> flags & 2 == 2
  {
  }

  lemma LeafNothingElse(f: Frame, flags: bv64)
    ensures LeafEntry(f, flags) & 0x7FF0_0000_0000_0FF8 == 0
  {
  }

  // Redirecting replaces bits 12 to 47.
  lemma RedirectedBits(e: Entry, f: Frame)
    requires IsFrame(f)
    ensures UpdateAddress(e, f) == (e & 0xFFFF_0000_0000_0FFF) | f.address
  {
    hide IsFrame;
    FrameIsMasked(f);
  }
}
