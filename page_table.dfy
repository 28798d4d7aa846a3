/** The VMSAv8-64 descriptor codec and the 512-entry page table (page_table.rs).
    A descriptor is one 64-bit word split into three disjoint ranges: the output
    address (bits 12-47), the memory-attribute field (bits 2-4 and 8-9) and the
    flag bits (everything else). */
module PageTable {
  import opened Paging

  /** Output address mask. */
  const ADDR_MASK: bv64 := 0x0000_ffff_ffff_f000

  /** Shareability field SH: two bits at bit 8. */
  const SH_MASK: bv64 := 0x3
  const SH_SHIFT: nat := 8

  /** Attribute index into MAIR_EL1, AttrIndx: three bits at bit 2. */
  const ATTR_INDX_MASK: bv64 := 0x7
  const ATTR_INDX_SHIFT: nat := 2

  /** Memory attribute fields mask: SH and AttrIndx in place (FieldLayout
      relates it to the two fields). */
  const MEMORY_ATTR_MASK: bv64 := 0x31c

  /** Every bit that is neither output address nor memory attribute
      (FieldLayout relates it to the other two masks). */
  const FLAGS_MASK: bv64 := 0xffff_0000_0000_0ce3

  // The PageTableFlags bits.
  const VALID: bv64 := 1 << 0
  const TABLE_OR_PAGE: bv64 := 1 << 1
  const NS: bv64 := 1 << 5
  const AP_EL0: bv64 := 1 << 6
  const AP_RO: bv64 := 1 << 7
  const AF: bv64 := 1 << 10
  const NG: bv64 := 1 << 11
  const DBM: bv64 := 1 << 51
  const CONTIGUOUS: bv64 := 1 << 52
  const PXN: bv64 := 1 << 53
  const UXN: bv64 := 1 << 54
  const WRITE: bv64 := 1 << 51
  const DIRTY: bv64 := 1 << 55
  const SWAPPED: bv64 := 1 << 56
  const WRITABLE_SHARED: bv64 := 1 << 57
  const READONLY_SHARED: bv64 := 1 << 58
  const PXN_TABLE: bv64 := 1 << 59
  const XN_TABLE: bv64 := 1 << 60
  const AP_TABLE_NEL0: bv64 := 1 << 61
  const AP_TABLE_RO: bv64 := 1 << 62
  const NS_TABLE: bv64 := 1 << 63

  /** The union of all named flags: the bits PageTableFlags can hold
      (FieldLayout spells it out flag by flag). */
  const ALL_FLAGS: bv64 := 0xfff8_0000_0000_0ce3

  /** A PageTableFlags value: a set of the named flag bits. */
  type PageTableFlags = f: bv64 | f & !ALL_FLAGS == 0

  predicate Contains(flags: bv64, other: bv64) {
    flags & other == other
  }

  /** PageTableFlags::default(), used by create_next_table. The flags
      declaration derives no Default; this model takes it to be the empty
      flag set, the value a derived Default would give. */
  function DefaultFlags(): PageTableFlags { 0 }

  /** Default flags for a table entry. */
  function DefaultTable(): PageTableFlags { VALID | TABLE_OR_PAGE }

  /** Default flags for a block entry. */
  function DefaultBlock(): PageTableFlags { VALID | AF }

  /** Default flags for a page entry. */
  function DefaultPage(): PageTableFlags { VALID | TABLE_OR_PAGE | AF }

  /** The three field ranges of a descriptor are pairwise disjoint and cover
      all 64 bits; the flags sit inside the flag range, which also holds the
      unnamed bits 48-50; DBM and WRITE are the same bit. */
  lemma FieldLayout()
    ensures ADDR_MASK & MEMORY_ATTR_MASK == 0
    ensures ADDR_MASK & FLAGS_MASK == 0
    ensures MEMORY_ATTR_MASK & FLAGS_MASK == 0
    ensures ADDR_MASK | MEMORY_ATTR_MASK | FLAGS_MASK == 0xffff_ffff_ffff_ffff
    ensures MEMORY_ATTR_MASK == (SH_MASK << SH_SHIFT) | (ATTR_INDX_MASK << ATTR_INDX_SHIFT)
    ensures FLAGS_MASK == !(MEMORY_ATTR_MASK | ADDR_MASK)
    ensures ALL_FLAGS ==
              VALID | TABLE_OR_PAGE | NS | AP_EL0 | AP_RO | AF | NG | DBM | CONTIGUOUS | PXN | UXN
              | WRITE | DIRTY | SWAPPED | WRITABLE_SHARED | READONLY_SHARED
              | PXN_TABLE | XN_TABLE | AP_TABLE_NEL0 | AP_TABLE_RO | NS_TABLE
    ensures ALL_FLAGS & !FLAGS_MASK == 0
    ensures FLAGS_MASK & !ALL_FLAGS == 0x0007_0000_0000_0000
    ensures DBM == WRITE
  {
  }

  /** Table and page defaults carry TABLE_OR_PAGE, the block default does not;
      the empty default carries neither VALID nor TABLE_OR_PAGE. */
  lemma DefaultFlagsKinds()
    ensures Contains(DefaultTable(), TABLE_OR_PAGE) && Contains(DefaultTable(), VALID)
    ensures Contains(DefaultPage(), TABLE_OR_PAGE) && Contains(DefaultPage(), VALID)
    ensures !Contains(DefaultBlock(), TABLE_OR_PAGE) && Contains(DefaultBlock(), VALID)
    ensures !Contains(DefaultFlags(), TABLE_OR_PAGE) && !Contains(DefaultFlags(), VALID)
  {
  }

  /** A value for some fields of a 64-bit register (FieldValue<u64, _>): the
      bits it covers and the bits it sets. */
  datatype FieldValue = FieldValue(mask: bv64, value: bv64) {
    /** `+` on field values: the union of both. */
    function Plus(other: FieldValue): FieldValue {
      FieldValue(mask | other.mask, value | other.value)
    }
  }

  /** FieldValue::new(mask, shift, value). */
  function FieldNew(mask: bv64, shift: nat, value: bv64): FieldValue
    requires shift <= 64
  {
    FieldValue(mask << shift, (value & mask) << shift)
  }

  /** The SH encodings. */
  function ShNonShareable(): FieldValue { FieldNew(SH_MASK, SH_SHIFT, 0x0) }
  function ShOuterShareable(): FieldValue { FieldNew(SH_MASK, SH_SHIFT, 0x2) }
  function ShInnerShareable(): FieldValue { FieldNew(SH_MASK, SH_SHIFT, 0x3) }

  /** AttrIndx.val(x). */
  function AttrIndx(x: bv64): FieldValue { FieldNew(ATTR_INDX_MASK, ATTR_INDX_SHIFT, x) }

  /** A PageTableAttribute: a field value of the MEMORY_ATTRIBUTE register.
      Its type does not restrict the bits: FieldValue::new accepts any mask,
      and the setters OR the value into the descriptor as it is. */
  type PageTableAttribute = FieldValue

  /** Whether an attribute value sets only SH and AttrIndx bits, so that
      storing it leaves the address and the flags alone. */
  predicate InAttrField(attr: PageTableAttribute) {
    attr.value & !MEMORY_ATTR_MASK == 0
  }

  /** The error returned by PageTableEntry::frame. */
  datatype FrameError = FrameNotPresent | HugeFrame

  /** A 64-bit page table entry. Entries are plain values: a setter returns
      the new entry, which the caller stores back into its table slot. */
  datatype PageTableEntry = PageTableEntry(entry: bv64) {

    /** Creates an unused entry. */
    static function New(): (e: PageTableEntry)
      ensures e.IsUnused() && e.Flags() == 0 && e.Addr() == 0 && e.Attr().value == 0
    {
      PageTableEntry(0)
    }

    /** Whether this entry is zero. */
    predicate IsUnused() {
      entry == 0
    }

    /** Sets this entry to zero. */
    function SetUnused(): (e: PageTableEntry)
      ensures e.IsUnused() && e.Frame() == Err(FrameNotPresent)
    {
      PageTableEntry(0)
    }

    /** The flags of this entry: its bits that are named flags
        (from_bits_truncate drops the address, the attribute and bits 48-50). */
    function Flags(): PageTableFlags {
      entry & ALL_FLAGS
    }

    /** The physical address mapped by this entry, possibly zero. */
    function Addr(): (a: PhysAddr)
      ensures a & NOT_FRAME_BITS == 0
    {
      entry & ADDR_MASK
    }

    /** The memory attribute fields of this entry: FieldValue::new with the
        attribute mask and shift 0. */
    function Attr(): PageTableAttribute {
      FieldValue(MEMORY_ATTR_MASK, entry & MEMORY_ATTR_MASK)
    }

    /** Whether this entry is mapped to a block. */
    predicate IsBlock() {
      !Contains(Flags(), TABLE_OR_PAGE)
    }

    /** The physical frame mapped by this entry: FrameNotPresent without
        VALID (checked first), HugeFrame for a block, otherwise the frame at
        the stored address. */
    function Frame(): (r: Result<PhysFrame, FrameError>)
      ensures r == Err(FrameNotPresent) <==> !Contains(Flags(), VALID)
      ensures r == Err(HugeFrame) <==> Contains(Flags(), VALID) && IsBlock()
      ensures r.Ok? <==> Contains(Flags(), VALID) && Contains(Flags(), TABLE_OR_PAGE)
      ensures r.Ok? ==> r.value.start == Addr()
      ensures IsUnused() ==> r == Err(FrameNotPresent)
    {
      if !Contains(Flags(), VALID) then Err(FrameNotPresent)
      else if IsBlock() then Err(HugeFrame)
      else Ok(FrameAt(AlignDown(Addr(), 0x1000)))
    }

    /** Maps the entry to `addr` with `flags` and `attr`; the previous content
        is overwritten. The source asserts (debug builds only) that `addr` is
        4 KiB-aligned. When `addr` lies below 2^48, each field reads back the
        stored value together with whatever bits of the attribute value fall
        into that field's range, so all three read back exactly when the
        attribute stays inside its own field. */
    function SetAddr(addr: PhysAddr, flags: PageTableFlags, attr: PageTableAttribute): (e: PageTableEntry)
      requires IsAligned(addr, 0x1000)
      ensures addr & NOT_FRAME_BITS == 0 ==> e.Addr() == addr | (attr.value & ADDR_MASK)
      ensures addr & NOT_FRAME_BITS == 0 ==> e.Flags() == flags | (attr.value & ALL_FLAGS)
      ensures e.Attr().value == attr.value & MEMORY_ATTR_MASK
    {
      StoreFields(addr, flags, attr.value);
      PageTableEntry(addr | flags | attr.value)
    }

    /** Maps the entry to a frame; the flags must say table or page (a debug
        assertion in the source). The result is never a block and never
        unused. With an attribute inside its field, the three fields read
        back exactly and, with VALID, the entry yields that frame back. */
    function SetFrame(frame: PhysFrame, flags: PageTableFlags, attr: PageTableAttribute): (e: PageTableEntry)
      requires Contains(flags, TABLE_OR_PAGE)
      ensures e.Addr() == frame.start | (attr.value & ADDR_MASK) && e.Flags() == flags | (attr.value & ALL_FLAGS)
              && e.Attr().value == attr.value & MEMORY_ATTR_MASK
      ensures !e.IsBlock() && !e.IsUnused()
      ensures e.Frame() == if Contains(e.Flags(), VALID) then Ok(FrameAt(e.Addr())) else Err(FrameNotPresent)
      ensures InAttrField(attr) ==>
                e.Addr() == frame.start && e.Flags() == flags && e.Attr().value == attr.value
                && e.Frame() == (if Contains(flags, VALID) then Ok(frame) else Err(FrameNotPresent))
    {
      SetAddrInField(this, frame.start, flags, attr);
      SetAddr(frame.start, flags, attr)
    }

    /** Makes the entry a block descriptor for a block of `size`; the flags
        must not say table or page (a debug assertion in the source) and the
        address is stored aligned down to the block size. The result is a
        block unless the attribute value sets the TABLE_OR_PAGE bit. */
    function SetBlock(size: PageSize, addr: PhysAddr, flags: PageTableFlags, attr: PageTableAttribute): (e: PageTableEntry)
      requires !Contains(flags, TABLE_OR_PAGE)
      ensures e.IsBlock() <==> attr.value & TABLE_OR_PAGE == 0
      ensures e.IsBlock() ==> e.Frame().Err?
      ensures addr & 0xffff_0000_0000_0000 == 0 && InAttrField(attr) ==>
                e.Addr() == AlignDown(addr, size.Bytes()) && IsAligned(e.Addr(), size.Bytes())
                && e.Flags() == flags && e.Attr().value == attr.value
    {
      SetAddrInField(this, AlignDown(addr, size.Bytes()), flags, attr);
      SetAddr(AlignDown(addr, size.Bytes()), flags, attr)
    }

    /** Replaces the flags; the address and the attribute are kept. */
    function SetFlags(flags: PageTableFlags): (e: PageTableEntry)
      ensures e.Flags() == flags && e.Addr() == Addr() && e.Attr().value == Attr().value
    {
      FlagsUpdateFields(entry, flags);
      PageTableEntry((entry & !FLAGS_MASK) | flags)
    }

    /** Replaces the memory attribute. Bits of the attribute value outside
        its field are ORed into the address and the flags; an attribute
        inside its field keeps both. */
    function SetAttr(attr: PageTableAttribute): (e: PageTableEntry)
      ensures e.Attr().value == attr.value & MEMORY_ATTR_MASK
      ensures e.Addr() == Addr() | (attr.value & ADDR_MASK)
      ensures e.Flags() == Flags() | (attr.value & ALL_FLAGS)
    {
      AttrUpdateFields(entry, attr.value);

      PageTableEntry((entry & !MEMORY_ATTR_MASK) | attr.value)
    }
  }

  /** Writing flags into the flag range keeps the other two ranges. */
  lemma FlagsUpdateFields(entry: bv64, flags: PageTableFlags)
    ensures ((entry & !FLAGS_MASK) | flags) & ALL_FLAGS == flags
    ensures ((entry & !FLAGS_MASK) | flags) & ADDR_MASK == entry & ADDR_MASK
    ensures ((entry & !FLAGS_MASK) | flags) & MEMORY_ATTR_MASK == entry & MEMORY_ATTR_MASK
  {
  }

  /** The entry a map_to leaves in a fresh slot: its stored address is the
      frame's with the attribute's address bits added, and it yields that
      address as a frame exactly when the flags, with the attribute's flag
      bits added, hold VALID. */
  lemma StoredFrame(frame: PhysFrame, flags: PageTableFlags, attr: PageTableAttribute)
    requires Contains(flags, TABLE_OR_PAGE)
    ensures var e := PageTableEntry(0).SetFrame(frame, flags, attr);
      && e.Addr() == frame.start | (attr.value & ADDR_MASK)
      && e.Frame() == if Contains(flags | (attr.value & ALL_FLAGS), VALID)
                      then Ok(FrameAt(frame.start | (attr.value & ADDR_MASK))) else Err(FrameNotPresent)
    ensures InAttrField(attr) ==>
              frame.start | (attr.value & ADDR_MASK) == frame.start
              && (Contains(flags | (attr.value & ALL_FLAGS), VALID) <==> Contains(flags, VALID))
  {
    InFieldBits(attr.value);
  }

  /** An attribute inside its field replaces the attribute alone. */
  lemma SetAttrInField(e: PageTableEntry, attr: PageTableAttribute)
    requires InAttrField(attr)
    ensures e.SetAttr(attr).Attr().value == attr.value
    ensures e.SetAttr(attr).Addr() == e.Addr() && e.SetAttr(attr).Flags() == e.Flags()
  {
    InFieldBits(attr.value);
  }

  /** An address below 2^48 and an attribute inside its field read back
      exactly. */
  lemma SetAddrInField(e: PageTableEntry, addr: PhysAddr, flags: PageTableFlags, attr: PageTableAttribute)
    requires IsAligned(addr, 0x1000)
    ensures addr & NOT_FRAME_BITS == 0 && InAttrField(attr) ==>
              e.SetAddr(addr, flags, attr).Addr() == addr && e.SetAddr(addr, flags, attr).Flags() == flags
              && e.SetAddr(addr, flags, attr).Attr().value == attr.value
  {
    InFieldBits(attr.value);
  }

  /** Storing an address below 2^48, a flag set and an attribute value:
      each range holds its own part ORed with the attribute value's bits in
      that range. */
  lemma StoreFields(addr: bv64, flags: PageTableFlags, value: bv64)
    ensures addr & NOT_FRAME_BITS == 0 ==> (addr | flags | value) & ADDR_MASK == addr | (value & ADDR_MASK)
    ensures addr & NOT_FRAME_BITS == 0 ==> (addr | flags | value) & ALL_FLAGS == flags | (value & ALL_FLAGS)
    ensures addr & 0xfff == 0 ==> (addr | flags | value) & MEMORY_ATTR_MASK == value & MEMORY_ATTR_MASK
  {
  }

  /** An attribute value inside its field has no address or flag bits. */
  lemma InFieldBits(value: bv64)
    ensures value & !MEMORY_ATTR_MASK == 0 ==>
              value & MEMORY_ATTR_MASK == value && value & ADDR_MASK == 0 && value & ALL_FLAGS == 0
  {
  }

  /** Writing an attribute value over the attribute range sets that range to
      the value's attribute bits and ORs its other bits into the other two
      ranges. */
  lemma AttrUpdateFields(entry: bv64, value: bv64)
    ensures ((entry & !MEMORY_ATTR_MASK) | value) & MEMORY_ATTR_MASK == value & MEMORY_ATTR_MASK
    ensures ((entry & !MEMORY_ATTR_MASK) | value) & ADDR_MASK == (entry & ADDR_MASK) | (value & ADDR_MASK)
    ensures ((entry & !MEMORY_ATTR_MASK) | value) & ALL_FLAGS == (entry & ALL_FLAGS) | (value & ALL_FLAGS)
  {
  }

  /** An unused entry has no flags, no address and no attribute, and reads
      as a block; an entry is unused exactly when all three fields and the
      unnamed bits 48-50 are zero. */
  lemma EntryFields(e: PageTableEntry)
    ensures e.IsUnused() ==> e.Flags() == 0 && e.Addr() == 0 && e.Attr().value == 0 && e.IsBlock()
    ensures e.IsUnused() <==>
              e.Flags() == 0 && e.Addr() == 0 && e.Attr().value == 0 && e.entry & 0x0007_0000_0000_0000 == 0
  {
    EntryRanges(e.entry);
  }

  /** The accessors read disjoint ranges of the descriptor, which together
      with bits 48-50 make up the whole entry; IsBlock reads the
      TABLE_OR_PAGE bit alone. */
  lemma EntryRecomposes(e: PageTableEntry)
    ensures e.entry == e.Flags() | e.Addr() | e.Attr().value | (e.entry & 0x0007_0000_0000_0000)
    ensures e.Attr().mask == MEMORY_ATTR_MASK
    ensures e.IsBlock() <==> e.entry & TABLE_OR_PAGE == 0
  {
    EntryRanges(e.entry);
  }

  /** A word is the union of its flag bits, its address bits, its attribute
      bits and bits 48-50. */
  lemma EntryRanges(x: bv64)
    ensures x == (x & ALL_FLAGS) | (x & ADDR_MASK) | (x & MEMORY_ATTR_MASK) | (x & 0x0007_0000_0000_0000)
  {
  }

  /** The number of entries in a page table. */
  const ENTRY_COUNT: nat := 512

  /** The content of a table whose every entry is unused. */
  function UnusedTable(): (s: seq<PageTableEntry>)
    ensures |s| == ENTRY_COUNT && forall i | 0 <= i < |s| :: s[i].IsUnused()
  {
    seq(ENTRY_COUNT, _ => PageTableEntry.New())
  }

  /** A page table: 512 entries, one page of memory. */
  class PageTable {
    const entries: array<PageTableEntry>

    ghost predicate Valid() {
      entries.Length == ENTRY_COUNT
    }

    /** Creates an empty page table. */
    constructor ()
      ensures Valid() && fresh(entries) && entries[..] == UnusedTable()
    {
      entries := new PageTableEntry[ENTRY_COUNT](_ => PageTableEntry.New());
      new;
      assert entries[..] == UnusedTable();
    }

    /** Clears all entries, one after the other. */
    method Zero()
      requires Valid()
      modifies entries
      ensures entries[..] == UnusedTable()
    {
      for i := 0 to entries.Length
        invariant forall j | 0 <= j < i :: entries[j].IsUnused()
      {
        entries[i] := entries[i].SetUnused();
      }
      assert entries[..] == UnusedTable();
    }

    /** The entry at a 9-bit index: every index reaches one of the 512
        slots, so indexing never fails. */
    function Index(i: Idx): (e: PageTableEntry)
      requires Valid()
      reads entries
      ensures e in entries[..]
    {
      entries[i]
    }
  }
}
