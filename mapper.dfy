/** The mapper contract shared by every page-table implementation
    (mapper/mod.rs): the errors its operations report, the conversions
    between them, the flush token, and the default methods that only
    interpret an entry another operation looked up. */
module Mapper {
  import opened Paging
  import opened PageTable

  /** Why map_to failed. */
  datatype MapToError = FrameAllocationFailed | ParentEntryHugePage | PageAlreadyMapped

  /** Why get_entry or get_entry_mut failed. */
  datatype EntryGetError = PageNotMapped | ParentEntryHugePage

  /** Why unmap failed. */
  datatype UnmapError = ParentEntryHugePage | PageNotMapped | InvalidFrameAddress(addr: PhysAddr)

  /** Why update_flags failed. */
  datatype FlagUpdateError = PageNotMapped | ParentEntryHugePage

  /** Why translate_page failed. */
  datatype TranslateError = PageNotMapped | ParentEntryHugePage | InvalidFrameAddress(addr: PhysAddr)

  /** From<EntryGetError> for UnmapError: keeps the variant. */
  function UnmapErrorFrom(err: EntryGetError): (r: UnmapError)
    ensures err.PageNotMapped? <==> r.PageNotMapped?
    ensures err.ParentEntryHugePage? <==> r.ParentEntryHugePage?
    ensures !r.InvalidFrameAddress?
  {
    match err
    case ParentEntryHugePage => UnmapError.ParentEntryHugePage
    case PageNotMapped => UnmapError.PageNotMapped
  }

  /** From<EntryGetError> for FlagUpdateError: keeps the variant. */
  function FlagUpdateErrorFrom(err: EntryGetError): (r: FlagUpdateError)
    ensures err.PageNotMapped? <==> r.PageNotMapped?
    ensures err.ParentEntryHugePage? <==> r.ParentEntryHugePage?
  {
    match err
    case ParentEntryHugePage => FlagUpdateError.ParentEntryHugePage
    case PageNotMapped => FlagUpdateError.PageNotMapped
  }

  /** From<EntryGetError> for TranslateError: keeps the variant. */
  function TranslateErrorFrom(err: EntryGetError): (r: TranslateError)
    ensures err.PageNotMapped? <==> r.PageNotMapped?
    ensures err.ParentEntryHugePage? <==> r.ParentEntryHugePage?
    ensures !r.InvalidFrameAddress?
  {
    match err
    case ParentEntryHugePage => TranslateError.ParentEntryHugePage
    case PageNotMapped => TranslateError.PageNotMapped
  }

  /** What MapperAllSizes::translate reports for an address: the frame of
      one of the three sizes and the offset inside it, or why there is none. */
  datatype TranslateResult =
    | Frame4KiB(frame: SizedFrame, offset: bv64)
    | Frame2MiB(frame: SizedFrame, offset: bv64)
    | Frame1GiB(frame: SizedFrame, offset: bv64)
    | PageNotMapped
    | InvalidFrameAddress(addr: PhysAddr)

  /** MapperAllSizes::translate_addr: the physical address a translation
      result stands for, None for the two failures; for each of the three
      frame sizes alike, the 64-bit wrapping sum of the frame's start address
      and the offset. */
  function TranslateAddr(t: TranslateResult): (r: Option<PhysAddr>)
    ensures r.None? <==> t.PageNotMapped? || t.InvalidFrameAddress?
    ensures r.Some? ==> r.value == t.frame.start + t.offset
  {
    if t.PageNotMapped? || t.InvalidFrameAddress? then None
    else Some(t.frame.start + t.offset)
  }

  /** Mapper::translate_page once get_entry has answered: the lookup's
      error converted, PageNotMapped for an unused entry, otherwise the
      frame of `size` at the entry's address, or InvalidFrameAddress when
      that address is not aligned to `size`. */
  function TranslatePageOf(size: PageSize, lookup: Result<PageTableEntry, EntryGetError>): (r: Result<SizedFrame, TranslateError>)
    ensures lookup.Err? ==> r == Err(TranslateErrorFrom(lookup.error))
    ensures lookup.Ok? && lookup.value.IsUnused() ==> r == Err(TranslateError.PageNotMapped)
    ensures lookup.Ok? && !lookup.value.IsUnused() ==>
              (r.Ok? <==> IsAligned(lookup.value.Addr(), size.Bytes()))
              && (r.Ok? ==> r.value == SizedFrame(size, lookup.value.Addr()))
              && (r.Err? ==> r.error == TranslateError.InvalidFrameAddress(lookup.value.Addr()))
  {
    match lookup
    case Err(e) => Err(TranslateErrorFrom(e))
    case Ok(entry) =>
      if entry.IsUnused() then Err(TranslateError.PageNotMapped)
      else match FrameFromStartAddress(size, entry.Addr())
        case Ok(frame) => Ok(frame)
        case Err(_) => Err(TranslateError.InvalidFrameAddress(entry.Addr()))
  }

  /** For 4 KiB pages translate_page never reports InvalidFrameAddress: the
      stored address is always 4 KiB-aligned. */
  lemma TranslatePage4KiBAligned(lookup: Result<PageTableEntry, EntryGetError>)
    ensures !TranslatePageOf(Size4KiB, lookup).Err?
            || !TranslatePageOf(Size4KiB, lookup).error.InvalidFrameAddress?
  {
    if lookup.Ok? && !lookup.value.IsUnused() {
      assert lookup.value.Addr() & NOT_FRAME_BITS == 0;
    }
  }

  /** MapperFlush: the page whose mapping changed and must still be flushed
      from the TLB or explicitly ignored. */
  datatype MapperFlush = MapperFlush(page: Page)

  /** MapperFlush::new: a token for `page`. */
  function NewFlush(page: Page): (f: MapperFlush)
    ensures f.page == page
  {
    MapperFlush(page)
  }
}
