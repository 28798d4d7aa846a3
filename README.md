# AArch64 recursive page-table mapper, in Dafny

This project models the page-table mapper of the `aarch64` Rust crate. It
covers 4-level translation tables with the 4 KiB granule and the VMSAv8-64
descriptor format. It has four parts, following the crate's files:

- **`page_table.dfy`** (module `PageTable`): the 64-bit descriptor
  `PageTableEntry`. Its bits are split into the output address (bits 12-47),
  the memory-attribute field (SH and AttrIndx, bits 2-4 and 8-9) and the flag
  bits. The module has the accessors, the setters and the `frame()`
  classifier. The `PageTableFlags` bits and their defaults are here too, and
  so is the 512-entry `PageTable`, a class over an array that can be zeroed
  in place and indexed by a 9-bit index.
- **`memory_attribute.dfy`** (module `MemoryAttribute`): the three MAIR
  memory types (Normal, Device, Normal non-cacheable), with their
  attribute-slot index and their encoded descriptor attribute.
- **`mapper.dfy`** (module `Mapper`): the mapper contract. It holds the
  error enums and the `From<EntryGetError>` conversions, the `MapperFlush`
  token, `translate_addr`, and the part of `translate_page` that interprets
  an entry.
- **`recursive_mapping.dfy`** (module `RecursiveMapping`) and
  **`recursive_page_table.dfy`** (module `RecursivePageTable`): the
  recursive page table.
  - Physical memory is a map from table frames to their 512 entries.
  - `Walk`/`Resolve` is the table walk for 4 KiB pages: it follows valid table (or page) descriptors only, so a block descriptor on the way gives no translation.
  - The recursive trick is proved: when slot R of the level 4 table
    references that table, the pages (R,R,R,R), (R,R,R,i4), (R,R,i4,i3) and
    (R,i4,i3,i2) resolve to the tables the walk for a page passes.
  - Every operation has a specification function on memory:
    `create_next_table`, `map_to`, `get_entry`, `get_entry_mut`,
    `translate_page`, `update_flags`, `unmap` and `identity_map`.
  - The class `RecursivePageTable` runs those operations in place. It writes
    the entry arrays of the table objects, reaching each table through the
    virtual page the recursive slot gives it. Each method is proved to end
    in the state its specification function computes, and the lemmas state
    what those functions guarantee.
  - `create_next_table` installs new table descriptors with
    `PageTableFlags::default()`, which makes every new table read as a block
    (see Findings). The class and the functions it follows run the
    corrected version, with `default_table()`. The version as written is
    modelled beside it, with its failure proved.
  - map_to and unmap compose: after a successful map_to, unmap returns the
    mapped frame when the flags hold VALID (MapToUnmaps). After the unmap,
    translate_page reports PageNotMapped. get_entry, which checks only the
    level 4, 3 and 2 entries, still returns the now unused level 1 slot
    rather than reporting PageNotMapped (UnmapThenLookup).

`paging.dfy` (module `Paging`) holds the address, frame, page and allocator
types the mapper uses. They are modelled only as far as the mapper needs
them. The source's frame.rs, page.rs and frame_alloc.rs are not part of this
model.

The frame allocator is a pool of frames. `allocate_frame` hands out the
pool's frames in order and returns None once it is empty. Within one
`map_to` call any allocator behaves this way, because the mapper stops at
the first failed allocation.

## Model

| member | source | states |
|---|---|---|
| PageTable.FieldLayout | src/paging/page_table.rs:14-17 | The address, attribute and flag masks are pairwise disjoint and cover all 64 bits. `MEMORY_ATTR_MASK` is SH at bit 8 plus AttrIndx at bit 2. `FLAGS_MASK` is the complement of the other two. Every named flag lies in the flag range. DBM and WRITE are the same bit 51. |
| PageTable.DefaultFlagsKinds | src/paging/page_table.rs:222-240 | `default_table` and `default_page` hold VALID and TABLE_OR_PAGE. `default_block` holds VALID but not TABLE_OR_PAGE. The bitflags default (the empty set) holds neither. |
| PageTable.PageTableEntry.New | src/paging/page_table.rs:42-44 | A new entry is unused, with zero flags, address and attribute. |
| PageTable.PageTableEntry.SetUnused | src/paging/page_table.rs:54-56 | After `set_unused` the entry is unused and `frame()` gives FrameNotPresent. |
| PageTable.PageTableEntry.IsUnused | src/paging/page_table.rs:48-50 | Whether the whole word is zero; EntryFields relates it to the three fields. |
| PageTable.PageTableEntry.Flags | src/paging/page_table.rs:60-62 | The named flag bits of the word (`from_bits_truncate`); EntryFields and EntryRecomposes state how they relate to the other fields. |
| PageTable.PageTableEntry.Addr | src/paging/page_table.rs:66-68 | The address read back is 4 KiB-aligned and below 2^48. |
| PageTable.PageTableEntry.Attr | src/paging/page_table.rs:72-74 | The attribute field under `MEMORY_ATTR_MASK`; EntryRecomposes states that its mask is that mask. |
| PageTable.PageTableEntry.IsBlock | src/paging/page_table.rs:78-80 | A block exactly when TABLE_OR_PAGE is clear; EntryRecomposes states it on the raw word. |
| PageTable.PageTableEntry.Frame | src/paging/page_table.rs:89-98 | FrameNotPresent exactly when VALID is clear, a check made first. HugeFrame exactly when VALID is set and the entry is a block. Otherwise Ok, with the frame at `addr()`. An unused entry gives FrameNotPresent. |
| PageTable.PageTableEntry.SetAddr | src/paging/page_table.rs:102-105 | For a 4 KiB-aligned address below 2^48, each field reads back its stored part ORed with the attribute value's bits in that field's range. The attribute field reads back the attribute value's attribute bits whatever the address. |
| PageTable.PageTableEntry.SetFrame | src/paging/page_table.rs:108-112 | With TABLE_OR_PAGE in the flags, the entry is neither unused nor a block. It reads back the frame and the flags, each ORed with the attribute value's bits in its range. `frame()` gives the stored address when the stored flags hold VALID, and FrameNotPresent otherwise. With an attribute inside its field, the frame, the flags and the attribute read back exactly. |
| PageTable.PageTableEntry.SetBlock | src/paging/page_table.rs:116-125 | Without TABLE_OR_PAGE in the flags, the entry is a block exactly when the attribute value does not set TABLE_OR_PAGE, and a block makes `frame()` fail. For an address below 2^48 and an attribute inside its field, the stored address is aligned down to the block size, and the flags and attribute read back. |
| PageTable.PageTableEntry.SetFlags | src/paging/page_table.rs:128-130 | The flags become exactly the given ones. The address and the attribute are kept. |
| PageTable.PageTableEntry.SetAttr | src/paging/page_table.rs:133-135 | For any attribute value: the attribute field becomes the value's bits in that field. The value's other bits are ORed into the address and the flags, which otherwise keep their old contents. |
| PageTable.FlagsUpdateFields | src/paging/page_table.rs:128-130 | The bit arithmetic of `set_flags`: writing into the flag range keeps the address and attribute ranges. |
| PageTable.AttrUpdateFields | src/paging/page_table.rs:133-135 | The bit arithmetic of `set_attr` on any word and any value: the attribute range gets the value's attribute bits. The address and flag ranges keep their bits, plus the value's bits in those ranges. |
| PageTable.StoreFields | src/paging/page_table.rs:102-105 | The bit arithmetic of `set_addr`: each range of `addr \| flags \| value` holds its own part ORed with the value's bits in that range. |
| PageTable.InFieldBits | src/paging/page_table.rs:20 | An attribute value inside the attribute mask has no address or flag bits. |
| PageTable.SetAddrInField | src/paging/page_table.rs:102-105 | With an attribute inside its field and an address below 2^48, the address, the flags and the attribute read back exactly. |
| PageTable.SetAttrInField | src/paging/page_table.rs:133-135 | With an attribute inside its field, `set_attr` replaces the attribute alone and keeps the address and the flags. |
| PageTable.StoredFrame | src/paging/page_table.rs:102-112 | The entry set_frame writes into an unused slot stores the frame's address ORed with the attribute's address bits. `frame()` yields that address exactly when the flags, ORed with the attribute's flag bits, hold VALID. With an attribute inside its field, the address and the VALID test are the frame's and the flags' own. |
| PageTable.EntryFields | src/paging/page_table.rs:46-80 | An unused entry has zero flags, zero address and zero attribute, and reads as a block. An entry is unused exactly when the three fields and the unnamed bits 48-50 are all zero, so an entry with only bit 48 set is not unused although every accessor reads zero. |
| PageTable.EntryRecomposes | src/paging/page_table.rs:58-80 | The flags, the address, the attribute and bits 48-50 together make up the whole word. The attribute's mask is `MEMORY_ATTR_MASK`. `is_block` reads the TABLE_OR_PAGE bit alone. |
| PageTable.UnusedTable | src/paging/page_table.rs:242-243 | `ENTRY_COUNT` (512) entries, every one unused. |
| PageTable.PageTable.constructor | src/paging/page_table.rs:259-263 | A new table holds 512 unused entries, in fresh storage. |
| PageTable.PageTable.Zero | src/paging/page_table.rs:266-270 | After the loop over all entries, every one of the 512 entries is unused. |
| PageTable.PageTable.Index | src/paging/page_table.rs:297-303 | Indexing by a 9-bit index needs no bound check: the entry returned is one of the table's 512 entries. RecursivePageTable.Entry reads tables through it. |
| MemoryAttribute.MairType.AttrValue | src/paging/memory_attribute.rs:30-61 | The value lies inside the attribute field. AttrIndx holds the type's index. SH is InnerShareable (0b11) for Normal and OuterShareable (0b10) for the other two. |
| MemoryAttribute.MairType.Index | src/paging/memory_attribute.rs:22-51 | `INDEX` is 0, 1 and 2 for the three types, so it is below 3; IndicesDistinct adds that no two types share it. |
| MemoryAttribute.IndicesDistinct | src/paging/memory_attribute.rs:22 | The indices are below 3, and two memory types share an index only when they are the same type. |
| MemoryAttribute.AttrValues | src/paging/memory_attribute.rs:31-61 | The encodings are 0x300 (Normal), 0x204 (Device) and 0x208 (Normal non-cacheable). Each covers the whole attribute mask. |
| MemoryAttribute.AttrRoundTrip | src/paging/memory_attribute.rs:30-61 | Each attribute value survives `set_attr` followed by `attr()`. Reading it back tells the memory types apart. |
| Mapper.UnmapErrorFrom | src/paging/mapper/mod.rs:243-250 | The variant is kept in both directions, and InvalidFrameAddress never results. |
| Mapper.FlagUpdateErrorFrom | src/paging/mapper/mod.rs:252-259 | The variant is kept in both directions. |
| Mapper.TranslateErrorFrom | src/paging/mapper/mod.rs:261-268 | The variant is kept in both directions, and InvalidFrameAddress never results. |
| Mapper.TranslateAddr | src/paging/mapper/mod.rs:35-42 | None exactly for PageNotMapped and InvalidFrameAddress. Otherwise the frame's start address plus the offset (wrapping at 64 bits), for each of the three frame sizes. |
| Mapper.TranslatePageOf | src/paging/mapper/mod.rs:131-138 | A lookup error is converted. An unused entry gives PageNotMapped. Otherwise the result is Ok exactly when the stored address is aligned to the page size, and then it is the frame at that address; if not, it is InvalidFrameAddress with the address. |
| Mapper.TranslatePage4KiBAligned | src/paging/mapper/mod.rs:136-137 | For 4 KiB pages translate_page never reports InvalidFrameAddress. |
| Mapper.NewFlush | src/paging/mapper/mod.rs:172-174 | The token holds the page it was made for. |
| Paging.PageContaining | src/paging/mapper/mod.rs:156 | The page containing an address starts at that address with its low 12 bits cleared, within the 48-bit range. |
| Paging.IdentityPage | src/paging/mapper/mod.rs:156 | The page containing a frame's start address starts exactly at that address. |
| Paging.FrameAllocator.AllocateFrame | src/paging/mapper/recursive_page_table.rs:74 | It hands out the pool's first frame and removes it, or returns None and changes nothing when the pool is empty. |
| RecursiveMapping.TablePageIs | src/paging/mapper/recursive_page_table.rs:119-157 | `p4_page` to `p1_page` are (R,R,R,R), (R,R,R,i4), (R,R,i4,i3) and (R,i4,i3,i2): the recursive index fills the front, followed by the first zero to three indices of the page. |
| RecursiveMapping.TablePages | src/paging/mapper/recursive_page_table.rs:13-23 | When slot R of the level 4 table references that table, the four table pages resolve to: the root; the walk after i4; the walk after i4, i3; and the walk after i4, i3, i2. |
| RecursiveMapping.TablePageResolves | src/paging/mapper/recursive_page_table.rs:13-23 | The same, for any prefix of at most three indices: the table page resolves to where the walk along the prefix arrives. |
| RecursiveMapping.TablesAlongPath | src/paging/mapper/recursive_page_table.rs:103-157 | Each table page resolves to the table that the entry one level up references. The level 4 page resolves to the root. |
| RecursiveMapping.Unwrap | src/paging/mapper/recursive_page_table.rs:17-23 | Following the recursive slot any number of times leaves the walk at the level 4 table. |
| RecursiveMapping.WalkSnoc | src/paging/mapper/recursive_page_table.rs:13-23 | A walk one index longer takes one more step from where the shorter walk stood. |
| RecursiveMapping.Lookup | src/paging/mapper/recursive_page_table.rs:191-213 | get_entry from a table along the upper indices. On success the slot returned lies in a table of memory and is the leaf index asked for. LookupCases gives the full case split. |
| RecursiveMapping.WalkLookup | src/paging/mapper/recursive_page_table.rs:191-213 | Where the table walk along the upper indices reaches a table in memory, get_entry can follow the path and returns the leaf slot of that table. |
| RecursiveMapping.GetEntrySpec | src/paging/mapper/recursive_page_table.rs:191-213 | get_entry for a page succeeds exactly when the table walk along its three upper indices reaches a table. It then returns that table's level 1 slot; otherwise it fails, always with PageNotMapped. |
| RecursiveMapping.LookupCases | src/paging/mapper/recursive_page_table.rs:191-213 | get_entry fails exactly when an upper entry on the path is unused, and then only with PageNotMapped, never ParentEntryHugePage. It succeeds exactly when the table walk through the upper entries reaches a table, and returns that table's leaf slot whatever the slot holds. |
| RecursiveMapping.LookupLevels | src/paging/mapper/recursive_page_table.rs:191-213 | get_entry level by level: PageNotMapped at the first unused level 4, 3 or 2 entry; otherwise the level 1 slot of the table reached. |
| RecursiveMapping.GetEntryIsTranslationSlot | src/paging/mapper/recursive_page_table.rs:191-213 | The slot get_entry returns is the one the table walk reads last for the page: the page translates to what that slot references. |
| RecursiveMapping.TranslatePageSpec | src/paging/mapper/mod.rs:131-138 | translate_page for a page succeeds exactly when get_entry finds the level 1 slot used, and then returns the 4 KiB frame at the slot's address. VALID is not consulted. Every failure is PageNotMapped, never InvalidFrameAddress. |
| RecursiveMapping.UpdateFlagsSpec | src/paging/mapper/mod.rs:114-125 | Succeeds exactly when get_entry finds a used leaf. On failure the error is PageNotMapped and memory is unchanged. On success the token is for the page, and the leaf's flags are exactly the new ones with its address and attribute kept. Every other entry is unchanged. |
| RecursiveMapping.NextTableWith | src/paging/mapper/recursive_page_table.rs:63-98 | create_next_table with the installed flags as a parameter. It fails with FrameAllocationFailed exactly when the slot is unused and the allocator is empty. A used slot, or an empty allocator, changes neither memory nor allocator. A new table takes exactly the allocator's first frame. It never reports PageAlreadyMapped. |
| RecursiveMapping.NextTable | src/paging/mapper/recursive_page_table.rs:63-98 | create_next_table as corrected (installing `default_table()`): ParentEntryHugePage exactly when the slot already holds a block. |
| RecursiveMapping.NextTableAsWritten | src/paging/mapper/recursive_page_table.rs:75 | create_next_table as written, installing `PageTableFlags::default()`. Its behaviour is stated by NextTableAsWrittenFails. |
| RecursiveMapping.NextTableAsWrittenFails | src/paging/mapper/recursive_page_table.rs:73-86 | With `PageTableFlags::default()` as the installed flags, as written: an unused slot with a frame available gets an entry that is no longer unused but reads as a block. The call fails with ParentEntryHugePage after consuming the frame, whereas the corrected `NextTable` returns the new frame. |
| RecursiveMapping.NextTableFlags | src/paging/page_table.rs:225-227 | The flags a new table descriptor gets (`default_table()`) hold VALID and TABLE_OR_PAGE. |
| RecursiveMapping.NextTableCreates | src/paging/mapper/recursive_page_table.rs:73-76 | An unused slot with a frame available: Ok with the allocator's first frame, which is removed from the allocator and now holds an empty table. |
| RecursiveMapping.NextTableInstalls | src/paging/mapper/recursive_page_table.rs:73-96 | An unused slot with a frame available: the slot references that frame with the Normal attribute, the frame is zeroed, and nothing else changes. |
| RecursiveMapping.NextTableLeavesAlone | src/paging/mapper/recursive_page_table.rs:73-86 | An unused slot with no frame left: FrameAllocationFailed, with nothing changed. A used slot: no allocation and no change, failing with ParentEntryHugePage exactly when the slot is a block. |
| RecursiveMapping.NextTableExisting | src/paging/mapper/recursive_page_table.rs:80-97 | A slot holding a table descriptor: that table is returned, with no allocation, no zeroing and no change. |
| RecursiveMapping.InstalledTableEntry | src/paging/mapper/recursive_page_table.rs:75 | The descriptor a new table gets is a valid table descriptor that references the new frame. |
| RecursiveMapping.NextTablePool | src/paging/mapper/recursive_page_table.rs:73-79 | create_next_table takes no frame or the allocator's first one, and fails for lack of frames only when none is left. |
| RecursiveMapping.NextTableKeeps | src/paging/mapper/recursive_page_table.rs:52-101 | One create_next_table step changes no used entry outside the allocator's frames, keeps every table 512 entries long, and leaves the allocator a subset of its frames. |
| RecursiveMapping.NextTableFresh | src/paging/mapper/recursive_page_table.rs:52-101 | The allocator's remaining frames stay unreferenced tables. On success the slot references the returned table, which the allocator no longer holds. |
| RecursiveMapping.NextTableWalks | src/paging/mapper/recursive_page_table.rs:52-101 | One step from a table the table walk reaches keeps the recursive slot and that walk. On success the walk one index further arrives at the returned table. |
| RecursiveMapping.NextTableContinues | src/paging/mapper/recursive_page_table.rs:88-97 | After a successful step, the rest of the path can be followed from the returned table. |
| RecursiveMapping.NextTableWithContinues | src/paging/mapper/recursive_page_table.rs:88-97 | The same for any installed flags that make a table descriptor resolvable. |
| RecursiveMapping.CreateStep | src/paging/mapper/recursive_page_table.rs:84-97 | After the slot is filled or found used, and is not a block, the next table page resolves to the table create_next_table returns. Zeroing it when it was just created completes the step. |
| RecursiveMapping.MapToStep | src/paging/mapper/recursive_page_table.rs:172-181 | One level of map_to: on success everything the next level needs holds again one index further, and map_to continues from the returned table. |
| RecursiveMapping.MapPathWith | src/paging/mapper/recursive_page_table.rs:161-189 | map_to from a table along the upper indices, with the flags new tables get as a parameter: create_next_table level by level, stopping at the first error, then PageAlreadyMapped for a used leaf or the leaf set to the frame. Its properties are stated by the MapPath lemmas (corrected flags) and MapToAsWrittenFails (as written). |
| RecursiveMapping.MapPath | src/paging/mapper/recursive_page_table.rs:161-189 | map_to from a table with the corrected `default_table()` flags for new tables. The MapPath lemmas below state its properties. |
| RecursiveMapping.MapToSpec | src/paging/mapper/recursive_page_table.rs:161-189 | map_to for a 4 KiB page from the level 4 table. MapToTranslates, MapToGetsEntry, MapToKeepsRecursive, MapToLeaves and MapToFreshSlot state its properties. |
| RecursiveMapping.InstallWalks | src/paging/mapper/recursive_page_table.rs:73-96 | Installing a fresh table under an unused slot the table walk reaches keeps the recursive slot and the walk, and the walk one index further arrives at the new table. |
| RecursiveMapping.RootNotInPool | src/paging/mapper/recursive_page_table.rs:13-23 | The level 4 table is referenced by its own recursive slot, so a fresh allocator cannot hold it. |
| RecursiveMapping.MapPathPool | src/paging/mapper/recursive_page_table.rs:172-181 | map_to takes at most one frame per upper level, so at most three for a 4 KiB page (the promise of mod.rs line 83), all from the front of the allocator. |
| RecursiveMapping.MapPathOutOfFrames | src/paging/mapper/recursive_page_table.rs:77-79 | map_to fails with FrameAllocationFailed only when the allocator has run out. |
| RecursiveMapping.MapPathToken | src/paging/mapper/recursive_page_table.rs:188 | A successful map_to returns the token for the page asked for. |
| RecursiveMapping.MapPathMaps | src/paging/mapper/recursive_page_table.rs:172-188 | On success the table walk follows the upper indices into a table whose leaf slot is `set_frame(frame, flags, attr)` of an unused entry. |
| RecursiveMapping.MapPathKeeps | src/paging/mapper/recursive_page_table.rs:172-188 | map_to, on every outcome, changes no used entry outside the allocator's frames, and every table keeps 512 entries. |
| RecursiveMapping.MapPathLinks | src/paging/mapper/recursive_page_table.rs:172-181 | On every outcome, failure included, each frame map_to took from the allocator is a table of memory that the table walk reaches along a non-empty prefix of the upper indices: tables created before a failure stay linked in. |
| RecursiveMapping.MapPathExisting | src/paging/mapper/recursive_page_table.rs:183-186 | When the table walk already follows the upper indices to a table, map_to takes no frame and changes only that table. It maps the leaf exactly when the leaf is unused. Otherwise it reports PageAlreadyMapped and changes nothing. |
| RecursiveMapping.MapPathEmpty | src/paging/mapper/recursive_page_table.rs:172-181 | From an empty table: with at least as many frames as upper levels, map_to succeeds and takes exactly that many. With fewer, it fails with FrameAllocationFailed and takes them all. |
| RecursiveMapping.MapPathHuge | src/paging/mapper/recursive_page_table.rs:84-86 | map_to reports ParentEntryHugePage exactly when the walk meets a block among the upper entries. |
| RecursiveMapping.MapToTranslates | src/paging/mapper/recursive_page_table.rs:161-189 | After a successful map_to, the table walk translates the page to the stored frame when the stored flags hold VALID, and finds no translation when they do not. The stored frame and flags carry any bits of the attribute value outside its field. With an attribute inside its field, the page translates to the frame exactly when the flags hold VALID. |
| RecursiveMapping.MapToResolvesLeaf | src/paging/mapper/recursive_page_table.rs:161-189 | After a successful map_to, the table walk of the page ends at the entry map_to wrote and yields the frame that entry gives, if any. |
| RecursiveMapping.LeafTranslation | src/paging/page_table.rs:87-112 | The translation the written entry gives: the stored address as a frame when the stored flags hold VALID, none otherwise, and the mapped frame for an attribute inside its field. |
| RecursiveMapping.MapToGetsEntry | src/paging/mapper/recursive_page_table.rs:161-213 | After a successful map_to, get_entry is defined for the page and returns the slot map_to wrote, holding `set_frame(frame, flags, attr)`. translate_page returns the 4 KiB frame at the frame's address ORed with the attribute's address bits, whether or not the flags hold VALID. With an attribute inside its field, that frame is the mapped frame. |
| RecursiveMapping.MapToKeepsRecursive | src/paging/mapper/recursive_page_table.rs:161-189 | map_to leaves the recursive slot of the level 4 table as it was. |
| RecursiveMapping.MapToLeaves | src/paging/mapper/recursive_page_table.rs:161-189 | The facts above together, under the class's preconditions: the recursive slot survives. On success get_entry and unmap can follow the page, and translate_page returns the stored frame, which is the mapped frame for an attribute inside its field. |
| RecursiveMapping.MapToFreshSlot | src/paging/mapper/recursive_page_table.rs:161-189 | With the page's level 4 slot unused: at least three frames make map_to succeed, taking exactly the first three. With fewer, it fails with FrameAllocationFailed having taken them all. |
| RecursiveMapping.MapToAsWritten | src/paging/mapper/recursive_page_table.rs:75 | map_to as written, with new tables installed under `PageTableFlags::default()`. Its behaviour is stated by MapToAsWrittenFails. |
| RecursiveMapping.MapToAsWrittenFails | src/paging/mapper/recursive_page_table.rs:73-86 | As written, map_to for a page whose level 4 slot is unused fails with ParentEntryHugePage whenever a frame is available. It uses up that one frame and leaves a block descriptor in the slot, while the corrected map_to succeeds there given three frames. |
| RecursiveMapping.UnmapErrorOf | src/paging/mapper/recursive_page_table.rs:222-225 | FrameNotPresent becomes PageNotMapped and HugeFrame becomes ParentEntryHugePage, in both directions. |
| RecursiveMapping.UnmapLookup | src/paging/mapper/recursive_page_table.rs:219-247 | On success, the slot returned is the level 1 slot of a table in memory, and its entry references a frame. |
| RecursiveMapping.UnmapLookupWalks | src/paging/mapper/recursive_page_table.rs:215-251 | unmap's lookup succeeds exactly when the table walk of all four indices reaches a frame. The slot found is the one the walk reads last. InvalidFrameAddress is never reported. |
| RecursiveMapping.UnmapLookupLevels | src/paging/mapper/recursive_page_table.rs:219-247 | The lookup level by level: the first entry without a frame gives the converted error, and each entry with a frame leads to the table it references. |
| RecursiveMapping.UnmapSpec | src/paging/mapper/recursive_page_table.rs:215-251 | On error memory is unchanged. On success: the returned frame is what the page translated to before, the token is for the page, the leaf is now unused, and every other entry is unchanged. |
| RecursiveMapping.UnmapUnmaps | src/paging/mapper/recursive_page_table.rs:215-251 | unmap succeeds exactly when the table walk translates the page, and afterwards the page has no translation. |
| RecursiveMapping.LookupPresent | src/paging/mapper/recursive_page_table.rs:191-247 | Every path get_entry can follow, unmap can follow too. |
| RecursiveMapping.UnmapLookupReaches | src/paging/mapper/recursive_page_table.rs:215-247 | Where the table walk of the upper indices reaches a table, unmap's lookup passes every upper level and decides on `frame()` of that table's leaf slot alone. |
| RecursiveMapping.MapToUnmaps | src/paging/mapper/recursive_page_table.rs:161-251 | After a successful map_to, unmap can follow the page. It returns the frame the written entry yields with a token for the page, or PageNotMapped when the stored flags lack VALID. For an attribute inside its field, unmap returns the mapped frame exactly when the flags hold VALID. |
| RecursiveMapping.UnmapThenLookup | src/paging/mapper/recursive_page_table.rs:191-251 | After a successful unmap, get_entry is still defined and translate_page reports PageNotMapped. Where get_entry still finds a slot, it is the slot it found before the unmap, now unused: get_entry checks only the upper entries, so it does not report PageNotMapped for an unmapped page. |
| RecursiveMapping.LookupClear | src/paging/mapper/recursive_page_table.rs:191-213 | Clearing one slot keeps get_entry defined along every path it was defined on. |
| RecursivePageTable.RecursivePageTable.constructor | src/paging/mapper/recursive_page_table.rs:31-39 | The recursive index is the given u16, which must fit in 9 bits. Given the caller's obligation that it indexes the level 4 table's recursive entry, the new object is valid and its recursive slot holds. |
| RecursivePageTable.RecursivePageTable.WriteEntry | src/paging/mapper/recursive_page_table.rs:186 | Writing one slot of one table changes exactly that slot of memory. |
| RecursivePageTable.RecursivePageTable.ZeroTable | src/paging/mapper/recursive_page_table.rs:95 | Zeroing a table makes exactly that table empty. |
| RecursivePageTable.RecursivePageTable.Entry | src/paging/page_table.rs:297-303 | Indexing a table by a 9-bit index reads that slot of memory. |
| RecursivePageTable.RecursivePageTable.GetEntry | src/paging/mapper/recursive_page_table.rs:191-213 | Reading through the four table pages gives exactly get_entry's specification, whose properties are LookupCases, LookupLevels and GetEntryIsTranslationSlot. |
| RecursivePageTable.RecursivePageTable.GetEntryMut | src/paging/mapper/mod.rs:102-106 | Fails exactly when get_entry fails, with the same error, and otherwise gives the same slot. |
| RecursivePageTable.RecursivePageTable.TranslatePage | src/paging/mapper/mod.rs:131-138 | Equals translate_page's specification: get_entry followed by TranslatePageOf for 4 KiB. |
| RecursivePageTable.RecursivePageTable.UpdateFlags | src/paging/mapper/mod.rs:114-125 | The result and the new memory are those of UpdateFlagsSpec. |
| RecursivePageTable.RecursivePageTable.UnmapSlot | src/paging/mapper/recursive_page_table.rs:219-247 | Reading `frame()` level by level through the table pages gives exactly unmap's lookup. On success the slot's entry references a frame. |
| RecursivePageTable.RecursivePageTable.Unmap | src/paging/mapper/recursive_page_table.rs:215-251 | The result and the new memory are those of UnmapSpec. |
| RecursivePageTable.RecursivePageTable.InstallNextTable | src/paging/mapper/recursive_page_table.rs:71-82 | A used slot: nothing changes and nothing is allocated. An unused slot with an empty allocator: FrameAllocationFailed with nothing changed. Otherwise the slot gets the allocator's first frame as a table descriptor with the Normal attribute. |
| RecursivePageTable.RecursivePageTable.EnterNextTable | src/paging/mapper/recursive_page_table.rs:88-97 | The next table is the one the next table page resolves to. It is zeroed exactly when it was just created. |
| RecursivePageTable.RecursivePageTable.CreateNextTable | src/paging/mapper/recursive_page_table.rs:52-101 | The result, the new memory and the allocator's frames are those of NextTable. |
| RecursivePageTable.RecursivePageTable.MapLevel | src/paging/mapper/recursive_page_table.rs:174-181 | One create_next_table call of map_to: an error ends map_to where its specification ends; on success the next level is ready. |
| RecursivePageTable.RecursivePageTable.MapLeaf | src/paging/mapper/recursive_page_table.rs:183-188 | A used leaf gives PageAlreadyMapped. Otherwise the leaf is set to the frame and the token returned, as the specification says. |
| RecursivePageTable.RecursivePageTable.MapLast | src/paging/mapper/recursive_page_table.rs:180-188 | The level 1 create_next_table call and the leaf end where map_to's specification ends. |
| RecursivePageTable.RecursivePageTable.MapStart | src/paging/mapper/recursive_page_table.rs:172 | The level 4 table page resolves to the root, and the root is ready for map_to's first step. |
| RecursivePageTable.RecursivePageTable.MapTo | src/paging/mapper/recursive_page_table.rs:161-189 | The result, the new memory and the allocator's frames are those of MapToSpec. The recursive slot still holds afterwards. On success GetEntry, TranslatePage and Unmap can be called for the page. translate_page returns the frame's address ORed with the attribute's address bits, which is the mapped frame for an attribute inside its field. |
| RecursivePageTable.RecursivePageTable.MapLevels | src/paging/mapper/recursive_page_table.rs:172-188 | The three create_next_table calls and the leaf write of map_to end in the state MapToSpec computes. |
| RecursivePageTable.RecursivePageTable.IdentityMap | src/paging/mapper/mod.rs:144-158 | Equals map_to on the page containing the frame's start address. On success the token's page starts exactly at the frame's address. The recursive slot still holds afterwards. |

## Left out

- The `unsafe` casts from a virtual address to a table: a table reached at a virtual address is the table object that the table walk of that address reaches in memory.
- Memory holds every frame a table descriptor references. `LookupDefined`, `MapDefined` and `PathPresent`, preconditions of GetEntry, TranslatePage, UpdateFlags, MapTo, IdentityMap and Unmap, demand that for each descriptor the operation dereferences. Where the frame is absent the source reads through an unmapped virtual address and faults; the model does not describe that fault.
- `LookupDefined` also excludes a used upper entry that is not a valid table descriptor, such as a block or an entry without VALID. get_entry (and so translate_page, update_flags and get_entry_mut) dereferences the next table page there, which the hardware does not map through such an entry, so the source faults. Pages under a block are therefore outside GetEntry, TranslatePage and UpdateFlags. The claim that get_entry never reports ParentEntryHugePage (LookupCases) holds only on the block-free paths this precondition admits.
- `MapDefined` also excludes a used entry that holds TABLE_OR_PAGE but not VALID: create_next_table would dereference it. Blocks are admitted and give ParentEntryHugePage.
- `PoolFresh`: MapTo and IdentityMap require the allocator's frames to be distinct, unreferenced tables of memory. This is the caller's obligation that allocated frames are unused, stated for the allocator.
- Frame allocators other than a fixed pool are not modelled.
- PageTable.PageTableEntry.SetAddr: the debug assertion that the address is 4 KiB-aligned is a precondition. Release builds do not check it.
- PageTable.PageTableEntry.SetFrame: the debug assertion that the flags hold TABLE_OR_PAGE is a precondition. Release builds do not check it. RecursivePageTable.RecursivePageTable.MapTo and IdentityMap inherit it as their own precondition.
- PageTable.PageTableEntry.SetBlock: the debug assertion that the flags do not hold TABLE_OR_PAGE is a precondition. Release builds do not check it.
- Attribute values are not restricted to the attribute mask, as in the source. The setters OR every bit of the value into the descriptor, and their ensures say what an out-of-field value does to the address and the flags. Exact read-back, and map_to's translation to the mapped frame, are stated for attributes inside their field (`InAttrField`), which every `MairType` value is.
- The table walk (`Descend`) ignores the access flag AF and the access-permission bits. A table page reached through the recursive entry is read, at its last step, as a level-3 page descriptor. Where the hardware does not manage the access flag, such an access faults when that descriptor lacks AF. `default_table()` carries no AF, so on such hardware the access to a freshly created table (its `zero()` in create_next_table) faults, while TablePages, CreateStep and NextTableCreates prove it succeeds. The model does not tell `default_table()` from `default_page()` here.
- RecursivePageTable.RecursivePageTable.constructor: the panic of `u9::new` for an index of 512 or more is a precondition. So is the obligation, which `new` documents but does not check, that the index is the recursive entry of the level 4 table, together with the tables the caller's memory holds.
- RecursivePageTable.RecursivePageTable.GetEntryMut: it returns the same slot as GetEntry. The mutable alias the source creates is represented by later writes to that slot.
- The `dsb` barrier in create_next_table and the TLB invalidation of `MapperFlush::flush`/`ignore` are hardware effects with no state in this model.
- `va_range` and `Page::from_page_table_indices` beyond the four indices: pages live in one fixed virtual-address range.
- `MapperAllSizes::translate`, the source of the results `translate_addr` interprets, has no implementation in these files. Only `translate_addr`'s interpretation is modelled.
- The MAIR_EL1 `config_value` register constants belong to a foreign register crate.
- `MappedPageTable` is not part of this model.
- `PageTable` iteration (`iter`, `iter_mut`) and the `Debug` formatting are not modelled.
- Mapper.TranslatePageOf: only the 4 KiB instance is connected to the recursive page table, which implements the mapper for 4 KiB pages only.
- `PageTableFlags::default()`: the `bitflags!` declaration at page_table.rs:168-170 derives no `Default`, and page_table.rs implements none. The model assumes `default()` is the empty flag set, which is what a bitflags-provided or derived `Default` gives. If the crate provides no `Default` at all, line 75 of recursive_page_table.rs does not compile, and the finding below is stated under this assumption.
- Block descriptors as translations: the table walk (`Walk`, `Resolve`) follows valid table (or page) descriptors only and treats a block as giving no translation. The output address of 1 GiB and 2 MiB blocks is not modelled, and the only block the mapper itself produces is the as-written descriptor of create_next_table.
- RecursivePageTable.RecursivePageTable.InstallNextTable, CreateNextTable, MapLevels, MapTo and IdentityMap run create_next_table as corrected (new descriptors carry `default_table()`), and so do NextTable, MapPath and MapToSpec. The code as written, with `PageTableFlags::default()`, is modelled by NextTableAsWritten and MapToAsWritten, whose failure NextTableAsWrittenFails and MapToAsWrittenFails state (see Findings).

## Findings

| source | as written | input that shows it | evidently intended | confidence | as-written member | corrected member |
|---|---|---|---|---|---|---|
| src/paging/mapper/recursive_page_table.rs:75 | `create_next_table` installs a new table descriptor with `PageTableFlags::default()`, the empty set. The entry then lacks VALID and TABLE_OR_PAGE, so the `is_block` test on line 84 always holds, and the call returns ParentEntryHugePage after consuming the allocated frame. In debug builds the assertion in `set_frame` fails first. This assumes `default()` is the empty set (see Left out). At the level of `map_to`, MapToAsWrittenFails shows the same thing for a page whose level 4 entry is unused. | any `map_to` whose level 4, 3 or 2 entry is unused, with a frame available | install `PageTableFlags::default_table()` (VALID and TABLE_OR_PAGE), so the new entry references the new table; `default_page()` (VALID, TABLE_OR_PAGE and AF) is the other candidate, and it also serves where the new table is read through the recursive entry as a page on hardware that does not manage the access flag | not executed | RecursiveMapping.NextTableAsWrittenFails | RecursiveMapping.NextTableCreates |
