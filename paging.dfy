/** Address, page and frame types the paging code is built on, and the frame
    allocator it consumes. The source keeps these in files that are not part
    of this model (frame.rs, page.rs, frame_alloc.rs); they are modelled only as
    far as the page-table code uses them. */
module Paging {

  datatype Option<+T> = None | Some(value: T)

  datatype Result<+T, +E> = Ok(value: T) | Err(error: E)

  /** A 64-bit physical address. */
  type PhysAddr = bv64

  /** A 64-bit virtual address. */
  type VirtAddr = bv64

  /** The bits a 4 KiB-aligned address below 2^48 may not have. */
  const NOT_FRAME_BITS: bv64 := 0xffff_0000_0000_0fff

  /** A physical frame by its start address. */
  datatype Frame = FrameAt(start: PhysAddr)

  /** A 4 KiB physical frame (PhysFrame<Size4KiB>): its start address is
      4 KiB-aligned and inside the 48-bit physical address range. */
  type PhysFrame = f: Frame | f.start & NOT_FRAME_BITS == 0 witness FrameAt(0)

  /** A 9-bit page-table index (u9). */
  type Idx = bv9

  /** The three page sizes; each fixes an alignment. */
  datatype PageSize = Size4KiB | Size2MiB | Size1GiB {
    function Bytes(): bv64 {
      match this
      case Size4KiB => 0x1000
      case Size2MiB => 0x20_0000
      case Size1GiB => 0x4000_0000
    }
  }

  /** `a` is a multiple of the power of two `align`. */
  predicate IsAligned(a: bv64, align: bv64) {
    a & (align - 1) == 0
  }

  /** `a` rounded down to a multiple of the power of two `align`. */
  function AlignDown(a: bv64, align: bv64): bv64 {
    a & !(align - 1)
  }

  /** A frame of one of the three sizes (PhysFrame<S>), by its start address. */
  datatype SizedFrame = SizedFrame(size: PageSize, start: PhysAddr)

  /** PhysFrame::from_start_address: fails unless `a` is aligned to the size. */
  function FrameFromStartAddress(size: PageSize, a: PhysAddr): Result<SizedFrame, ()> {
    if IsAligned(a, size.Bytes()) then Ok(SizedFrame(size, a)) else Err(())
  }

  /** A 4 KiB virtual page (Page<Size4KiB>) by its four table indices, level 4
      first. Every page lies in one fixed virtual-address range (the lower,
      TTBR0 range); the range is a parameter of the address space and plays no
      part in the indices. */
  datatype Page = Page(p4: Idx, p3: Idx, p2: Idx, p1: Idx) {
    /** The page's start address within its virtual-address range
        (Page::from_page_table_indices). */
    function StartAddress(): VirtAddr {
      (p4 as bv64 << 39) | (p3 as bv64 << 30) | (p2 as bv64 << 21) | (p1 as bv64 << 12)
    }
  }

  /** Page::containing_address: the 4 KiB page whose range holds `a`. */
  function PageContaining(a: VirtAddr): (p: Page)
    ensures p.StartAddress() == a & 0x0000_ffff_ffff_f000
  {
    Page(((a >> 39) & 0x1ff) as bv9, ((a >> 30) & 0x1ff) as bv9,
         ((a >> 21) & 0x1ff) as bv9, ((a >> 12) & 0x1ff) as bv9)
  }

  /** identity_map's page: the page containing a frame's start address
      starts exactly there, so the mapping is the identity on that frame. */
  lemma IdentityPage(f: PhysFrame)
    ensures PageContaining(f.start).StartAddress() == f.start
  {
    assert f.start & 0x0000_ffff_ffff_f000 == f.start;
  }

  /** The frame allocator handed to the mapper. It gives out frames from
      `pool`, in order, and returns None once the pool is exhausted. Within one
      mapping call every allocator behaves like some pool: the calls succeed
      until the first failure, and the mapper stops at that failure. */
  class FrameAllocator {
    var pool: seq<PhysFrame>

    constructor (pool: seq<PhysFrame>)
      ensures this.pool == pool
    {
      this.pool := pool;
    }

    /** allocate_frame */
    method AllocateFrame() returns (f: Option<PhysFrame>)
      modifies this
      ensures old(pool) == [] ==> f == None && pool == old(pool)
      ensures old(pool) != [] ==> f == Some(old(pool)[0]) && pool == old(pool)[1..]
    {
      if pool == [] {
        f := None;
      } else {
        f := Some(pool[0]);
        pool := pool[1..];
      }
    }
  }
}
