/** The physical memory map as the loader hands it to the kernel. */
module MemoryMaps {
  import opened Basics

  datatype MemoryKind = Usable | Reserved | AcpiReclaimable | AcpiNvs | LoaderReclaimable | BadMemory

  datatype MemoryRegion = MemoryRegion(start: u64, len: u64, kind: MemoryKind) {
    /** One past the last address, saturating. */
    function End(): nat {
      SaturatingAdd(start, len)
    }

    predicate Contains(a: nat) {
      start <= a < End()
    }

    predicate UsableAtBoot() {
      kind == Usable
    }
  }
}
