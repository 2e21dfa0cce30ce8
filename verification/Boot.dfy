/** The boot information record every boot protocol fills in. */
module Boot {

  datatype MemoryKind = Usable | Reserved | AcpiReclaimable | AcpiNvs | Defective

  datatype AddressRange = AddressRange(base: nat, length: nat)

  datatype MemoryRegion = MemoryRegion(base: nat, length: nat, kind: MemoryKind)

  datatype ModuleInfo = ModuleInfo(range: AddressRange, commandLine: seq<nat>)

  datatype FramebufferKind = Rgb | Indexed | Text

  datatype Channel = Channel(position: nat, size: nat)

  datatype Color = Color(red: nat, green: nat, blue: nat)

  datatype FramebufferInfo = FramebufferInfo(
    present: bool, kind: FramebufferKind, range: AddressRange, pitch: nat, width: nat, height: nat,
    bitsPerPixel: nat, red: Channel, green: Channel, blue: Channel, palette: seq<Color>)

  datatype AcpiInfo = AcpiInfo(present: bool, rsdp: AddressRange, revision: nat)

  datatype Info = Info(
    commandLine: seq<nat>, bootloaderName: seq<nat>, memoryMap: seq<MemoryRegion>,
    modules: seq<ModuleInfo>, reserved: seq<AddressRange>, framebuffer: FramebufferInfo, acpi: AcpiInfo)

  const NoRange := AddressRange(0, 0)

  const NoFramebuffer := FramebufferInfo(
    false, Rgb, NoRange, 0, 0, 0, 0, Channel(0, 0), Channel(0, 0), Channel(0, 0), [])

  const NoAcpi := AcpiInfo(false, NoRange, 0)

  const EmptyInfo := Info([], [], [], [], [], NoFramebuffer, NoAcpi)
}
