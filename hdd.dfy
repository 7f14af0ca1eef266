/** The HDD class of hdlg/hdd.py: a handle on a physical drive, the file
    position behind it, sector-multiple reads, and the properties that hdlg
    computes once and keeps (geometry, disk size, disk map, whether the
    drive is APA-partitioned, its APA checksum).

    The operating system is a parameter: `open` looks the device path up in
    a map of the devices CreateFile can open, and each device is a `Disk`
    holding its bytes, the result code ReadFile reports for it and the
    geometry DeviceIoControl answers with. */
module Hdd {
  import opened Wrappers
  import opened Strings
  import opened Errors
  import opened Apa
  import opened HdlOutput

  /** `\\.\`, the Win32 device namespace. */
  const DEVICE_NAMESPACE: string := "\\\\.\\"

  /** `\\.\PHYSICALDRIVE`, a physical drive's path less its number. */
  const PHYSICAL_DRIVE: string := "\\\\.\\PHYSICALDRIVE"

  /** Reads must be a whole number of 512-byte sectors. */
  const SECTOR: nat := 512

  /** `apa_checksum` reads one sector and keeps its first four bytes. */
  const CHECKSUM_SIZE: nat := 4

  // ---------------------------------------------------------------------
  // Names

  /** `open`'s device path: the name itself when it is already in the
      device namespace, and the name with `\\.\` in front otherwise. */
  function DevicePath(device: string): (path: string)
    ensures StartsWith(path, DEVICE_NAMESPACE)
    ensures path == device || path == DEVICE_NAMESPACE + device
    ensures path == device <==> StartsWith(device, DEVICE_NAMESPACE)
  {
    if StartsWith(device, DEVICE_NAMESPACE) then device
    else
      assert (DEVICE_NAMESPACE + device)[..|DEVICE_NAMESPACE|] == DEVICE_NAMESPACE;
      DEVICE_NAMESPACE + device
  }

  /** `hdl_target`: the target upper-cased, every `\\.\PHYSICALDRIVE`
      replaced by "hdd", and a colon appended. */
  function HdlTarget(target: string): (t: string)
    ensures |t| > 0 && t[|t| - 1] == ':'
  {
    Replace(Upper(target), PHYSICAL_DRIVE, "hdd") + ":"
  }

  /** The name hdl-dump uses for physical drive n is "hddn:", whatever the
      case the drive's path was written in. */
  lemma HdlTargetOfDrive(target: string, number: string)
    requires forall i :: 0 <= i < |number| ==> IsDigit(number[i])
    requires Upper(target) == PHYSICAL_DRIVE + number
    ensures HdlTarget(target) == "hdd" + number + ":"
  {
    FirstAt("", PHYSICAL_DRIVE, number);
    ReplaceFirst("", PHYSICAL_DRIVE, number, "hdd");
    assert "" + PHYSICAL_DRIVE + number == PHYSICAL_DRIVE + number;
    NoOccurrenceWithoutFirstChar(number, PHYSICAL_DRIVE);
    ReplaceAbsent(number, PHYSICAL_DRIVE, "hdd");
    assert "" + "hdd" + number == "hdd" + number;
    assert Replace(Upper(target), PHYSICAL_DRIVE, "hdd") == "hdd" + number;
  }

  /** A target that holds no backslash only gets upper-cased and a colon. */
  lemma HdlTargetOfName(target: string)
    requires '\\' !in target
    ensures HdlTarget(target) == Upper(target) + ":"
  {
    assert '\\' !in Upper(target) by {
      forall i | 0 <= i < |target|
        ensures Upper(target)[i] != '\\'
      {
        assert target[i] != '\\';
      }
    }
    NoOccurrenceWithoutFirstChar(Upper(target), PHYSICAL_DRIVE);
    ReplaceAbsent(Upper(target), PHYSICAL_DRIVE, "hdd");
  }

  // ---------------------------------------------------------------------
  // The device

  datatype Whence = FileBegin | FileCurrent | FileEnd

  /** `struct.unpack("8L", ...)` of the 32 bytes IOCTL_DISK_GET_DRIVE_GEOMETRY_EX
      returns, named as the `geometry` docstring names them. */
  datatype Geometry = Geometry(
    cylindersLo: u32, cylindersHi: u32, mediaType: u32, tracksPerCylinder: u32,
    sectorsPerTrack: u32, bytesPerSector: u32, diskSize: u32, extraData: u32)

  /** What a device path opens: the bytes of the drive, the result code
      ReadFile reports for it, and its geometry. */
  datatype Disk = Disk(bytes: seq<byte>, readCode: nat, geometry: Geometry)

  /** `disk_size`: the two cylinder halves added, times tracks per
      cylinder, sectors per track and bytes per sector. */
  function DiskSizeOf(g: Geometry): nat {
    (g.cylindersLo + g.cylindersHi) * g.tracksPerCylinder * g.sectorsPerTrack * g.bytesPerSector
  }

  /** The cylinder count the two halves encode (a 64-bit LARGE_INTEGER). */
  function CylinderCount(g: Geometry): nat {
    g.cylindersLo + g.cylindersHi * TWO32
  }

  lemma MulCancel(a: nat, b: nat, p: nat)
    ensures a * p == b * p <==> a == b || p == 0
  {
    if a != b && p != 0 {
      var lo, hi := if a < b then a else b, if a < b then b else a;
      var k: nat := hi - lo - 1;
      assert hi * p == lo * p + k * p + p;
    }
  }

  /** Tracks per cylinder times sectors per track times bytes per sector. */
  function Layout(g: Geometry): nat {
    g.tracksPerCylinder * g.sectorsPerTrack * g.bytesPerSector
  }

  /** Adding the cylinder halves gives the size of cylinders times sector
      layout exactly when the high half is zero (fewer than 2^32 cylinders)
      or the layout is empty. */
  lemma DiskSizeAddsHalves(g: Geometry)
    ensures DiskSizeOf(g) == CylinderCount(g) * Layout(g) <==> g.cylindersHi == 0 || Layout(g) == 0
  {
    var tpc: int, spt: int, bps: int := g.tracksPerCylinder, g.sectorsPerTrack, g.bytesPerSector;
    var layout := Layout(g);
    var halves := g.cylindersLo + g.cylindersHi;
    assert DiskSizeOf(g) == halves * layout by {
      assert halves * tpc * spt * bps == halves * (tpc * spt * bps);
    }
    MulCancel(halves, CylinderCount(g), layout);
    assert g.cylindersHi * TWO32 == g.cylindersHi <==> g.cylindersHi == 0 by {
      MulCancel(g.cylindersHi, 0, TWO32 - 1);
      assert g.cylindersHi * TWO32 == g.cylindersHi + g.cylindersHi * (TWO32 - 1);
    }
  }

  /** Where SetFilePointer puts the position: `to` from the start, from the
      current position, or from the end. */
  function SeekTarget(d: Disk, cursor: nat, to: int, whence: Whence): int {
    match whence
    case FileBegin => to
    case FileCurrent => cursor + to
    case FileEnd => |d.bytes| + to
  }

  /** How many bytes ReadFile transfers: what is asked, up to the end. */
  function Transferred(d: Disk, pos: nat, size: int): (n: nat)
    ensures n <= (if size < 0 then 0 else size)
    ensures pos + n <= |d.bytes| || n == 0
    ensures size >= 0 && pos + size <= |d.bytes| ==> n == size
  {
    if size < 0 || pos >= |d.bytes| then 0
    else if pos + size <= |d.bytes| then size
    else |d.bytes| - pos
  }

  /** `read(size)` on an open device at position `pos`: the size is checked
      first, then ReadFile runs; a non-zero result code and a short read
      are errors. */
  function ReadAt(d: Disk, pos: nat, size: int): (r: Result<seq<byte>, Error>)
    ensures r.Success? <==> size % SECTOR == 0 && size >= 0 && d.readCode == 0 && (size == 0 || pos + size <= |d.bytes|)
    ensures r.Success? ==> r.value == if size == 0 then [] else d.bytes[pos..pos + size]
    ensures size % SECTOR != 0 ==> r == Failure(SizeNotSectorMultiple)
    ensures r.Failure? && r.error.ShortRead? ==> r.error.missing == size - Transferred(d, pos, size) > 0
  {
    if size % SECTOR != 0 then Failure(SizeNotSectorMultiple)
    else if size < 0 then Failure(OsCallFailed)
    else if d.readCode != 0 then Failure(ReadFailed(d.readCode))
    else if Transferred(d, pos, size) < size then Failure(ShortRead(size - Transferred(d, pos, size)))
    else if size == 0 then Success([])
    else Success(d.bytes[pos..pos + size])
  }

  /** The header can be read from the start of the device. */
  predicate HeaderReadable(d: Disk) {
    d.readCode == 0 && |d.bytes| >= HEADER_SIZE
  }

  /** What `is_apa_partitioned` finds on an open device when nothing is
      cached. `seek(0, whence=FILE_CURRENT)` lands on the current position
      and `seek` demands that it equal 0, so the probe raises unless the
      position is at the start. */
  function ApaProbe(d: Disk, cursor: nat): (r: Result<bool, Error>)
    ensures r.Success? <==> cursor == 0 && HeaderReadable(d)
    ensures r.Success? ==> r.value == IsApaHeader(d.bytes[..HEADER_SIZE])
  {
    if cursor != 0 then Failure(SeekNotPrecise)
    else match ReadAt(d, 0, HEADER_SIZE)
      case Failure(e) => Failure(e)
      case Success(header) => Success(IsApaHeader(header))
  }

  /** `is_apa_partitioned` from the cached answer, the handle and the file
      position. */
  function ApaAnswer(cache: Option<bool>, handle: Option<Disk>, cursor: nat): Result<bool, Error> {
    if cache.Some? then Success(cache.value)
    else if handle.None? then Failure(OsCallFailed)
    else ApaProbe(handle.value, cursor)
  }

  /** What `apa_checksum` reads on an open device when nothing is cached:
      the first four bytes of the first sector. */
  function ChecksumProbe(d: Disk, cursor: nat): (r: Result<seq<byte>, Error>)
    ensures r.Success? <==> cursor == 0 && d.readCode == 0 && |d.bytes| >= SECTOR
    ensures r.Success? ==> r.value == d.bytes[..CHECKSUM_SIZE]
  {
    if cursor != 0 then Failure(SeekNotPrecise)
    else match ReadAt(d, 0, SECTOR)
      case Failure(e) => Failure(e)
      case Success(sector) => Success(sector[..CHECKSUM_SIZE])
  }

  /** `apa_checksum`: None on a drive that is not APA-partitioned, the
      cached checksum when there is one, and otherwise the probe. */
  function ChecksumAnswer(apa: Result<bool, Error>, cache: Option<seq<byte>>, handle: Option<Disk>, cursor: nat): Result<Option<seq<byte>>, Error> {
    if apa.Failure? then Failure(apa.error)
    else if !apa.value then Success(None)
    else if cache.Some? then Success(cache)
    else if handle.None? then Failure(OsCallFailed)
    else match ChecksumProbe(handle.value, cursor)
      case Failure(e) => Failure(e)
      case Success(c) => Success(Some(c))
  }

  /** The probe on a device at position 0 succeeds exactly when a whole
      header can be read, and then says whether that header is a sealed
      APA header: its stored checksum is the computed one and its payload
      starts with the magic. */
  lemma ApaProbeMeaning(d: Disk)
    ensures ApaProbe(d, 0).Success? <==> HeaderReadable(d)
    ensures ApaProbe(d, 0) == Success(true) <==>
      HeaderReadable(d) && d.bytes[..HEADER_SIZE] == Seal(d.bytes[4..HEADER_SIZE]) && d.bytes[4..8] == APA_MAGIC
  {
    if HeaderReadable(d) {
      var header := d.bytes[..HEADER_SIZE];
      assert header[4..] == d.bytes[4..HEADER_SIZE];
      assert header[4..8] == d.bytes[4..8];
      if IsApaHeader(header) {
        AcceptedIsSealed(header);
      }
      SealedAccepted(header[4..]);
    }
  }

  // ---------------------------------------------------------------------
  // The class

  class HDD {
    const target: string
    const hdlTarget: string
    const model: string

    /** The open device, None standing for INVALID_HANDLE_VALUE. */
    var handle: Option<Disk>
    /** The handle's file position. */
    var cursor: nat

    var geometryCache: Option<Geometry>
    var diskSizeCache: Option<nat>
    var diskMapCache: Option<DiskMap>
    var apaCache: Option<bool>
    var checksumCache: Option<seq<byte>>

    /** How many times the drive was asked for its geometry. */
    ghost var ioctlCalls: nat
    /** How many times ReadFile ran. */
    ghost var readCalls: nat
    /** Whether `open` ran again after construction: the handle may then
        be a device other than the one the caches describe. */
    ghost var reopened: bool

    ghost function Caches(): (Option<Geometry>, Option<nat>, Option<DiskMap>, Option<bool>, Option<seq<byte>>)
      reads this
    {
      (geometryCache, diskSizeCache, diskMapCache, apaCache, checksumCache)
    }

    /** The cached answers are the device's own. */
    ghost predicate Describes(d: Disk)
      reads this
    {
      && (geometryCache.Some? ==> geometryCache.value == d.geometry)
      && (apaCache.Some? ==> HeaderReadable(d) && apaCache.value == IsApaHeader(d.bytes[..HEADER_SIZE]))
      && (checksumCache.Some? ==> |d.bytes| >= CHECKSUM_SIZE && checksumCache.value == d.bytes[..CHECKSUM_SIZE])
    }

    /** The geometry is fetched at most once and the disk size follows it;
        a checksum is only kept for an APA-partitioned drive; and until the
        handle is re-opened, it is open and the caches describe it. */
    ghost predicate Valid()
      reads this
    {
      && hdlTarget == HdlTarget(target)
      && ioctlCalls == (if geometryCache.Some? then 1 else 0)
      && (diskSizeCache.Some? ==> geometryCache.Some? && diskSizeCache.value == DiskSizeOf(geometryCache.value))
      && (checksumCache.Some? ==> apaCache == Some(true) && |checksumCache.value| == CHECKSUM_SIZE)
      && (!reopened ==> handle.Some? && Describes(handle.value))
    }

    /** The field set-up of `__init__`, before it opens the target. */
    constructor(target: string, model: string)
      ensures this.target == target && this.model == model && hdlTarget == HdlTarget(target)
      ensures handle.None? && cursor == 0 && reopened
      ensures Caches() == (None, None, None, None, None)
      ensures Valid()
    {
      this.target := target;
      this.model := model;
      hdlTarget := HdlTarget(target);
      handle := None;
      cursor := 0;
      geometryCache, diskSizeCache, diskMapCache, apaCache, checksumCache := None, None, None, None, None;
      ioctlCalls := 0;
      readCalls := 0;
      reopened := true;
    }

    /** `HDD(target, model)`: the fields, then `open(target)`, whose
        RuntimeError the constructor lets through. */
    static method New(target: string, model: string, devices: map<string, Disk>) returns (r: Result<HDD, Error>)
      ensures r.Failure? <==> DevicePath(target) !in devices
      ensures r.Failure? ==> r.error == OpenFailed
      ensures r.Success? ==> var h := r.value;
        && fresh(h) && h.Valid() && !h.reopened
        && h.target == target && h.model == model && h.hdlTarget == HdlTarget(target)
        && h.handle == Some(devices[DevicePath(target)]) && h.cursor == 0
        && h.Caches() == (None, None, None, None, None)
    {
      var h := new HDD(target, model);
      var outcome := h.Open(target, devices);
      if outcome.Fail? {
        return Failure(outcome.error);
      }
      h.reopened := false;
      return Success(h);
    }

    /** `open(device)`: CreateFile on the device path; the handle becomes
        the device or invalid, and an invalid handle raises. The cached
        answers are kept. */
    method Open(device: string, devices: map<string, Disk>) returns (r: Outcome<Error>)
      requires Valid()
      modifies this
      ensures Valid() && reopened
      ensures handle == (if DevicePath(device) in devices then Some(devices[DevicePath(device)]) else None)
      ensures r == (if handle.Some? then Pass else Fail(OpenFailed))
      ensures handle.Some? ==> cursor == 0
      ensures handle.None? ==> cursor == old(cursor)
      ensures Caches() == old(Caches()) && ioctlCalls == old(ioctlCalls) && readCalls == old(readCalls)
    {
      var path := DevicePath(device);
      reopened := true;
      if path in devices {
        handle := Some(devices[path]);
        cursor := 0;
        return Pass;
      }
      handle := None;
      return Fail(OpenFailed);
    }

    /** `seek(to, whence)`: SetFilePointer moves the position (a negative
        target is refused and the position stays), and `seek` raises
        unless the new position is `to` itself. */
    method Seek(to: int, whence: Whence) returns (r: Result<nat, Error>)
      requires Valid()
      modifies this
      ensures Valid()
      ensures old(handle).None? ==> r == Failure(OsCallFailed) && cursor == old(cursor)
      ensures old(handle).Some? ==> var p := SeekTarget(old(handle).value, old(cursor), to, whence);
        && (p < 0 ==> r == Failure(OsCallFailed) && cursor == old(cursor))
        && (p >= 0 ==> cursor == p && r == (if p == to then Success(p) else Failure(SeekNotPrecise)))
      ensures handle == old(handle) && reopened == old(reopened)
      ensures Caches() == old(Caches()) && ioctlCalls == old(ioctlCalls) && readCalls == old(readCalls)
    {
      if handle.None? {
        return Failure(OsCallFailed);
      }
      var p := SeekTarget(handle.value, cursor, to, whence);
      if p < 0 {
        return Failure(OsCallFailed);
      }
      cursor := p;
      if p != to {
        return Failure(SeekNotPrecise);
      }
      return Success(p);
    }

    /** `read(size)`: a size that is not a whole number of sectors raises
        before any I/O; otherwise ReadFile transfers what it can and moves
        the position past it. */
    method Read(size: int) returns (r: Result<seq<byte>, Error>)
      requires Valid()
      modifies this
      ensures Valid()
      ensures size % SECTOR != 0 ==> r == Failure(SizeNotSectorMultiple) && cursor == old(cursor)
      ensures size % SECTOR == 0 && old(handle).None? ==> r == Failure(OsCallFailed) && cursor == old(cursor)
      ensures size % SECTOR == 0 && old(handle).Some? ==>
        && r == ReadAt(old(handle).value, old(cursor), size)
        && cursor == old(cursor) + Transferred(old(handle).value, old(cursor), size)
      ensures readCalls == old(readCalls) + (if size % SECTOR != 0 then 0 else 1)
      ensures handle == old(handle) && reopened == old(reopened)
      ensures Caches() == old(Caches()) && ioctlCalls == old(ioctlCalls)
    {
      if size % SECTOR != 0 {
        return Failure(SizeNotSectorMultiple);
      }
      readCalls := readCalls + 1;
      if handle.None? {
        return Failure(OsCallFailed);
      }
      var d := handle.value;
      var n := Transferred(d, cursor, size);
      var pos := cursor;
      cursor := cursor + n;
      r := ReadAt(d, pos, size);
    }

    /** `geometry`: the cached value, or an error on an invalid handle, or
        the drive's answer, which is then kept. */
    method GetGeometry() returns (r: Result<Geometry, Error>)
      requires Valid()
      modifies this
      ensures Valid()
      ensures r == (if old(geometryCache).Some? then Success(old(geometryCache).value)
                    else if old(handle).None? then Failure(HandleInvalid)
                    else Success(old(handle).value.geometry))
      ensures geometryCache == (if r.Success? then Some(r.value) else None)
      ensures ioctlCalls <= 1
      ensures (diskSizeCache, diskMapCache, apaCache, checksumCache) == (old(diskSizeCache), old(diskMapCache), old(apaCache), old(checksumCache))
      ensures handle == old(handle) && cursor == old(cursor) && reopened == old(reopened) && readCalls == old(readCalls)
    {
      if geometryCache.Some? {
        return Success(geometryCache.value);
      }
      if handle.None? {
        return Failure(HandleInvalid);
      }
      geometryCache := Some(handle.value.geometry);
      ioctlCalls := ioctlCalls + 1;
      return Success(geometryCache.value);
    }

    /** `disk_size`: the cached value, or the size computed from the
        geometry (fetching it if need be), which is then kept. */
    method DiskSize() returns (r: Result<nat, Error>)
      requires Valid()
      modifies this
      ensures Valid()
      ensures r == (if old(diskSizeCache).Some? then Success(old(diskSizeCache).value)
                    else if old(geometryCache).Some? then Success(DiskSizeOf(old(geometryCache).value))
                    else if old(handle).None? then Failure(HandleInvalid)
                    else Success(DiskSizeOf(old(handle).value.geometry)))
      ensures r.Success? ==> geometryCache.Some? && r.value == DiskSizeOf(geometryCache.value)
      ensures diskSizeCache == (if r.Success? then Some(r.value) else old(diskSizeCache))
      ensures geometryCache == (if old(geometryCache).Some? then old(geometryCache)
                                else if old(handle).Some? then Some(old(handle).value.geometry)
                                else None)
      ensures ioctlCalls <= 1
      ensures (diskMapCache, apaCache, checksumCache) == (old(diskMapCache), old(apaCache), old(checksumCache))
      ensures handle == old(handle) && cursor == old(cursor) && reopened == old(reopened) && readCalls == old(readCalls)
    {
      if diskSizeCache.Some? {
        return Success(diskSizeCache.value);
      }
      var g := GetGeometry();
      if g.Failure? {
        return Failure(g.error);
      }
      diskSizeCache := Some(DiskSizeOf(g.value));
      return Success(diskSizeCache.value);
    }

    /** `disk_map`: the cached value, or the parse of what
        `hdl-dump map <hdl target>` prints (`hdlDump` runs hdl-dump on its
        arguments and gives back the lines it printed), which is then
        kept. */
    method GetDiskMap(hdlDump: seq<string> -> seq<string>) returns (r: Result<DiskMap, Error>)
      requires Valid()
      modifies this
      ensures Valid()
      ensures r == (if old(diskMapCache).Some? then Success(old(diskMapCache).value)
                    else ParseDiskMap(hdlDump(["map", hdlTarget])))
      ensures diskMapCache == (if r.Success? then Some(r.value) else None)
      ensures (geometryCache, diskSizeCache, apaCache, checksumCache) == (old(geometryCache), old(diskSizeCache), old(apaCache), old(checksumCache))
      ensures handle == old(handle) && cursor == old(cursor) && reopened == old(reopened)
      ensures ioctlCalls == old(ioctlCalls) && readCalls == old(readCalls)
    {
      if diskMapCache.Some? {
        return Success(diskMapCache.value);
      }
      r := ParseDiskMap(hdlDump(["map", hdlTarget]));
      if r.Success? {
        diskMapCache := Some(r.value);
      }
    }

    /** `get_games_list`: the games of what `hdl-dump hdl_toc <hdl target>`
        prints, parsed anew on every call. */
    method GetGamesList(hdlDump: seq<string> -> seq<string>) returns (r: Result<seq<Game>, Error>)
      ensures r == GamesList(hdlDump(["hdl_toc", hdlTarget]))
    {
      r := GamesList(hdlDump(["hdl_toc", hdlTarget]));
    }

    /** `is_apa_partitioned`: the cached answer, or the header check on the
        first 1024 bytes, which is then kept. The position is where it was
        afterwards, whatever happens once it has been read. */
    method IsApaPartitioned() returns (r: Result<bool, Error>)
      requires Valid()
      modifies this
      ensures Valid()
      ensures r == ApaAnswer(old(apaCache), old(handle), old(cursor))
      ensures apaCache == (if r.Success? then Some(r.value) else None)
      ensures cursor == old(cursor) && handle == old(handle) && reopened == old(reopened)
      ensures (geometryCache, diskSizeCache, diskMapCache, checksumCache) == (old(geometryCache), old(diskSizeCache), old(diskMapCache), old(checksumCache))
      ensures ioctlCalls == old(ioctlCalls)
      ensures readCalls == old(readCalls) + (if old(apaCache).None? && old(handle).Some? && old(cursor) == 0 then 1 else 0)
    {
      if apaCache.Some? {
        return Success(apaCache.value);
      }
      var here := Seek(0, FileCurrent);
      if here.Failure? {
        return Failure(here.error);
      }
      var oldPos := here.value;
      var start := Seek(0, FileBegin);
      assert start == Success(0);
      var header := Read(HEADER_SIZE);
      var back := Seek(oldPos, FileBegin);
      assert back.Success?;
      if header.Failure? {
        return Failure(header.error);
      }
      apaCache := Some(IsApaHeader(header.value));
      return Success(apaCache.value);
    }

    /** `apa_checksum`: None unless the drive is APA-partitioned; otherwise
        the cached checksum, or the first four bytes of the first sector,
        which are then kept. The position is where it was afterwards. */
    method ApaChecksum() returns (r: Result<Option<seq<byte>>, Error>)
      requires Valid()
      modifies this
      ensures Valid()
      ensures r == ChecksumAnswer(ApaAnswer(old(apaCache), old(handle), old(cursor)), old(checksumCache), old(handle), old(cursor))
      ensures apaCache == (var a := ApaAnswer(old(apaCache), old(handle), old(cursor)); if a.Success? then Some(a.value) else None)
      ensures checksumCache == (if r.Success? && r.value.Some? then r.value else old(checksumCache))
      ensures cursor == old(cursor) && handle == old(handle) && reopened == old(reopened)
      ensures (geometryCache, diskSizeCache, diskMapCache) == (old(geometryCache), old(diskSizeCache), old(diskMapCache))
      ensures ioctlCalls == old(ioctlCalls)
      ensures readCalls == old(readCalls)
        + (if old(apaCache).None? && old(handle).Some? && old(cursor) == 0 then 1 else 0)
        + (if ApaAnswer(old(apaCache), old(handle), old(cursor)) == Success(true) && old(checksumCache).None?
              && old(handle).Some? && old(cursor) == 0 then 1 else 0)
    {
      var apa := IsApaPartitioned();
      if apa.Failure? {
        return Failure(apa.error);
      }
      if !apa.value {
        return Success(None);
      }
      if checksumCache.Some? {
        return Success(checksumCache);
      }
      var c := ReadChecksum();
      if c.Failure? {
        return Failure(c.error);
      }
      checksumCache := Some(c.value);
      return Success(checksumCache);
    }

    /** The uncached part of `apa_checksum`: note the position, read the
        first sector from the start, go back, and give its first four
        bytes. */
    method ReadChecksum() returns (r: Result<seq<byte>, Error>)
      requires Valid()
      modifies this
      ensures Valid()
      ensures r == (if old(handle).None? then Failure(OsCallFailed) else ChecksumProbe(old(handle).value, old(cursor)))
      ensures cursor == old(cursor) && handle == old(handle) && reopened == old(reopened)
      ensures Caches() == old(Caches()) && ioctlCalls == old(ioctlCalls)
      ensures readCalls == old(readCalls) + (if old(handle).Some? && old(cursor) == 0 then 1 else 0)
    {
      var here := Seek(0, FileCurrent);
      if here.Failure? {
        return Failure(here.error);
      }
      var oldPos := here.value;
      var start := Seek(0, FileBegin);
      assert start == Success(0);
      var sector := Read(SECTOR);
      var back := Seek(oldPos, FileBegin);
      assert back.Success?;
      if sector.Failure? {
        return Failure(sector.error);
      }
      return Success(sector.value[..CHECKSUM_SIZE]);
    }
  }

  /** Until the handle is re-opened, a kept checksum is the checksum the
      header check recomputes from the drive's header, and the header
      carries the APA magic. */
  lemma KeptChecksumIsComputed(h: HDD)
    requires h.Valid() && !h.reopened && h.checksumCache.Some?
    ensures var bytes := h.handle.value.bytes;
      |bytes| >= HEADER_SIZE
      && h.checksumCache.value == ComputedChecksum(bytes[..HEADER_SIZE])
      && bytes[4..8] == APA_MAGIC
  {
    var bytes := h.handle.value.bytes;
    var header := bytes[..HEADER_SIZE];
    assert header[..4] == bytes[..CHECKSUM_SIZE];
    assert header[4..8] == bytes[4..8];
  }
}
