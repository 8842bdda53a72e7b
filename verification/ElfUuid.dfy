/** UUIDs and the byte order of their fields, as section 4.1.2 of RFC 4122 lays them out. */
module Uuid {
  import opened Base

  /** The sixteen octets of a UUID, most significant field octets first. */
  type Uuid = b: Bytes | |b| == 16 witness [0, 0, 0, 0, 0, 0, 0, 0, 0, 0, 0, 0, 0, 0, 0, 0]

  /** `TEE_UUID`. */
  datatype TeeUuid = TeeUuid(timeLow: u32, timeMid: int, timeHiAndVersion: int, clockSeqAndNode: Bytes) {
    ghost predicate Valid() {
      0 <= timeMid < 0x1_0000 && 0 <= timeHiAndVersion < 0x1_0000 && |clockSeqAndNode| == 8
    }
  }

  function Join(high: nat, low: u8): nat { high * 256 + low }

  /** `uuid_to_tee_uuid_value_codes`: the fields read big-endian. */
  function AsFields(u: Uuid): TeeUuid {
    TeeUuid(Join(Join(Join(u[0], u[1]), u[2]), u[3]), Join(u[4], u[5]), Join(u[6], u[7]), u[8..])
  }

  function LittleEndian(n: nat, width: nat): (b: Bytes)
    ensures |b| == width
  {
    if width == 0 then [] else [n % 256] + LittleEndian(n / 256, width - 1)
  }

  /** The struct as the little-endian target stores it. */
  function Layout(t: TeeUuid): Bytes
    requires t.Valid()
  {
    LittleEndian(t.timeLow, 4) + LittleEndian(t.timeMid, 2) + LittleEndian(t.timeHiAndVersion, 2) + t.clockSeqAndNode
  }

  /** `Uuid::from_bytes_le`, after the length check of `tee_uuid`. */
  function FromBytesLe(b: Bytes): Option<Uuid> {
    if |b| != 16 then None
    else Some([b[3], b[2], b[1], b[0], b[5], b[4], b[7], b[6]] + b[8..])
  }

  lemma LittleEndianStep(high: nat, low: u8, width: nat)
    ensures LittleEndian(Join(high, low), width + 1) == [low] + LittleEndian(high, width)
  {
  }

  lemma LittleEndian2(a: u8, b: u8)
    ensures LittleEndian(Join(a, b), 2) == [b, a]
  {
  }

  lemma LittleEndian4(a: u8, b: u8, c: u8, d: u8)
    ensures LittleEndian(Join(Join(Join(a, b), c), d), 4) == [d, c, b, a]
  {
    LittleEndian2(a, b);
    LittleEndianStep(Join(a, b), c, 2);
    LittleEndianStep(Join(Join(a, b), c), d, 3);
  }

  /** Every UUID, split into fields, stored little-endian and read back, is itself. */
  lemma LayoutRoundTrip(u: Uuid)
    ensures AsFields(u).Valid()
    ensures |Layout(AsFields(u))| == 16 && FromBytesLe(Layout(AsFields(u))) == Some(u)
  {
    LittleEndian4(u[0], u[1], u[2], u[3]);
    LittleEndian2(u[4], u[5]);
    LittleEndian2(u[6], u[7]);
    assert Layout(AsFields(u)) == [u[3], u[2], u[1], u[0], u[5], u[4], u[7], u[6]] + u[8..];
    assert u == [u[0], u[1], u[2], u[3], u[4], u[5], u[6], u[7]] + u[8..];
  }

  /** The fields are the UUID's octets most significant first, and a little-endian target stores them reversed. */
  lemma FieldsAndOctets(u: Uuid)
    ensures var o: seq<int> := u;
            && AsFields(u).timeLow == o[0] * 0x100_0000 + o[1] * 0x1_0000 + o[2] * 0x100 + o[3]
            && AsFields(u).timeMid == o[4] * 0x100 + o[5] && AsFields(u).timeHiAndVersion == o[6] * 0x100 + o[7]
    ensures AsFields(u).clockSeqAndNode == u[8..] && AsFields(u).Valid()
    ensures Layout(AsFields(u)) == [u[3], u[2], u[1], u[0], u[5], u[4], u[7], u[6]] + u[8..]
  {
    LittleEndian4(u[0], u[1], u[2], u[3]);
    LittleEndian2(u[4], u[5]);
    LittleEndian2(u[6], u[7]);
  }
}

/** Reading the UUID of a TA or plugin out of its ELF image, after parsing. */
module ElfUuid {
  import opened Base
  import opened Uuid

  const TEE_UUID_SIZE := 16
  const U64_MAX := 0xFFFF_FFFF_FFFF_FFFF

  datatype Segment = Segment(isLoad: bool, vaddr: u64, offset: u64, filesz: u64, memsz: u64)

  datatype Binding = Local | Global | Weak
  datatype SymbolType = NoType | ObjectType | OtherType
  datatype Symbol = Symbol(name: string, defined: bool, binding: Binding, kind: SymbolType, value: u64, size: u64)

  datatype Elf = Elf(is64: bool, segments: seq<Segment>, dynsyms: seq<Symbol>)

  // ---------------------------------------------------------------- the loader

  /** The segment gives this address a byte. */
  predicate Loads(s: Segment, address: int) {
    s.isLoad && s.vaddr <= address < s.vaddr + s.memsz
  }

  /** ... and takes it from the file, rather than zero-filling it. */
  predicate FileBacks(s: Segment, address: int) {
    Loads(s, address) && address < s.vaddr + s.filesz
  }

  ghost predicate Disjoint(segments: seq<Segment>) {
    forall i, j, a :: 0 <= i < |segments| && 0 <= j < |segments| ==>
                        Loads(segments[i], a) && Loads(segments[j], a) ==> i == j
  }

  /** The loader image has byte `b`, read from the file, at this address. */
  ghost predicate ImageHas(segments: seq<Segment>, data: Bytes, address: int, b: u8) {
    exists i :: 0 <= i < |segments| && FileBacks(segments[i], address)
                && 0 <= segments[i].offset + (address - segments[i].vaddr) < |data|
                && data[segments[i].offset + (address - segments[i].vaddr)] == b
  }

  // --------------------------------------------------------------- bytes_at_va

  /** The range lies in the memory of this segment. */
  predicate Holds(s: Segment, va: nat, size: nat) {
    s.isLoad && s.vaddr <= va && va + size <= s.vaddr + s.memsz
  }

  predicate MemoryOverflows(s: Segment) { s.isLoad && s.vaddr + s.memsz > U64_MAX }

  /** The segment the search stops at, unless it overflows first. */
  ghost predicate StopsAt(segments: seq<Segment>, va: nat, size: nat, i: int) {
    && 0 <= i < |segments| && Holds(segments[i], va, size)
    && (forall j :: 0 <= j <= i ==> !MemoryOverflows(segments[j]))
    && (forall j :: 0 <= j < i ==> !Holds(segments[j], va, size))
  }

  /** What the matching segment must provide: the range in its file part, at an offset within the file. */
  predicate Readable(s: Segment, data: Bytes, va: nat, size: nat) {
    && s.vaddr + s.filesz <= U64_MAX && va + size <= s.vaddr + s.filesz
    && s.offset + (va - s.vaddr) <= U64_MAX && s.offset + (va - s.vaddr) + size <= |data|
  }

  /**
  Succeeds exactly if the range does not overflow, the first segment holding it comes
  before any that overflows, and that segment backs the range from within the file; the
  result is then that part of the file. `usizeMax` is the host's largest file offset.
  */
  method BytesAtVa(segments: seq<Segment>, data: Bytes, va: u64, size: nat, usizeMax: nat) returns (r: Option<Bytes>)
    requires |data| <= usizeMax
    ensures r == Found(segments, data, va, size)
  {
    if size > U64_MAX || va + size > U64_MAX { return None; }
    var end := va + size;
    var i := 0;
    while i < |segments|
      invariant 0 <= i <= |segments|
      invariant forall j :: 0 <= j < i ==> !MemoryOverflows(segments[j]) && !Holds(segments[j], va, size)
    {
      var ph := segments[i];
      if ph.isLoad {
        if ph.vaddr + ph.memsz > U64_MAX {
          assert MemoryOverflows(segments[i]);
          return None;
        }
        if !(va < ph.vaddr || end > ph.vaddr + ph.memsz) {
          assert StopsAt(segments, va, size, i);
          StopsOnce(segments, va, size, i);
          if ph.vaddr + ph.filesz > U64_MAX { return None; }
          if end > ph.vaddr + ph.filesz { return None; }
          var off := ph.offset + (va - ph.vaddr);
          if off > U64_MAX || off > usizeMax || off + size > usizeMax || off + size > |data| { return None; }
          return Some(data[off..off + size]);
        }
      }
      i := i + 1;
    }
    r := None;
  }

  lemma StopsOnce(segments: seq<Segment>, va: nat, size: nat, i: int)
    requires StopsAt(segments, va, size, i)
    ensures forall j :: StopsAt(segments, va, size, j) ==> j == i
  {
  }

  /** The search's result, by its defining property. */
  ghost function Found(segments: seq<Segment>, data: Bytes, va: u64, size: nat): Option<Bytes> {
    if va + size <= U64_MAX && exists i :: StopsAt(segments, va, size, i) && Readable(segments[i], data, va, size) then
      var i :| StopsAt(segments, va, size, i) && Readable(segments[i], data, va, size);
      var off := segments[i].offset + (va - segments[i].vaddr);
      Some(data[off..off + size])
    else None
  }

  /**
  A successful read is the loader's image, byte for byte: each address is file-backed in
  one and the same segment, never in zero-filled memory, and no other loaded segment
  could have supplied a different byte.
  */
  lemma FoundIsImage(segments: seq<Segment>, data: Bytes, va: u64, size: nat)
    requires Found(segments, data, va, size).Some? && Disjoint(segments)
    ensures var r := Found(segments, data, va, size).value;
            && |r| == size
            && (exists i :: 0 <= i < |segments| && BacksAll(segments[i], va, size))
            && forall a, b :: va <= a < va + size ==> (ImageHas(segments, data, a, b) <==> b == r[a - va])
  {
  }

  ghost predicate BacksAll(s: Segment, va: nat, size: nat) {
    forall a :: va <= a < va + size ==> FileBacks(s, a)
  }

  /** No loaded segment up to the `i`-th ends beyond the address space. */
  ghost predicate NoOverflowUpTo(segments: seq<Segment>, i: int) {
    forall j :: 0 <= j <= i && j < |segments| && segments[j].isLoad ==> segments[j].vaddr + segments[j].memsz <= U64_MAX
  }

  /**
  A range whose every address the `i`-th of disjoint segments takes from the file, at an
  offset that lies in the file, is found there unless a segment up to that one overflows.
  */
  lemma BackedIsFound(segments: seq<Segment>, data: Bytes, va: u64, size: nat, i: nat)
    requires Disjoint(segments) && size > 0 && va + size <= U64_MAX && |data| <= U64_MAX
    requires i < |segments| && BacksAll(segments[i], va, size) && segments[i].vaddr + segments[i].filesz <= U64_MAX
    requires segments[i].offset + (va - segments[i].vaddr) + size <= |data| && NoOverflowUpTo(segments, i)
    ensures var off := segments[i].offset + (va - segments[i].vaddr);
            0 <= off && off + size <= |data| && Found(segments, data, va, size) == Some(data[off..off + size])
  {
    assert FileBacks(segments[i], va) && FileBacks(segments[i], va + size - 1) && Loads(segments[i], va);
    assert forall j :: 0 <= j < i && Holds(segments[j], va, size) ==> Loads(segments[j], va);
    assert StopsAt(segments, va, size, i);
    StopsOnce(segments, va, size, i);
  }

  /** All of the range lies between the segment's ends. */
  ghost predicate Spans(s: Segment, va: nat, size: nat) {
    s.isLoad && s.vaddr <= va && va + size <= s.vaddr + s.memsz
  }

  ghost predicate NoneSpansBefore(segments: seq<Segment>, va: nat, size: nat, i: nat) {
    forall j :: 0 <= j < i && j < |segments| ==> !Spans(segments[j], va, size)
  }

  /** A range is refused that leaves the address space or that no loaded segment spans ... */
  lemma OutsideIsRefused(segments: seq<Segment>, data: Bytes, va: u64, size: nat)
    requires va + size > U64_MAX || NoneSpansBefore(segments, va, size, |segments|)
    ensures Found(segments, data, va, size) == None
  {
    assert forall j :: 0 <= j < |segments| ==> (Spans(segments[j], va, size) <==> Holds(segments[j], va, size));
  }

  /** ... and one behind a segment that overflows, or whose segment does not take its end from the file. */
  lemma UnbackedIsRefused(segments: seq<Segment>, data: Bytes, va: u64, size: nat, i: nat)
    requires i < |segments| && segments[i].isLoad && NoneSpansBefore(segments, va, size, i)
    requires segments[i].vaddr + segments[i].memsz > U64_MAX
          || (Spans(segments[i], va, size) && va + size > segments[i].vaddr + segments[i].filesz)
    ensures Found(segments, data, va, size) == None
  {
    assert forall j :: 0 <= j < |segments| ==> (Spans(segments[j], va, size) <==> Holds(segments[j], va, size));
    assert segments[i].vaddr + segments[i].memsz > U64_MAX <==> MemoryOverflows(segments[i]);
  }

  // -------------------------------------------------------------------- symbols

  predicate Exports(s: Symbol, name: string) {
    s.name == name && s.defined && (s.binding == Global || s.binding == Weak)
  }

  /** A symbol of that name which is defined and not local. */
  predicate Visible(s: Symbol, name: string) { s.name == name && s.defined && s.binding != Local }

  /** The first dynamically exported symbol of that name. */
  function ExportedSymbol(syms: seq<Symbol>, name: string): (r: Option<Symbol>)
    ensures match r
            case Some(s) => exists i :: IsFirst(syms, name, i) && syms[i] == s
            case None => forall i :: 0 <= i < |syms| ==> !Visible(syms[i], name)
  {
    if syms == [] then None
    else if Exports(syms[0], name) then
      assert IsFirst(syms, name, 0);
      Some(syms[0])
    else
      var r := ExportedSymbol(syms[1..], name);
      LaterIsFirst(syms, name);
      r
  }

  ghost predicate IsFirst(syms: seq<Symbol>, name: string, i: int) {
    0 <= i < |syms| && Visible(syms[i], name) && forall j :: 0 <= j < i ==> !Visible(syms[j], name)
  }

  lemma LaterIsFirst(syms: seq<Symbol>, name: string)
    requires syms != [] && !Visible(syms[0], name)
    ensures forall i :: IsFirst(syms[1..], name, i) ==> IsFirst(syms, name, i + 1) && syms[i + 1] == syms[1..][i]
    ensures (forall i :: 0 <= i < |syms[1..]| ==> !Visible(syms[1..][i], name)) ==>
              forall i :: 0 <= i < |syms| ==> !Visible(syms[i], name)
  {
    assert forall i :: 1 <= i < |syms| ==> syms[i] == syms[1..][i - 1];
  }

  lemma FirstIsExported(syms: seq<Symbol>, name: string, i: int)
    requires IsFirst(syms, name, i)
    ensures ExportedSymbol(syms, name) == Some(syms[i])
  {
  }

  /** `ensure_object`: data, and large enough; size zero means unknown. */
  predicate IsObject(s: Symbol, minSize: nat) {
    (s.kind == ObjectType || s.kind == NoType) && (s.size == 0 || s.size >= minSize)
  }

  function PointerWidth(elf: Elf): nat { if elf.is64 then 8 else 4 }

  /** The UUID `skip` octets into the named object. */
  ghost function ReadUuid(elf: Elf, data: Bytes, name: string, skip: nat): Option<Uuid> {
    match ExportedSymbol(elf.dynsyms, name)
    case None => None
    case Some(s) =>
      if !IsObject(s, skip + TEE_UUID_SIZE) || s.value + skip > U64_MAX then None else
      match Found(elf.segments, data, s.value + skip, TEE_UUID_SIZE)
      case None => None
      case Some(b) => FromBytesLe(b)
  }

  method ReadUuidOf(elf: Elf, data: Bytes, name: string, skip: nat, usizeMax: nat) returns (r: Option<Uuid>)
    requires |data| <= usizeMax
    ensures r == ReadUuid(elf, data, name, skip)
  {
    var symbol := ExportedSymbol(elf.dynsyms, name);
    match symbol {
      case None => r := None;
      case Some(s) =>
        if !IsObject(s, skip + TEE_UUID_SIZE) || s.value + skip > U64_MAX { return None; }
        var bytes := BytesAtVa(elf.segments, data, s.value + skip, TEE_UUID_SIZE, usizeMax);
        match bytes {
          case None => r := None;
          case Some(b) => r := FromBytesLe(b);
        }
    }
  }

  method ReadTaUuidFromBytes(elf: Elf, data: Bytes, usizeMax: nat) returns (r: Option<Uuid>)
    requires |data| <= usizeMax
    ensures r == ReadTaUuid(elf, data)
  {
    r := ReadUuidOf(elf, data, "ta_head", 0, usizeMax);
  }

  method ReadPluginUuidFromBytes(elf: Elf, data: Bytes, usizeMax: nat) returns (r: Option<Uuid>)
    requires |data| <= usizeMax
    ensures r == ReadPluginUuid(elf, data)
  {
    r := ReadUuidOf(elf, data, "plugin_method", PointerWidth(elf), usizeMax);
  }

  ghost function ReadTaUuid(elf: Elf, data: Bytes): Option<Uuid> {
    ReadUuid(elf, data, "ta_head", 0)
  }

  ghost function ReadPluginUuid(elf: Elf, data: Bytes): Option<Uuid> {
    ReadUuid(elf, data, "plugin_method", PointerWidth(elf))
  }

  // ----------------------------------------------------------- round trip to ELF

  /** `struct ta_head`: the UUID, the stack size, the flags, the deprecated entry. */
  ghost function TaHead(u: Uuid, stackSize: u32, flags: u32): Bytes {
    LayoutOf(u) + LittleEndian(stackSize, 4) + LittleEndian(flags, 4) + LittleEndian(U64_MAX, 8)
  }

  /**
  `struct plugin_method`: the name pointer, the UUID, the two function pointers. A pointer
  has eight octets on a 64-bit target and four on a 32-bit one.
  */
  ghost predicate IsPluginMethod(is64: bool, u: Uuid, image: Bytes) {
    exists name: Bytes, functions: Bytes ::
      && image == name + LayoutOf(u) + functions
      && (if is64 then |name| == 8 && |functions| == 16 else |name| == 4 && |functions| == 8)
  }

  /** The object is data of at least this size, and the first symbol visible under this name. */
  ghost predicate Defines(elf: Elf, name: string, s: Symbol, least: nat) {
    && (exists k :: IsFirst(elf.dynsyms, name, k) && elf.dynsyms[k] == s)
    && (s.kind == ObjectType || s.kind == NoType) && (s.size == 0 || s.size >= least)
  }

  /** The `i`-th of disjoint segments loads these bytes from the file at this address. */
  ghost predicate Placed(elf: Elf, data: Bytes, image: Bytes, va: u64, i: nat) {
    && Disjoint(elf.segments) && i < |elf.segments| && |image| > 0 && va + |image| <= U64_MAX && |data| <= U64_MAX
    && BacksAll(elf.segments[i], va, |image|) && elf.segments[i].vaddr + elf.segments[i].filesz <= U64_MAX
    && NoOverflowUpTo(elf.segments, i)
    && (var off := elf.segments[i].offset + (va - elf.segments[i].vaddr);
        0 <= off && off + |image| <= |data| && data[off..off + |image|] == image)
  }

  lemma SliceOfSlice(data: Bytes, off: nat, image: Bytes, skip: nat, n: nat)
    requires off + |image| <= |data| && data[off..off + |image|] == image && skip + n <= |image|
    ensures data[off + skip..off + skip + n] == image[skip..skip + n]
  {
    var a, b := data[off + skip..off + skip + n], image[skip..skip + n];
    forall i | 0 <= i < n ensures a[i] == b[i] {
      assert data[off + skip + i] == data[off..off + |image|][skip + i];
    }
  }

  lemma PlacedIsFound(elf: Elf, data: Bytes, image: Bytes, va: u64, i: nat, skip: nat, n: nat)
    requires Placed(elf, data, image, va, i) && n > 0 && skip + n <= |image|
    ensures va + skip <= U64_MAX && Found(elf.segments, data, va + skip, n) == Some(image[skip..skip + n])
  {
    var seg := elf.segments[i];
    assert BacksAll(seg, va + skip, n);
    BackedIsFound(elf.segments, data, va + skip, n, i);
    SliceOfSlice(data, seg.offset + (va - seg.vaddr), image, skip, n);
  }

  lemma PlacedIsRead(elf: Elf, data: Bytes, name: string, image: Bytes, s: Symbol, i: nat, skip: nat, u: Uuid)
    requires Defines(elf, name, s, skip + 16) && Placed(elf, data, image, s.value, i)
    requires skip + 16 <= |image| && image[skip..skip + 16] == LayoutOf(u)
    ensures ReadUuid(elf, data, name, skip) == Some(u)
  {
    var k :| IsFirst(elf.dynsyms, name, k) && elf.dynsyms[k] == s;
    FirstIsExported(elf.dynsyms, name, k);
    LayoutRoundTrip(u);
    PlacedIsFound(elf, data, image, s.value, i, skip, 16);
  }

  ghost function LayoutOf(u: Uuid): (b: Bytes)
    ensures |b| == 16
  {
    LayoutRoundTrip(u);
    Layout(AsFields(u))
  }

  /** Every UUID put into a `ta_head` is the one read back. */
  lemma TaUuidRoundTrip(elf: Elf, data: Bytes, u: Uuid, stackSize: u32, flags: u32, s: Symbol, i: nat)
    requires Defines(elf, "ta_head", s, 16) && Placed(elf, data, TaHead(u, stackSize, flags), s.value, i)
    ensures ReadTaUuid(elf, data) == Some(u)
  {
    var head := TaHead(u, stackSize, flags);
    assert head[0..16] == LayoutOf(u);
    PlacedIsRead(elf, data, "ta_head", head, s, i, 0, u);
  }

  lemma MiddleOf(before: Bytes, middle: Bytes, after: Bytes)
    ensures (before + middle + after)[|before|..|before| + |middle|] == middle
  {
  }

  /** Every UUID in the `plugin_method` of a 64-bit plugin is the one read back ... */
  lemma PluginUuidRoundTrip64(elf: Elf, data: Bytes, u: Uuid, image: Bytes, s: Symbol, i: nat)
    requires elf.is64 && Defines(elf, "plugin_method", s, 24)
    requires IsPluginMethod(true, u, image) && Placed(elf, data, image, s.value, i)
    ensures ReadPluginUuid(elf, data) == Some(u)
  {
    var name, functions :| image == name + LayoutOf(u) + functions && |name| == 8 && |functions| == 16;
    MiddleOf(name, LayoutOf(u), functions);
    PlacedIsRead(elf, data, "plugin_method", image, s, i, 8, u);
  }

  /** ... and in that of a 32-bit one. */
  lemma PluginUuidRoundTrip32(elf: Elf, data: Bytes, u: Uuid, image: Bytes, s: Symbol, i: nat)
    requires !elf.is64 && Defines(elf, "plugin_method", s, 20)
    requires IsPluginMethod(false, u, image) && Placed(elf, data, image, s.value, i)
    ensures ReadPluginUuid(elf, data) == Some(u)
  {
    var name, functions :| image == name + LayoutOf(u) + functions && |name| == 4 && |functions| == 8;
    MiddleOf(name, LayoutOf(u), functions);
    PlacedIsRead(elf, data, "plugin_method", image, s, i, 4, u);
  }

  /** An object this reader must not take a UUID from: code or the like, or known to be too short for one. */
  ghost predicate Unfit(s: Symbol, least: nat) {
    (s.kind != ObjectType && s.kind != NoType) || 0 < s.size < least
  }

  /** Nothing is read without a visible symbol, or from an object unfit for it. */
  lemma UnfitIsRefused(elf: Elf, data: Bytes)
    ensures (forall i :: 0 <= i < |elf.dynsyms| ==> !Visible(elf.dynsyms[i], "ta_head")) ==>
              ReadTaUuid(elf, data) == None
    ensures forall i :: IsFirst(elf.dynsyms, "ta_head", i) && Unfit(elf.dynsyms[i], 16) ==>
                          ReadTaUuid(elf, data) == None
    ensures (forall i :: 0 <= i < |elf.dynsyms| ==> !Visible(elf.dynsyms[i], "plugin_method")) ==>
              ReadPluginUuid(elf, data) == None
    ensures var least := if elf.is64 then 24 else 20;
            forall i :: IsFirst(elf.dynsyms, "plugin_method", i) && Unfit(elf.dynsyms[i], least) ==>
                          ReadPluginUuid(elf, data) == None
  {
    forall i | IsFirst(elf.dynsyms, "ta_head", i) && Unfit(elf.dynsyms[i], 16) ensures ReadTaUuid(elf, data) == None {
      FirstIsExported(elf.dynsyms, "ta_head", i);
    }
    forall i | IsFirst(elf.dynsyms, "plugin_method", i) && Unfit(elf.dynsyms[i], if elf.is64 then 24 else 20)
      ensures ReadPluginUuid(elf, data) == None
    {
      FirstIsExported(elf.dynsyms, "plugin_method", i);
    }
  }
}
