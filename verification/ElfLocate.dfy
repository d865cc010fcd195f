/** The program-header policy of the reconstructed worker image, and the location of a governed
    object in it by two independent derivations of its file offset. */
module ElfLocate {
  import opened Bytes
  import opened Sorting
  import opened Wrappers

  const PT_LOAD: nat := 1
  const PT_DYNAMIC: nat := 2
  const PT_INTERP: nat := 3
  const PT_SHLIB: nat := 5
  const PT_TLS: nat := 7
  const PT_GNU_STACK: nat := 0x6474E551
  const PF_W: nat := 2
  const PF_R: nat := 4
  const SHT_NULL: nat := 0
  const SHT_NOBITS: nat := 8
  const SHF_ALLOC: nat := 2
  const SHN_UNDEF: nat := 0
  const SHN_LORESERVE: nat := 0xFF00
  const STB_GLOBAL: nat := 1
  const STT_OBJECT: nat := 1
  const STV_HIDDEN: nat := 2
  const PAGE: nat := 4096
  const MAX_PT_LOAD_EFFECTIVE_BYTES: nat := 16 * 1024 * 1024
  const MAX_AGGREGATE_EFFECTIVE_BYTES: nat := 32 * 1024 * 1024
  const ADDRESS_SPACE: nat := 0x1_0000_0000_0000_0000

  datatype Segment = Segment(kind: nat, flags: nat, offset: nat, vaddr: nat, filesz: nat, memsz: nat, align: nat)

  datatype Section = Section(kind: nat, flags: nat, addr: nat, offset: nat, size: nat)

  datatype Symbol = Symbol(name: string, info: Byte, other: Byte, shndx: nat, value: nat, size: nat)

  datatype Elf = Elf(segments: seq<Segment>, sections: seq<Section>, symbols: seq<Symbol>)

  datatype ElfError =
    | ForbiddenSegment | FileExceedsMemory | FileRangeEscapes | AddressOverflow | BadAlignment | NotCongruent
    | SegmentCeiling | AggregateCeiling | InventoryMismatch | NotAscending
    | SymbolMultiplicity | SymbolSize | SectionIndex | NoFileBytes | NotAllocated | SymbolEscapesSection
    | NotInOneLoad | Writable | Unreadable | BadIdentity
    | OffsetsDisagree | SectionDisagrees | EscapesSectionExtent | EscapesLoadExtent | ReadBeyondImage

  // ---------- the program-header policy ----------

  function PageFloor(x: nat): nat {
    x / PAGE * PAGE
  }

  /** The bytes a segment occupies once mapped in whole pages. */
  function Effective(s: Segment): int {
    PageFloor(s.vaddr + s.memsz + PAGE - 1) - PageFloor(s.vaddr)
  }

  function AggregateEffective(segments: seq<Segment>): int {
    if segments == [] then 0
    else
      var last := segments[|segments| - 1];
      AggregateEffective(segments[..|segments| - 1]) + if last.kind == PT_LOAD then Effective(last) else 0
  }

  /** No bit but one is set. */
  predicate PowerOfTwo(n: nat) {
    n == 1 || (n > 0 && n % 2 == 0 && PowerOfTwo(n / 2))
  }

  datatype Entry = Entry(kind: nat, flags: nat, align: nat)

  const EXPECTED_INVENTORY: seq<Entry> :=
    [Entry(PT_LOAD, 5, 0x1000), Entry(PT_LOAD, 6, 0x1000), Entry(PT_GNU_STACK, 6, 0x10)]

  function EntryOf(s: Segment): Entry {
    Entry(s.kind, s.flags, s.align)
  }

  function Inventory(segments: seq<Segment>): (entries: seq<Entry>) {
    seq(|segments|, i requires 0 <= i < |segments| => EntryOf(segments[i]))
  }

  predicate Ascending(segments: seq<Segment>) {
    forall i, j | 0 <= i < j < |segments| && segments[i].kind == segments[j].kind == PT_LOAD ::
      segments[i].vaddr <= segments[j].vaddr
  }

  predicate SegmentAccepted(s: Segment, length: nat) {
    && s.kind !in {2, 3, 5, 7}
    && s.filesz <= s.memsz
    && s.offset + s.filesz <= length
    && s.vaddr + s.memsz < 0x1_0000_0000_0000_0000
    && (s.kind == 1 ==>
          && s.align >= 4096 && PowerOfTwo(s.align)
          && (s.vaddr - s.offset) % s.align == 0
          && Effective(s) <= 0x100_0000)
  }

  predicate Accepted(segments: seq<Segment>, length: nat) {
    && (forall i | 0 <= i < |segments| :: SegmentAccepted(segments[i], length))
    && AggregateEffective(segments) <= 0x200_0000
    && multiset(Inventory(segments)) == multiset(EXPECTED_INVENTORY)
    && Ascending(segments)
  }

  lemma CountedTo(segments: seq<Segment>, i: nat)
    requires i < |segments|
    ensures AggregateEffective(segments[..i + 1])
              == AggregateEffective(segments[..i]) + if segments[i].kind == 1 then Effective(segments[i]) else 0
    ensures Inventory(segments[..i + 1]) == Inventory(segments[..i]) + [EntryOf(segments[i])]
  {
    assert segments[..i + 1][..i] == segments[..i];
  }

  lemma NothingCounted()
    ensures AggregateEffective([]) == 0 && Inventory([]) == []
  {
  }

  /** Judges every program header of an image of `length` bytes. */
  method CheckSegments(segments: seq<Segment>, length: nat) returns (r: Result<int, ElfError>)
    ensures r.Success? <==> Accepted(segments, length)
    ensures r.Success? ==> r.value == AggregateEffective(segments)
  {
    hide PowerOfTwo, Effective, AggregateEffective, Inventory, EntryOf, Ascending;
    NothingCounted();
    var inventory: seq<Entry> := [];
    var aggregate := 0;
    for i := 0 to |segments|
      invariant forall j | 0 <= j < i :: SegmentAccepted(segments[j], length)
      invariant aggregate == AggregateEffective(segments[..i])
      invariant inventory == Inventory(segments[..i])
    {
      var s := segments[i];
      if s.kind == PT_INTERP || s.kind == PT_DYNAMIC || s.kind == PT_SHLIB || s.kind == PT_TLS {
        return Failure(ForbiddenSegment);
      }
      if s.filesz > s.memsz {
        return Failure(FileExceedsMemory);
      }
      if s.offset + s.filesz > length {
        return Failure(FileRangeEscapes);
      }
      if s.vaddr + s.memsz >= ADDRESS_SPACE {
        return Failure(AddressOverflow);
      }
      if s.kind == PT_LOAD {
        if s.align < PAGE || !PowerOfTwo(s.align) {
          return Failure(BadAlignment);
        }
        if (s.vaddr - s.offset) % s.align != 0 {
          return Failure(NotCongruent);
        }
        var effective := Effective(s);
        if effective > MAX_PT_LOAD_EFFECTIVE_BYTES {
          return Failure(SegmentCeiling);
        }
        aggregate := aggregate + effective;
      }
      inventory := inventory + [EntryOf(s)];
      CountedTo(segments, i);
    }
    assert segments[..|segments|] == segments;
    if aggregate > MAX_AGGREGATE_EFFECTIVE_BYTES {
      return Failure(AggregateCeiling);
    }
    if multiset(inventory) != multiset(EXPECTED_INVENTORY) {
      return Failure(InventoryMismatch);
    }
    if !Ascending(segments) {
      return Failure(NotAscending);
    }
    return Success(aggregate);
  }

  // ---------- locating one object ----------

  /** `k` is the one index whose element is kept. */
  ghost predicate OnlyOne<T(!new)>(s: seq<T>, keep: T -> bool, k: nat) {
    k < |s| && keep(s[k]) && forall j | 0 <= j < |s| && keep(s[j]) :: j == k
  }

  predicate FlagSet(flags: nat, bit: nat)
    requires bit > 0
  {
    flags / bit % 2 == 1
  }

  predicate Governed(symbol: Symbol) {
    symbol.info / 16 == STB_GLOBAL && symbol.info % 16 == STT_OBJECT && symbol.other % 4 == STV_HIDDEN
  }

  /** The segment holds file bytes for the whole section. */
  predicate Holds(s: Segment, section: Section) {
    s.kind == PT_LOAD && s.vaddr <= section.addr && section.addr + section.size <= s.vaddr + s.filesz
  }

  datatype Located = Located(symbol: Symbol, section: Section, load: Segment, offset: nat, bytes: seq<Byte>)

  function Locate(elf: Elf, data: seq<Byte>, name: string, size: nat): (r: Result<Located, ElfError>)
  {
    var matches := Where(elf.symbols, (s: Symbol) => s.name == name);
    if |matches| != 1 then Failure(SymbolMultiplicity) else
    var symbol := matches[0];
    if symbol.size != size then Failure(SymbolSize) else
    if symbol.shndx == SHN_UNDEF || symbol.shndx >= SHN_LORESERVE || symbol.shndx >= |elf.sections| then
      Failure(SectionIndex) else
    var section := elf.sections[symbol.shndx];
    if section.kind == SHT_NULL || section.kind == SHT_NOBITS then Failure(NoFileBytes) else
    if !FlagSet(section.flags, SHF_ALLOC) then Failure(NotAllocated) else
    if symbol.value < section.addr || symbol.value + size > section.addr + section.size then
      Failure(SymbolEscapesSection) else
    var loads := Where(elf.segments, (s: Segment) => Holds(s, section));
    if |loads| != 1 then Failure(NotInOneLoad) else
    var load := loads[0];
    if FlagSet(load.flags, PF_W) then Failure(Writable) else
    if !FlagSet(load.flags, PF_R) then Failure(Unreadable) else
    if !Governed(symbol) then Failure(BadIdentity) else
    var sectionDerived := section.offset + (symbol.value - section.addr);
    var loadDerived := load.offset + (symbol.value - load.vaddr);
    if sectionDerived != loadDerived then Failure(OffsetsDisagree) else
    if section.offset - load.offset != section.addr - load.vaddr then Failure(SectionDisagrees) else
    if sectionDerived + size > section.offset + section.size then Failure(EscapesSectionExtent) else
    if sectionDerived + size > load.offset + load.filesz then Failure(EscapesLoadExtent) else
    if sectionDerived + size > |data| then Failure(ReadBeyondImage) else
    Success(Located(symbol, section, load, sectionDerived, data[sectionDerived..sectionDerived + size]))
  }

  lemma {:induction false} WhereOnlyOne<T(!new)>(s: seq<T>, keep: T -> bool)
    ensures |Where(s, keep)| == 1 ==> exists k: nat :: OnlyOne(s, keep, k) && Where(s, keep)[0] == s[k]
    ensures forall k: nat | OnlyOne(s, keep, k) :: Where(s, keep) == [s[k]]
    ensures Where(s, keep) == [] <==> forall j | 0 <= j < |s| :: !keep(s[j])
  {
    if s != [] {
      var n := |s| - 1;
      var t := s[..n];
      WhereOnlyOne(t, keep);
      assert forall j | 0 <= j < n :: t[j] == s[j];
      if keep(s[n]) {
        if Where(t, keep) == [] {
          assert OnlyOne(s, keep, n);
        }
      } else {
        if |Where(t, keep)| == 1 {
          var k: nat :| OnlyOne(t, keep, k) && Where(t, keep)[0] == t[k];
          assert OnlyOne(s, keep, k);
        }
      }
      forall k: nat | OnlyOne(s, keep, k)
        ensures Where(s, keep) == [s[k]]
      {
        if k < n {
          assert OnlyOne(t, keep, k);
          assert keep(s[n]) ==> n == k;
        } else {
          assert forall j | 0 <= j < n :: keep(s[j]) ==> j == k;
        }
      }
    }
  }

  // ---------- when an object is located ----------

  /** One symbol has the name; it is a hidden global object of the size, and lies in an allocated section
      with bytes in the file, which one loaded segment that may be read and not written holds. */
  ghost predicate Sits(elf: Elf, name: string, size: nat, k: nat, m: nat) {
    && OnlyOne(elf.symbols, (s: Symbol) => s.name == name, k)
    && var symbol := elf.symbols[k];
       && symbol.size == size && symbol.info == 0x11 && symbol.other % 4 == 2
       && 0 < symbol.shndx < 0xFF00 && symbol.shndx < |elf.sections|
       && var section := elf.sections[symbol.shndx];
          && section.kind !in {0, 8} && section.flags / 2 % 2 == 1
          && section.addr <= symbol.value && symbol.value + size <= section.addr + section.size
          && m < |elf.segments| && elf.segments[m].kind == 1
          && elf.segments[m].vaddr <= section.addr
          && section.addr + section.size <= elf.segments[m].vaddr + elf.segments[m].filesz
          && (forall j | 0 <= j < |elf.segments| && j != m ::
                elf.segments[j].kind != 1 || section.addr < elf.segments[j].vaddr
                || elf.segments[j].vaddr + elf.segments[j].filesz < section.addr + section.size)
          && elf.segments[m].flags / 2 % 2 == 0 && elf.segments[m].flags / 4 % 2 == 1
  }

  /** The distance between file offset and address, the same for everything one mapping carries. */
  function Displacement(offset: nat, addr: nat): int {
    addr - offset
  }

  /** In an image whose headers were accepted, an object that sits in one read-only segment is located
      exactly when its section and that segment have the same displacement. The second derivation
      check, both extent checks and the bounded read never decide. */
  lemma LocateSucceedsIff(elf: Elf, data: seq<Byte>, name: string, size: nat, k: nat, m: nat)
    requires Accepted(elf.segments, |data|) && Sits(elf, name, size, k, m)
    ensures var section, load := elf.sections[elf.symbols[k].shndx], elf.segments[m];
            var r := Locate(elf, data, name, size);
            if Displacement(section.offset, section.addr) == Displacement(load.offset, load.vaddr)
            then r.Success? && r.value.symbol == elf.symbols[k] && r.value.section == section && r.value.load == load
            else r == Failure(OffsetsDisagree)
  {
    hide Accepted, Where;
    var symbol := elf.symbols[k];
    var section, load := elf.sections[symbol.shndx], elf.segments[m];
    WhereOnlyOne(elf.symbols, (s: Symbol) => s.name == name);
    WhereOnlyOne(elf.segments, (s: Segment) => Holds(s, section));
    InBounds(elf.segments, |data|, m);
  }

  lemma InBounds(segments: seq<Segment>, length: nat, m: nat)
    requires Accepted(segments, length) && m < |segments|
    ensures segments[m].offset + segments[m].filesz <= length
  {
  }

  /** An object that is located sits in the image. */
  lemma LocatedSits(elf: Elf, data: seq<Byte>, name: string, size: nat) returns (k: nat, m: nat)
    requires Locate(elf, data, name, size).Success?
    ensures Sits(elf, name, size, k, m)
    ensures var r := Locate(elf, data, name, size).value;
            r.symbol == elf.symbols[k] && r.section == elf.sections[r.symbol.shndx] && r.load == elf.segments[m]
  {
    hide Where;
    var r := Locate(elf, data, name, size).value;
    WhereOnlyOne(elf.symbols, (s: Symbol) => s.name == name);
    WhereOnlyOne(elf.segments, (s: Segment) => Holds(s, r.section));
    k :| OnlyOne(elf.symbols, (s: Symbol) => s.name == name, k) && r.symbol == elf.symbols[k];
    m :| OnlyOne(elf.segments, (s: Segment) => Holds(s, r.section), m) && r.load == elf.segments[m];
  }

  /** Whatever the image, four of the checks never refuse one whose headers were accepted. */
  lemma LateChecksNeverDecide(elf: Elf, data: seq<Byte>, name: string, size: nat)
    requires Accepted(elf.segments, |data|)
    ensures var r := Locate(elf, data, name, size);
            r.Failure? ==> r.error !in {SectionDisagrees, EscapesSectionExtent, EscapesLoadExtent, ReadBeyondImage}
  {
    hide Where, Governed, FlagSet, Accepted;
    var r := Locate(elf, data, name, size);
    if r.Failure? && r.error in {SectionDisagrees, EscapesSectionExtent, EscapesLoadExtent, ReadBeyondImage} {
      var symbol := Where(elf.symbols, (s: Symbol) => s.name == name)[0];
      var keep := (s: Segment) => Holds(s, elf.sections[symbol.shndx]);
      WhereOnlyOne(elf.segments, keep);
      var m: nat :| OnlyOne(elf.segments, keep, m) && Where(elf.segments, keep)[0] == elf.segments[m];
      InBounds(elf.segments, |data|, m);
    }
  }

  // ---------- what a shifted offset does ----------

  function Shifted(elf: Elf, i: nat, sectionOffset: nat, m: nat, segmentOffset: nat): (r: Elf)
    requires i < |elf.sections| && m < |elf.segments|
  {
    Elf(elf.segments[m := elf.segments[m].(offset := segmentOffset)],
        elf.sections[i := elf.sections[i].(offset := sectionOffset)], elf.symbols)
  }

  /** Move the file offsets of the section and of its segment: the object is still located exactly
      when both moved by the same amount. A shift of either alone is always caught. */
  lemma ShiftCaughtIff(elf: Elf, data: seq<Byte>, name: string, size: nat, k: nat, m: nat, x: nat, y: nat)
    requires Locate(elf, data, name, size).Success? && Sits(elf, name, size, k, m)
    requires y + elf.segments[m].filesz <= |data|
    ensures var i := elf.symbols[k].shndx;
            Locate(Shifted(elf, i, x, m, y), data, name, size).Success?
            <==> x - elf.sections[i].offset == y - elf.segments[m].offset
  {
    hide Where, Governed, FlagSet;
    var i := elf.symbols[k].shndx;
    var section, load := elf.sections[i], elf.segments[m];
    var moved := Shifted(elf, i, x, m, y);
    var was, now := (s: Segment) => Holds(s, section), (s: Segment) => Holds(s, moved.sections[i]);
    WhereOnlyOne(elf.symbols, (s: Symbol) => s.name == name);
    WhereOnlyOne(elf.segments, was);
    WhereOnlyOne(moved.segments, now);
    assert OnlyOne(elf.segments, was, m);
    forall j | 0 <= j < |elf.segments|
      ensures now(moved.segments[j]) <==> was(elf.segments[j])
    {
    }
    assert OnlyOne(moved.segments, now, m);
    assert moved.segments[m] == load.(offset := y) && moved.sections[i] == section.(offset := x);
  }

  // ---------- what the loader maps ----------

  /** What one address of the running image holds. */
  datatype Cell = Unmapped | FileByte(offset: int) | Zero

  /** A loadable segment occupies whole pages. */
  predicate Covers(s: Segment, a: nat) {
    s.kind == PT_LOAD && PageFloor(s.vaddr) <= a < PageFloor(s.vaddr + s.memsz + PAGE - 1)
  }

  /** Pages of the file are mapped at pages of memory; what exceeds the file size reads as zero. */
  function CellOf(s: Segment, a: nat): Cell {
    if s.memsz > s.filesz && a >= s.vaddr + s.filesz then Zero
    else FileByte(PageFloor(s.offset) + (a - PageFloor(s.vaddr)))
  }

  /** Segments are mapped in table order, and a later mapping replaces the pages it covers. */
  function Mapped(segments: seq<Segment>, a: nat): Cell {
    if segments == [] then Unmapped
    else
      var last := segments[|segments| - 1];
      if Covers(last, a) then CellOf(last, a) else Mapped(segments[..|segments| - 1], a)
  }

  lemma {:induction false} PowersDivide(n: nat, p: nat)
    requires PowerOfTwo(n) && PowerOfTwo(p) && p <= n
    ensures n % p == 0
    decreases p
  {
    if p != 1 {
      PowersDivide(n / 2, p / 2);
      var q := (n / 2) / (p / 2);
      assert n / 2 == (p / 2) * q;
      assert n == p * q by {
        assert 2 * ((p / 2) * q) == (2 * (p / 2)) * q;
      }
      DivModUnique(n, p, q, 0);
    }
  }

  lemma PageIsPowerOfTwo()
    ensures PowerOfTwo(PAGE)
  {
    assert PowerOfTwo(2) && PowerOfTwo(4) && PowerOfTwo(8) && PowerOfTwo(16) && PowerOfTwo(32) && PowerOfTwo(64);
    assert PowerOfTwo(128) && PowerOfTwo(256) && PowerOfTwo(512) && PowerOfTwo(1024) && PowerOfTwo(2048);
  }

  lemma MultipleOfMultiple(x: int, d: nat, e: nat)
    requires d > 0 && e > 0 && x % d == 0 && d % e == 0
    ensures x % e == 0
  {
    var q, f := x / d, d / e;
    assert x == d * q && d == e * f;
    assert x == e * (f * q) by {
      assert (e * f) * q == e * (f * q);
    }
    DivModUnique(x, e, f * q, 0);
  }

  lemma SamePlaceInPage(x: nat, y: nat)
    requires (x - y) % PAGE == 0
    ensures x - PageFloor(x) == y - PageFloor(y)
  {
  }

  /** Alignment and congruence are what makes page mapping put every file byte of an accepted
      segment at the address its header gives. */
  lemma PagesKeepDisplacement(s: Segment, length: nat, a: nat)
    requires SegmentAccepted(s, length) && s.kind == PT_LOAD
    ensures PageFloor(s.offset) + (a - PageFloor(s.vaddr)) == s.offset + (a - s.vaddr)
  {
    hide PowerOfTwo, Effective, PageFloor;
    PageIsPowerOfTwo();
    PowersDivide(s.align, PAGE);
    MultipleOfMultiple(s.vaddr - s.offset, s.align, PAGE);
    SamePlaceInPage(s.vaddr, s.offset);
  }

  lemma FileByteMapped(s: Segment, length: nat, a: nat)
    requires SegmentAccepted(s, length) && s.kind == PT_LOAD && s.vaddr <= a < s.vaddr + s.filesz
    ensures Covers(s, a) && CellOf(s, a) == FileByte(s.offset + (a - s.vaddr))
  {
    hide PowerOfTwo, Effective;
    PagesKeepDisplacement(s, length, a);
  }

  lemma LocatedBounds(elf: Elf, data: seq<Byte>, name: string, size: nat)
    requires Locate(elf, data, name, size).Success?
    ensures var r := Locate(elf, data, name, size).value;
            && r.section.offset <= r.offset && r.offset + size <= r.section.offset + r.section.size
            && r.load.offset <= r.offset && r.offset + size <= r.load.offset + r.load.filesz
            && r.offset + size <= |data| && r.bytes == data[r.offset..r.offset + size]
            && r.load.kind == PT_LOAD && !FlagSet(r.load.flags, PF_W) && r.load.vaddr <= r.symbol.value
            && r.offset == r.load.offset + (r.symbol.value - r.load.vaddr)
  {
    hide Where, Governed, FlagSet;
    var k, m := LocatedSits(elf, data, name, size);
  }

  /** The object's bytes are those its segment puts at the object's addresses, and lie inside the
      file extents of its section and of its segment. */
  lemma LocatedBytesAreMapped(elf: Elf, data: seq<Byte>, name: string, size: nat)
    requires Accepted(elf.segments, |data|) && Locate(elf, data, name, size).Success?
    ensures var r := Locate(elf, data, name, size).value;
            && r.section.offset <= r.offset && r.offset + size <= r.section.offset + r.section.size
            && r.load.offset <= r.offset && r.offset + size <= r.load.offset + r.load.filesz <= |data|
            && r.bytes == data[r.offset..r.offset + size]
            && forall a: nat | r.symbol.value <= a < r.symbol.value + size ::
                 Covers(r.load, a) && CellOf(r.load, a) == FileByte(r.offset + (a - r.symbol.value))
  {
    hide Locate, Covers, CellOf;
    var r := Locate(elf, data, name, size).value;
    var k, m := LocatedSits(elf, data, name, size);
    LocatedBounds(elf, data, name, size);
    assert SegmentAccepted(elf.segments[m], |data|);
    forall a: nat | r.symbol.value <= a < r.symbol.value + size
      ensures Covers(r.load, a) && CellOf(r.load, a) == FileByte(r.offset + (a - r.symbol.value))
    {
      FileByteMapped(r.load, |data|, a);
    }
  }

  /** The accepted inventory leaves three segments: one readable and executable, one readable and
      writable, and the stack marker. */
  lemma AcceptedShape(segments: seq<Segment>, length: nat)
    requires Accepted(segments, length)
    ensures |segments| == 3
    ensures forall i, j | 0 <= i < 3 && 0 <= j < 3 && EntryOf(segments[i]) == EntryOf(segments[j]) :: i == j
    ensures forall i | 0 <= i < 3 :: EntryOf(segments[i]) in EXPECTED_INVENTORY
  {
    hide SegmentAccepted, AggregateEffective, Ascending;
    var inventory := Inventory(segments);
    DistinctUnderPermutation(EXPECTED_INVENTORY, inventory, (e: Entry) => e);
    SameLength(EXPECTED_INVENTORY, inventory);
    forall i | 0 <= i < 3
      ensures EntryOf(segments[i]) in EXPECTED_INVENTORY
    {
      SameMembers(EXPECTED_INVENTORY, inventory, inventory[i]);
    }
    assert forall i | 0 <= i < 3 :: inventory[i] == EntryOf(segments[i]);
  }

  /** What every accepted header says, in numbers: it is the executable, the writable or the stack
      segment, each once; its file bytes lie in the image and its memory below 2 to the 64; a loaded
      one covers at most 16 MiB of whole pages, at a distance of whole pages from its file bytes. */
  lemma AcceptedHeader(segments: seq<Segment>, length: nat, i: nat)
    requires Accepted(segments, length) && i < |segments|
    ensures var s := segments[i];
            && |segments| == 3 && s.filesz <= s.memsz && s.offset + s.filesz <= length
            && s.vaddr + s.memsz < 18446744073709551616
            && (|| (s.kind == 1 && s.flags == 5 && s.align == 4096) || (s.kind == 1 && s.flags == 6 && s.align == 4096)
                || (s.kind == 0x6474E551 && s.flags == 6 && s.align == 16))
            && (s.kind == 1 ==>
                  && (s.vaddr - s.offset) % 4096 == 0
                  && (s.vaddr + s.memsz + 4095) / 4096 * 4096 - s.vaddr / 4096 * 4096 <= 16777216)
    ensures forall j | 0 <= j < |segments| && j != i ::
              segments[j].kind != segments[i].kind || segments[j].flags != segments[i].flags
    ensures forall j | i < j < |segments| && segments[i].kind == segments[j].kind == 1 ::
              segments[i].vaddr <= segments[j].vaddr
  {
    AcceptedShape(segments, length);
    assert SegmentAccepted(segments[i], length);
    hide Accepted, PowerOfTwo;
    assert EntryOf(segments[i]) in EXPECTED_INVENTORY;
    forall j | 0 <= j < |segments| && j != i
      ensures segments[j].kind != segments[i].kind || segments[j].flags != segments[i].flags
    {
      assert EntryOf(segments[j]) in EXPECTED_INVENTORY;
    }
    AcceptedAscending(segments, length);
  }

  /** The aggregate ceiling never decides: two loaded segments of at most 16 MiB each stay within it. */
  lemma AggregateNeverDecides(segments: seq<Segment>, length: nat)
    ensures Accepted(segments, length) <==>
            && (forall i | 0 <= i < |segments| :: SegmentAccepted(segments[i], length))
            && multiset(Inventory(segments)) == multiset(EXPECTED_INVENTORY)
            && Ascending(segments)
  {
    if (forall i | 0 <= i < |segments| :: SegmentAccepted(segments[i], length))
       && multiset(Inventory(segments)) == multiset(EXPECTED_INVENTORY) {
      var inventory := Inventory(segments);
      SameLength(EXPECTED_INVENTORY, inventory);
      SameMembers(EXPECTED_INVENTORY, inventory, EXPECTED_INVENTORY[2]);
      var k :| 0 <= k < 3 && inventory[k] == EXPECTED_INVENTORY[2];
      assert segments[k].kind != 1;
      TwoLoads(segments, length, k);
    }
  }

  lemma TwoLoads(segments: seq<Segment>, length: nat, k: nat)
    requires |segments| == 3 && k < 3 && segments[k].kind != 1
    requires forall i | 0 <= i < 3 :: SegmentAccepted(segments[i], length)
    ensures AggregateEffective(segments) <= 33554432
  {
    hide Effective, PowerOfTwo;
    var two := segments[..2];
    var one := two[..1];
    assert one[..0] == [];
    assert AggregateEffective(one) == if segments[0].kind == 1 then Effective(segments[0]) else 0;
    assert AggregateEffective(two)
           == AggregateEffective(one) + if segments[1].kind == 1 then Effective(segments[1]) else 0;
    assert AggregateEffective(segments)
           == AggregateEffective(two) + if segments[2].kind == 1 then Effective(segments[2]) else 0;
  }

  lemma AcceptedAscending(segments: seq<Segment>, length: nat)
    requires Accepted(segments, length)
    ensures Ascending(segments)
  {
  }

  /** Another mapping changes what the object's addresses hold. */
  predicate Replaces(other: Segment, load: Segment, a: nat) {
    && Covers(other, a)
    && ((other.memsz > other.filesz && a >= other.vaddr + other.filesz)
        || Displacement(other.offset, other.vaddr) != Displacement(load.offset, load.vaddr))
  }

  predicate NotReplaced(segments: seq<Segment>, m: nat, a: nat)
    requires m < |segments|
  {
    forall j | m < j < |segments| :: !Replaces(segments[j], segments[m], a)
  }

  /** The running image holds at `a` what segment `m` has there in the file. */
  predicate Shows(segments: seq<Segment>, m: nat, a: nat)
    requires m < |segments|
  {
    Mapped(segments, a) == FileByte(segments[m].offset + (a - segments[m].vaddr))
  }

  lemma CellUnlessReplaced(other: Segment, load: Segment, length: nat, a: nat)
    requires SegmentAccepted(other, length) && other.kind == PT_LOAD && Covers(other, a)
    ensures CellOf(other, a) == FileByte(load.offset + (a - load.vaddr)) <==> !Replaces(other, load, a)
  {
    hide PowerOfTwo, Effective, Covers, PageFloor;
    PagesKeepDisplacement(other, length, a);
  }

  lemma LastCovering(segments: seq<Segment>, n: nat, a: nat)
    requires n < |segments|
    ensures Mapped(segments[..n + 1], a)
              == if Covers(segments[n], a) then CellOf(segments[n], a) else Mapped(segments[..n], a)
  {
    assert segments[..n + 1][..n] == segments[..n];
  }

  lemma {:induction false} MappedFrom(segments: seq<Segment>, length: nat, m: nat, n: nat, a: nat)
    requires m < n <= |segments| && forall j | 0 <= j < |segments| :: SegmentAccepted(segments[j], length)
    requires forall i, j | m < i < |segments| && m < j < |segments|
               && segments[i].kind == segments[j].kind == PT_LOAD :: i == j
    requires segments[m].kind == PT_LOAD && segments[m].vaddr <= a < segments[m].vaddr + segments[m].filesz
    ensures Mapped(segments[..n], a) == FileByte(segments[m].offset + (a - segments[m].vaddr))
            <==> forall j | m < j < n :: !Replaces(segments[j], segments[m], a)
  {
    hide SegmentAccepted, Mapped, CellOf;
    LastCovering(segments, n - 1, a);
    if n == m + 1 {
      FileByteMapped(segments[m], length, a);
    } else {
      MappedFrom(segments, length, m, n - 1, a);
      if Covers(segments[n - 1], a) {
        CellUnlessReplaced(segments[n - 1], segments[m], length, a);
        assert forall j | m < j < n - 1 :: !Covers(segments[j], a);
      }
    }
  }

  /** The running image holds the located bytes at the object's addresses exactly when no segment
      mapped later replaces one of them. The header policy orders segments by address but does not
      keep their pages apart, so this is a condition on the image and not a consequence. */
  lemma ImageHoldsObjectIff(elf: Elf, data: seq<Byte>, name: string, size: nat, k: nat, m: nat)
    requires Accepted(elf.segments, |data|) && Locate(elf, data, name, size).Success? && Sits(elf, name, size, k, m)
    ensures var r := Locate(elf, data, name, size).value;
            && r.offset == elf.segments[m].offset + (r.symbol.value - elf.segments[m].vaddr)
            && ((forall a: nat | r.symbol.value <= a < r.symbol.value + size :: Shows(elf.segments, m, a))
                <==> (forall a: nat | r.symbol.value <= a < r.symbol.value + size :: NotReplaced(elf.segments, m, a)))
  {
    var r := Locate(elf, data, name, size).value;
    LocateSucceedsIff(elf, data, name, size, k, m);
    LocatedBounds(elf, data, name, size);
    ObjectInFileExtent(elf, data, name, size);
    hide *;
    ImageHoldsRangeIff(elf.segments, |data|, m, r.symbol.value, size);
  }

  lemma {:induction false} ImageHoldsRangeIff(segments: seq<Segment>, length: nat, m: nat, lo: nat, size: nat)
    requires Accepted(segments, length) && m < |segments| && segments[m].kind == PT_LOAD
    requires segments[m].vaddr <= lo && lo + size <= segments[m].vaddr + segments[m].filesz
    ensures (forall a: nat | lo <= a < lo + size :: Shows(segments, m, a))
            <==> (forall a: nat | lo <= a < lo + size :: NotReplaced(segments, m, a))
  {
    OneOtherLoad(segments, length, m);
    assert segments[..|segments|] == segments;
    hide Replaces, SegmentAccepted, Ascending, AggregateEffective, EntryOf, Covers, CellOf;
    forall a: nat | lo <= a < lo + size
      ensures Shows(segments, m, a) <==> NotReplaced(segments, m, a)
    {
      MappedFrom(segments, length, m, |segments|, a);
    }
  }

  lemma ObjectInFileExtent(elf: Elf, data: seq<Byte>, name: string, size: nat)
    requires Locate(elf, data, name, size).Success?
    ensures var r := Locate(elf, data, name, size).value;
            r.load.vaddr <= r.symbol.value && r.symbol.value + size <= r.load.vaddr + r.load.filesz
  {
    hide Locate;
    LocatedBounds(elf, data, name, size);
  }

  lemma OneOtherLoad(segments: seq<Segment>, length: nat, m: nat)
    requires Accepted(segments, length) && m < |segments| && segments[m].kind == PT_LOAD
    ensures forall i, j | m < i < |segments| && m < j < |segments|
              && segments[i].kind == segments[j].kind == PT_LOAD :: i == j
    ensures !FlagSet(segments[m].flags, PF_W) ==> segments[m].flags == 5
  {
    hide Accepted;
    AcceptedShape(segments, length);
    forall i, j | m < i < |segments| && m < j < |segments| && segments[i].kind == segments[j].kind == PT_LOAD
      ensures i == j
    {
      assert EntryOf(segments[i]) in EXPECTED_INVENTORY && EntryOf(segments[j]) in EXPECTED_INVENTORY
             && EntryOf(segments[m]) in EXPECTED_INVENTORY;
    }
    assert EntryOf(segments[m]) in EXPECTED_INVENTORY;
  }

  /** Under the accepted inventory a located object lies in the one readable and executable segment. */
  lemma LocatedInTextSegment(elf: Elf, data: seq<Byte>, name: string, size: nat)
    requires Accepted(elf.segments, |data|) && Locate(elf, data, name, size).Success?
    ensures Locate(elf, data, name, size).value.load.flags == 5
  {
    hide Locate, Accepted;
    var k, m := LocatedSits(elf, data, name, size);
    LocatedBounds(elf, data, name, size);
    OneOtherLoad(elf.segments, |data|, m);
  }

  /** An accepted image in which the writable segment is mapped over the end of a located object. */
  lemma AcceptedWithOverlap(data: seq<Byte>)
    requires |data| == 0x3000
    ensures var text := Segment(PT_LOAD, 5, 0, 0x400000, 0x2000, 0x2000, 0x1000);
            var bss := Segment(PT_LOAD, 6, 0x2000, 0x401000, 0x1000, 0x1000, 0x1000);
            var stack := Segment(PT_GNU_STACK, 6, 0, 0, 0, 0, 0x10);
            var section := Section(1, SHF_ALLOC, 0x400ff8, 0xff8, 16);
            var elf := Elf([text, bss, stack], [Section(0, 0, 0, 0, 0), section],
                           [Symbol("", 0, 0, 0, 0, 0), Symbol("o", 17, 2, 1, 0x400ff8, 16)]);
            && Accepted(elf.segments, |data|)
            && Locate(elf, data, "o", 16).Success? && Locate(elf, data, "o", 16).value.offset == 0xff8
            && Mapped(elf.segments, 0x401000) == FileByte(0x2000)
  {
    var text := Segment(PT_LOAD, 5, 0, 0x400000, 0x2000, 0x2000, 0x1000);
    var bss := Segment(PT_LOAD, 6, 0x2000, 0x401000, 0x1000, 0x1000, 0x1000);
    var stack := Segment(PT_GNU_STACK, 6, 0, 0, 0, 0, 0x10);
    var section := Section(1, SHF_ALLOC, 0x400ff8, 0xff8, 16);
    var elf := Elf([text, bss, stack], [Section(0, 0, 0, 0, 0), section],
                   [Symbol("", 0, 0, 0, 0, 0), Symbol("o", 17, 2, 1, 0x400ff8, 16)]);
    hide Accepted, Mapped, Locate, Sits;
    OverlapAccepted(text, bss, stack);
    assert elf.segments == [text, bss, stack];
    OverlapSits(elf);
    LocateSucceedsIff(elf, data, "o", 16, 1, 0);
    LocatedBounds(elf, data, "o", 16);
  }

  lemma OverlapSits(elf: Elf)
    requires |elf.segments| == 3 && |elf.sections| == 2 && |elf.symbols| == 2
    requires elf.segments[0] == Segment(PT_LOAD, 5, 0, 0x400000, 0x2000, 0x2000, 0x1000)
    requires elf.segments[1] == Segment(PT_LOAD, 6, 0x2000, 0x401000, 0x1000, 0x1000, 0x1000)
    requires elf.segments[2] == Segment(PT_GNU_STACK, 6, 0, 0, 0, 0, 0x10)
    requires elf.sections[1] == Section(1, SHF_ALLOC, 0x400ff8, 0xff8, 16)
    requires elf.symbols[0].name == "" && elf.symbols[1] == Symbol("o", 17, 2, 1, 0x400ff8, 16)
    ensures Sits(elf, "o", 16, 1, 0)
  {
    assert OnlyOne(elf.symbols, (y: Symbol) => y.name == "o", 1);
  }

  lemma OverlapAccepted(text: Segment, bss: Segment, stack: Segment)
    requires text == Segment(PT_LOAD, 5, 0, 0x400000, 0x2000, 0x2000, 0x1000)
    requires bss == Segment(PT_LOAD, 6, 0x2000, 0x401000, 0x1000, 0x1000, 0x1000)
    requires stack == Segment(PT_GNU_STACK, 6, 0, 0, 0, 0, 0x10)
    ensures Accepted([text, bss, stack], 0x3000)
    ensures Mapped([text, bss, stack], 0x401000) == FileByte(0x2000)
  {
    var s := [text, bss, stack];
    PageIsPowerOfTwo();
    assert Inventory(s) == EXPECTED_INVENTORY;
    assert s[..2] == [text, bss] && s[..2][..1] == [text] && s[..2][..1][..0] == [];
    assert AggregateEffective([text]) == 0x2000;
    assert AggregateEffective([text, bss]) == 0x3000;
    assert AggregateEffective(s) == 0x3000;
    assert Mapped(s[..2], 0x401000) == CellOf(bss, 0x401000);
  }
}
