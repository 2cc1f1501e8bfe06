/** Executable images and back: what the reader of port/src/elf.rs makes of a file written
    from given headers, sound or not. */
module ElfImage {
  import opened Prelude
  import opened Arith
  import opened Elf
  import opened ElfBytes

  // ----- Headers -----

  /** The file header, as far as the reader looks at it. */
  datatype FileHeader = FileHeader(magic: seq<Byte>, width: Byte, order: Byte, kind: nat, entry: nat,
                                   phoff: nat, phentsize: nat, phnum: nat, shoff: nat, shentsize: nat, shnum: nat)

  /** A program header: `kind` is its p_type. */
  datatype Program = Program(kind: nat, flags: nat, offset: nat, vaddr: nat, paddr: nat, filesz: nat, memsz: nat,
                             align: nat)

  /** A section header, as far as the reader looks at one. */
  datatype Section = Section(kind: nat, offset: nat, size: nat, link: nat, entsize: nat)

  predicate HeaderFits(h: FileHeader) {
    && |h.magic| == 4 && h.kind < 0x1_0000 && h.entry < TWO_64 && h.phoff < TWO_64 && h.shoff < TWO_64
    && h.phentsize < 0x1_0000 && h.phnum < 0x1_0000 && h.shentsize < 0x1_0000 && h.shnum < 0x1_0000
  }

  predicate ProgramFits(p: Program) {
    && p.kind < 0x1_0000_0000 && p.flags < 0x1_0000_0000 && p.offset < TWO_64 && p.vaddr < TWO_64
    && p.paddr < TWO_64 && p.filesz < TWO_64 && p.memsz < TWO_64 && p.align < TWO_64
  }

  predicate FieldsFit(sec: Section) {
    sec.kind < 0x1_0000_0000 && sec.link < 0x1_0000_0000
    && sec.offset < TWO_64 && sec.size < TWO_64 && sec.entsize < TWO_64
  }

  function Ident(h: FileHeader): seq<Byte> {
    h.magic + [h.width, h.order, 1, 0, 0, 0, 0, 0, 0, 0, 0, 0]
  }

  function FileCells(h: FileHeader): seq<Cell> {
    [Cell(h.kind, 2), Cell(183, 2), Cell(1, 4), Cell(h.entry, 8), Cell(h.phoff, 8), Cell(h.shoff, 8), Cell(0, 4),
     Cell(EHDR_SIZE, 2), Cell(h.phentsize, 2), Cell(h.phnum, 2), Cell(h.shentsize, 2), Cell(h.shnum, 2), Cell(0, 2)]
  }

  function ProgramCells(p: Program): seq<Cell> {
    [Cell(p.kind, 4), Cell(p.flags, 4), Cell(p.offset, 8), Cell(p.vaddr, 8), Cell(p.paddr, 8), Cell(p.filesz, 8),
     Cell(p.memsz, 8), Cell(p.align, 8)]
  }

  function SectionCells(sec: Section): seq<Cell> {
    [Cell(0, 4), Cell(sec.kind, 4), Cell(0, 8), Cell(0, 8), Cell(sec.offset, 8), Cell(sec.size, 8),
     Cell(sec.link, 4), Cell(0, 4), Cell(8, 8), Cell(sec.entsize, 8)]
  }

  function HeaderBytes(h: FileHeader): seq<Byte> {
    Ident(h) + Record(FileCells(h))
  }

  function ProgramTable(progs: seq<Program>): seq<seq<Cell>> {
    seq(|progs|, i requires 0 <= i < |progs| => ProgramCells(progs[i]))
  }

  function SectionTable(secs: seq<Section>): seq<seq<Cell>> {
    seq(|secs|, i requires 0 <= i < |secs| => SectionCells(secs[i]))
  }

  /** The file: its header, the program headers, the section headers and the rest. */
  function Image(h: FileHeader, progs: seq<Program>, secs: seq<Section>, tail: seq<Byte>): seq<Byte> {
    HeaderBytes(h) + (Table(ProgramTable(progs)) + (Table(SectionTable(secs)) + tail))
  }

  // Where the section headers are.
  function SectionsAt(progs: seq<Program>): nat {
    EHDR_SIZE + |progs| * PHDR_SIZE
  }

  predicate Fits(h: FileHeader, progs: seq<Program>, secs: seq<Section>) {
    && HeaderFits(h) && (forall i :: 0 <= i < |progs| ==> ProgramFits(progs[i]))
    && (forall i :: 0 <= i < |secs| ==> FieldsFit(secs[i]))
  }

  lemma Widths()
    ensures Pow256(2) == 0x1_0000 && Pow256(4) == 0x1_0000_0000 && Pow256(8) == TWO_64
  {
  }

  // ----- The fields, where the reader looks for them -----

  ghost predicate HeaderSays(b: seq<Byte>, h: FileHeader) {
    && |b| >= EHDR_SIZE && b[..4] == h.magic && b[4] == h.width && b[5] == h.order
    && Field(b, 16, 2) == h.kind && Field(b, 24, 8) == h.entry && Field(b, 32, 8) == h.phoff
    && Field(b, 40, 8) == h.shoff && Field(b, 54, 2) == h.phentsize && Field(b, 56, 2) == h.phnum
    && Field(b, 58, 2) == h.shentsize && Field(b, 60, 2) == h.shnum
  }

  lemma FileFields(b: seq<Byte>, h: FileHeader)
    requires |b| >= EHDR_SIZE && Lays(b, 16, FileCells(h)) && b[..4] == h.magic && b[4] == h.width && b[5] == h.order
    ensures HeaderSays(b, h)
  {
    var cells := FileCells(h);
    assert Shows(b, 16, cells, 0);
    assert Shows(b, 16, cells, 3);
    assert Shows(b, 16, cells, 4);
    assert Shows(b, 16, cells, 5);
    assert Shows(b, 16, cells, 8);
    assert Shows(b, 16, cells, 9);
    assert Shows(b, 16, cells, 10);
    assert Shows(b, 16, cells, 11);
  }

  /** The segment a program header describes: it may be run if bit 0 of its flags is set. */
  function SegmentOf(p: Program): Segment {
    Segment(p.vaddr, p.offset, p.filesz, p.memsz, p.flags % 2 == 1)
  }

  lemma ProgramFields(b: seq<Byte>, base: nat, p: Program)
    requires base + PHDR_SIZE <= |b| && Lays(b, base, ProgramCells(p))
    ensures (IsLoad(b, base) <==> p.kind == 1) && SegmentAt(b, base) == SegmentOf(p)
  {
    var cells := ProgramCells(p);
    assert Shows(b, base, cells, 0);
    assert Shows(b, base, cells, 1);
    assert Shows(b, base, cells, 2);
    assert Shows(b, base, cells, 3);
    assert Shows(b, base, cells, 5);
    assert Shows(b, base, cells, 6);
  }

  lemma SectionFields(b: seq<Byte>, base: nat, sec: Section)
    requires base + SHDR_SIZE <= |b| && Lays(b, base, SectionCells(sec))
    ensures Field(b, base + 4, 4) == sec.kind && Field(b, base + 24, 8) == sec.offset
    ensures Field(b, base + 32, 8) == sec.size && Field(b, base + 40, 4) == sec.link
    ensures Field(b, base + 56, 8) == sec.entsize
  {
    var cells := SectionCells(sec);
    assert Shows(b, base, cells, 1);
    assert Shows(b, base, cells, 4);
    assert Shows(b, base, cells, 5);
    assert Shows(b, base, cells, 6);
    assert Shows(b, base, cells, 9);
  }

  // Program header `i` says `p`.
  ghost predicate ProgramSays(b: seq<Byte>, i: nat, p: Program) {
    var base := EHDR_SIZE + i * PHDR_SIZE;
    base + PHDR_SIZE <= |b| && Lays(b, base, ProgramCells(p))
  }

  // Section header `i` of the table at `start` says `sec`.
  ghost predicate SectionSays(b: seq<Byte>, start: nat, i: nat, sec: Section) {
    var base := start + i * SHDR_SIZE;
    base + SHDR_SIZE <= |b| && Lays(b, base, SectionCells(sec))
  }

  ghost predicate ProgramsSay(b: seq<Byte>, progs: seq<Program>) {
    forall i :: 0 <= i < |progs| ==> ProgramSays(b, i, progs[i])
  }

  ghost predicate SectionsSay(b: seq<Byte>, start: nat, secs: seq<Section>) {
    forall i :: 0 <= i < |secs| ==> SectionSays(b, start, i, secs[i])
  }

  // The file says what the image was made from, field by field.
  ghost predicate Says(b: seq<Byte>, h: FileHeader, progs: seq<Program>, secs: seq<Section>) {
    && HeaderSays(b, h) && SectionsAt(progs) + |secs| * SHDR_SIZE <= |b|
    && ProgramsSay(b, progs) && SectionsSay(b, SectionsAt(progs), secs)
  }

  lemma ProgramRecord(p: Program)
    requires ProgramFits(p)
    ensures Fitting(ProgramCells(p)) && |Record(ProgramCells(p))| == PHDR_SIZE
  {
    Widths();
    assert Start(ProgramCells(p), 8) == PHDR_SIZE;
  }

  lemma SectionRecord(sec: Section)
    requires FieldsFit(sec)
    ensures Fitting(SectionCells(sec)) && |Record(SectionCells(sec))| == SHDR_SIZE
  {
    Widths();
    assert Start(SectionCells(sec), 10) == SHDR_SIZE;
  }

  lemma FileRecord(h: FileHeader)
    requires HeaderFits(h)
    ensures Fitting(FileCells(h)) && |HeaderBytes(h)| == EHDR_SIZE
  {
    Widths();
    var cells := FileCells(h);
    assert Start(cells, 6) == 32;
    assert Start(cells, 10) == 42;
    assert Start(cells, 13) == 48;
  }

  lemma TablesUniform(progs: seq<Program>, secs: seq<Section>)
    requires forall i :: 0 <= i < |progs| ==> ProgramFits(progs[i])
    requires forall i :: 0 <= i < |secs| ==> FieldsFit(secs[i])
    ensures Uniform(ProgramTable(progs), PHDR_SIZE) && Uniform(SectionTable(secs), SHDR_SIZE)
    ensures |Table(ProgramTable(progs))| == |progs| * PHDR_SIZE && |Table(SectionTable(secs))| == |secs| * SHDR_SIZE
  {
    forall i | 0 <= i < |progs|
      ensures Fitting(ProgramTable(progs)[i]) && |Record(ProgramTable(progs)[i])| == PHDR_SIZE
    {
      ProgramRecord(progs[i]);
    }
    forall i | 0 <= i < |secs|
      ensures Fitting(SectionTable(secs)[i]) && |Record(SectionTable(secs)[i])| == SHDR_SIZE
    {
      SectionRecord(secs[i]);
    }
    TableSize(ProgramTable(progs), PHDR_SIZE);
    TableSize(SectionTable(secs), SHDR_SIZE);
  }

  lemma ImageHeader(h: FileHeader, rest: seq<Byte>)
    requires HeaderFits(h)
    ensures |HeaderBytes(h)| == EHDR_SIZE && HeaderSays(HeaderBytes(h) + rest, h)
  {
    var cells, b := FileCells(h), HeaderBytes(h) + rest;
    FileRecord(h);
    RecordLays(cells);
    LaysAfter(Ident(h), Record(cells), 0, 16, cells);
    LaysWithin(HeaderBytes(h), rest, 16, cells);
    assert b[..4] == h.magic && b[4] == h.width && b[5] == h.order;
    FileFields(b, h);
  }

  lemma ProgramLaid(b: seq<Byte>, base: nat, cells: seq<Cell>, i: nat, p: Program)
    requires cells == ProgramCells(p) && base == EHDR_SIZE + i * PHDR_SIZE
    requires base + PHDR_SIZE <= |b| && Lays(b, base, cells)
    ensures ProgramSays(b, i, p)
  {
  }

  lemma ImagePrograms(h: seq<Byte>, progs: seq<Program>, post: seq<Byte>)
    requires |h| == EHDR_SIZE && Uniform(ProgramTable(progs), PHDR_SIZE)
    ensures ProgramsSay(h + (Table(ProgramTable(progs)) + post), progs)
  {
    forall i | 0 <= i < |progs| ensures ProgramSays(h + (Table(ProgramTable(progs)) + post), i, progs[i]) {
      var base, cells := EHDR_SIZE + i * PHDR_SIZE, ProgramTable(progs)[i];
      InTable(h, ProgramTable(progs), post, PHDR_SIZE, i, base, cells);
      ProgramLaid(h + (Table(ProgramTable(progs)) + post), base, cells, i, progs[i]);
    }
  }

  lemma SectionLaid(b: seq<Byte>, base: nat, cells: seq<Cell>, start: nat, i: nat, sec: Section)
    requires cells == SectionCells(sec) && base == start + i * SHDR_SIZE
    requires base + SHDR_SIZE <= |b| && Lays(b, base, cells)
    ensures SectionSays(b, start, i, sec)
  {
  }

  lemma ImageSections(pre: seq<Byte>, secs: seq<Section>, tail: seq<Byte>, start: nat)
    requires Uniform(SectionTable(secs), SHDR_SIZE) && start == |pre|
    ensures SectionsSay(pre + (Table(SectionTable(secs)) + tail), start, secs)
  {
    forall i | 0 <= i < |secs| ensures SectionSays(pre + (Table(SectionTable(secs)) + tail), start, i, secs[i]) {
      var base, cells := start + i * SHDR_SIZE, SectionTable(secs)[i];
      InTable(pre, SectionTable(secs), tail, SHDR_SIZE, i, base, cells);
      SectionLaid(pre + (Table(SectionTable(secs)) + tail), base, cells, start, i, secs[i]);
    }
  }

  lemma Regroup(a: seq<Byte>, b: seq<Byte>, c: seq<Byte>)
    ensures (a + b) + c == a + (b + c)
  {
  }

  lemma SaysParts(hb: seq<Byte>, first: seq<Byte>, rest: seq<Byte>, h: FileHeader, progs: seq<Program>,
                  secs: seq<Section>)
    requires HeaderSays(hb + (first + rest), h) && ProgramsSay(hb + (first + rest), progs)
    requires |hb| == EHDR_SIZE && |first| == |progs| * PHDR_SIZE && |secs| * SHDR_SIZE <= |rest|
    requires SectionsSay((hb + first) + rest, |hb + first|, secs)
    ensures Says(hb + (first + rest), h, progs, secs)
  {
    Regroup(hb, first, rest);
  }

  lemma ImageSays(h: FileHeader, progs: seq<Program>, secs: seq<Section>, tail: seq<Byte>)
    requires Fits(h, progs, secs)
    ensures Says(Image(h, progs, secs, tail), h, progs, secs)
    ensures |Image(h, progs, secs, tail)| == SectionsAt(progs) + |secs| * SHDR_SIZE + |tail|
  {
    var hb := HeaderBytes(h);
    var first, second := Table(ProgramTable(progs)), Table(SectionTable(secs));
    TablesUniform(progs, secs);
    ImageHeader(h, first + (second + tail));
    ImagePrograms(hb, progs, second + tail);
    ImageSections(hb + first, secs, tail, |hb + first|);
    SaysParts(hb, first, second + tail, h, progs, secs);
  }
}
