/** The verdict of the reader of port/src/elf.rs on files written from given headers. */
module ElfReads {
  import opened Prelude
  import opened Arith
  import opened Elf
  import opened ElfBytes
  import opened ElfImage

  // ----- The verdict, from the headers alone -----

  /** The first complaint about a file header in a file of `len` bytes. */
  function HeaderVerdict(h: FileHeader, len: nat): Option<ElfError> {
    if h.magic != [0x7f, 0x45, 0x4c, 0x46] then Some(NotElf)
    else if h.width != 2 then Some(Not64)
    else if h.order != 1 then Some(WrongEndian)
    else if h.kind != 2 then Some(NotExec)
    else if h.phnum > 0 && (h.phentsize != 56 || h.phoff + h.phnum * 56 > len) then Some(Truncated)
    else None
  }

  /** The segments of the headers of type 1, in their order. */
  function LoadsOf(progs: seq<Program>): seq<Segment> {
    if progs == [] then []
    else (if progs[0].kind == 1 then [SegmentOf(progs[0])] else []) + LoadsOf(progs[1..])
  }

  // The file part is larger than the memory part or not inside the file.
  predicate Unsound(seg: Segment, len: nat) {
    seg.filesz > seg.memsz || seg.offset + seg.filesz > len
  }

  // One of the first seventeen segments is unsound.
  ghost predicate EarlyUnsound(segs: seq<Segment>, from: nat, len: nat) {
    exists k: nat :: from <= k < |segs| && k <= 16 && Unsound(segs[k], len)
  }

  ghost function SegmentsVerdict(segs: seq<Segment>, len: nat): Option<ElfError> {
    if EarlyUnsound(segs, 0, len) then Some(BadSegment)
    else if |segs| > 16 then Some(TooManySegments)
    else if segs == [] then Some(NoLoadSegment)
    else None
  }

  /** The first section from `i` on that the reader takes for a symbol table. */
  function FirstTable(secs: seq<Section>, i: nat): (r: Option<nat>)
    ensures r.Some? ==> r.value < |secs| && secs[r.value].link < |secs|
    decreases |secs| - i
  {
    if i >= |secs| then None
    else if secs[i].kind == 2 && secs[i].entsize == 24 && secs[i].link < |secs| then Some(i)
    else FirstTable(secs, i + 1)
  }

  // What `sec` gives in a file of `len` bytes, with its strings at `strtab`.
  function TableIn(sec: Section, strtab: nat, len: nat): Result<Option<SymTable>, ElfError> {
    if sec.offset + sec.size >= TWO_64 then Err(Panic)
    else if sec.offset + sec.size <= len && strtab <= len
    then Ok(Some(SymTable(sec.offset, sec.size / 24, strtab)))
    else Ok(None)
  }

  function TableOf(secs: seq<Section>, len: nat): Result<Option<SymTable>, ElfError> {
    var i := FirstTable(secs, 0);
    if i.None? then Ok(None) else TableIn(secs[i.value], secs[secs[i.value].link].offset, len)
  }

  /** The symbol table the section headers give. */
  function SectionsVerdict(h: FileHeader, secs: seq<Section>, len: nat): Result<Option<SymTable>, ElfError> {
    if secs == [] || h.shoff == 0 || h.shentsize != 64 then Ok(None)
    else if h.shoff + |secs| * 64 >= TWO_64 then Err(Truncated)
    else if h.shoff + |secs| * 64 > len then Ok(None)
    else TableOf(secs, len)
  }

  ghost function FileVerdict(h: FileHeader, progs: seq<Program>, secs: seq<Section>, len: nat): Result<Elf, ElfError> {
    var segs := LoadsOf(progs);
    if HeaderVerdict(h, len).Some? then Err(HeaderVerdict(h, len).value)
    else if SegmentsVerdict(segs, len).Some? then Err(SegmentsVerdict(segs, len).value)
    else match SectionsVerdict(h, secs, len)
         case Err(e) => Err(e)
         case Ok(table) => Ok(Elf(h.entry, segs, table))
  }

  /** The header counts the tables, and says where they are unless they are not read. */
  predicate Points(h: FileHeader, progs: seq<Program>, secs: seq<Section>, len: nat) {
    && h.phnum == |progs| && (progs == [] || HeaderVerdict(h, len).Some? || h.phoff == EHDR_SIZE)
    && h.shnum == |secs|
    && (secs == [] || h.shentsize != 64 || h.shoff in {0, SectionsAt(progs)} || h.shoff + |secs| * 64 > len)
  }

  // ----- It is the reader's -----

  lemma HeaderBack(b: seq<Byte>, h: FileHeader)
    requires HeaderSays(b, h)
    ensures HeaderError(b) == HeaderVerdict(h, |b|)
  {
  }

  // The program header `i`, where the reader looks for it.
  lemma ProgramBack(b: seq<Byte>, h: FileHeader, progs: seq<Program>, secs: seq<Section>, i: nat)
    requires Says(b, h, progs, secs) && h.phoff == EHDR_SIZE && i < |progs|
    ensures var base := HeaderBase(b, i);
            base + PHDR_SIZE <= |b| && (IsLoad(b, base) <==> progs[i].kind == 1)
            && SegmentAt(b, base) == SegmentOf(progs[i])
  {
    assert ProgramSays(b, i, progs[i]);
    ProgramFields(b, EHDR_SIZE + i * PHDR_SIZE, progs[i]);
  }

  lemma {:induction false} LoadsBack(b: seq<Byte>, h: FileHeader, progs: seq<Program>, secs: seq<Section>, i: nat)
    requires Says(b, h, progs, secs) && TableFits(b) && h.phnum == |progs| && i <= |progs|
    requires progs == [] || h.phoff == EHDR_SIZE
    ensures LoadsFrom(b, i) == LoadsOf(progs[i..])
    decreases |progs| - i
  {
    if i < |progs| {
      ProgramBack(b, h, progs, secs, i);
      LoadsBack(b, h, progs, secs, i + 1);
      assert progs[i..][1..] == progs[i + 1..];
    }
  }

  lemma {:induction false} SegmentsErrorIs(segs: seq<Segment>, k: nat, len: nat)
    requires k <= |segs| && k <= 16
    ensures SegmentsError(segs, k, len) ==
            if EarlyUnsound(segs, k, len) then Some(BadSegment) else if |segs| > 16 then Some(TooManySegments) else None
    decreases |segs| - k
  {
    if k < |segs| && !Unsound(segs[k], len) && k < 16 {
      SegmentsErrorIs(segs, k + 1, len);
      assert EarlyUnsound(segs, k, len) <==> EarlyUnsound(segs, k + 1, len);
    } else if k < |segs| && Unsound(segs[k], len) {
      assert EarlyUnsound(segs, k, len);
    }
  }

  // The fields of section `i`, where the reader looks for them.
  lemma SectionBack(b: seq<Byte>, h: FileHeader, progs: seq<Program>, secs: seq<Section>, i: nat)
    requires Says(b, h, progs, secs) && h.shoff == SectionsAt(progs) && i < |secs|
    ensures var base := SectionBase(b, i);
            && base + SHDR_SIZE <= |b| && Field(b, base + 4, 4) == secs[i].kind
            && Field(b, base + 24, 8) == secs[i].offset && Field(b, base + 32, 8) == secs[i].size
            && Field(b, base + 40, 4) == secs[i].link && Field(b, base + 56, 8) == secs[i].entsize
  {
    assert SectionSays(b, SectionsAt(progs), i, secs[i]);
    SectionFields(b, SectionsAt(progs) + i * SHDR_SIZE, secs[i]);
  }

  lemma {:induction false} SymtabBack(b: seq<Byte>, h: FileHeader, progs: seq<Program>, secs: seq<Section>, i: nat)
    requires Says(b, h, progs, secs) && h.shoff == SectionsAt(progs) && h.shnum == |secs| && SectionsFit(b)
    requires i <= |secs|
    ensures FirstSymtab(b, i) == FirstTable(secs, i)
    decreases |secs| - i
  {
    if i < |secs| {
      SectionBack(b, h, progs, secs, i);
      SymtabBack(b, h, progs, secs, i + 1);
    }
  }

  lemma TableBack(b: seq<Byte>, h: FileHeader, progs: seq<Program>, secs: seq<Section>, i: nat, link: nat)
    requires Says(b, h, progs, secs) && h.shoff == SectionsAt(progs) && i < |secs| && link < |secs|
    requires SectionBase(b, i) + SHDR_SIZE <= |b| && SectionBase(b, link) + SHDR_SIZE <= |b|
    ensures TableAt(b, SectionBase(b, i), SectionBase(b, link)) == TableIn(secs[i], secs[link].offset, |b|)
  {
    SectionBack(b, h, progs, secs, i);
    SectionBack(b, h, progs, secs, link);
  }

  lemma TablesBack(b: seq<Byte>, h: FileHeader, progs: seq<Program>, secs: seq<Section>)
    requires Says(b, h, progs, secs) && h.shoff == SectionsAt(progs) && h.shnum == |secs|
    requires h.shentsize == 64 && h.shoff + |secs| * 64 < TWO_64 && secs != []
    ensures SymtabVerdict(b) == TableOf(secs, |b|)
  {
    SectionsAllFit(b);
    SymtabBack(b, h, progs, secs, 0);
    var i := FirstTable(secs, 0);
    if i.Some? {
      var link := secs[i.value].link;
      SectionBack(b, h, progs, secs, i.value);
      assert SectionFits(b, link);
      TableBack(b, h, progs, secs, i.value, link);
    }
  }

  lemma SectionsBack(b: seq<Byte>, h: FileHeader, progs: seq<Program>, secs: seq<Section>)
    requires Says(b, h, progs, secs) && Points(h, progs, secs, |b|)
    ensures SymtabVerdict(b) == SectionsVerdict(h, secs, |b|)
  {
    if secs != [] && h.shoff != 0 && h.shentsize == 64 && h.shoff + |secs| * 64 <= |b|
       && h.shoff + |secs| * 64 < TWO_64
    {
      TablesBack(b, h, progs, secs);
    }
  }

  lemma Reads(b: seq<Byte>, h: FileHeader, progs: seq<Program>, secs: seq<Section>)
    requires Says(b, h, progs, secs) && Points(h, progs, secs, |b|)
    ensures Reading(b) == FileVerdict(h, progs, secs, |b|)
  {
    HeaderBack(b, h);
    if HeaderVerdict(h, |b|).None? {
      HeadersFit(b);
      LoadsBack(b, h, progs, secs, 0);
      assert progs[0..] == progs;
      SegmentsErrorIs(LoadsOf(progs), 0, |b|);
      SectionsBack(b, h, progs, secs);
    }
  }

  /** The reader's verdict on an image is the one its headers deserve, whatever they say:
      the first complaint about the file header, or about the loadable segments, or the
      entry, exactly the headers of type 1 in their order, and the symbol table. */
  lemma ImageReads(h: FileHeader, progs: seq<Program>, secs: seq<Section>, tail: seq<Byte>)
    requires Fits(h, progs, secs) && Points(h, progs, secs, |Image(h, progs, secs, tail)|)
    ensures Reading(Image(h, progs, secs, tail)) == FileVerdict(h, progs, secs, |Image(h, progs, secs, tail)|)
  {
    ImageSays(h, progs, secs, tail);
    Reads(Image(h, progs, secs, tail), h, progs, secs);
  }

  // ----- Refusals -----

  // A header the reader does not complain about, and the tables behind it.
  predicate Sound(h: FileHeader, progs: seq<Program>, secs: seq<Section>, len: nat) {
    Fits(h, progs, secs) && Points(h, progs, secs, len) && HeaderVerdict(h, len).None?
  }

  /** A sound file with its magic number, its width, its byte order or its type changed, or
      the size of its program headers, is refused for that. */
  lemma ChangedHeaderRefused(h: FileHeader, progs: seq<Program>, secs: seq<Section>, tail: seq<Byte>,
                             magic: seq<Byte>, other: Byte, number: nat)
    requires Sound(h, progs, secs, |Image(h, progs, secs, tail)|)
    requires |magic| == 4 && magic != h.magic && number < 0x1_0000
    ensures Reading(Image(h.(magic := magic), progs, secs, tail)) == Err(NotElf)
    ensures other != h.width ==> Reading(Image(h.(width := other), progs, secs, tail)) == Err(Not64)
    ensures other != h.order ==> Reading(Image(h.(order := other), progs, secs, tail)) == Err(WrongEndian)
    ensures number != h.kind ==> Reading(Image(h.(kind := number), progs, secs, tail)) == Err(NotExec)
    ensures number != h.phentsize && progs != [] ==>
      Reading(Image(h.(phentsize := number), progs, secs, tail)) == Err(Truncated)
  {
    RefusedFor(h.(magic := magic), progs, secs, tail);
    RefusedFor(h.(width := other), progs, secs, tail);
    RefusedFor(h.(order := other), progs, secs, tail);
    RefusedFor(h.(kind := number), progs, secs, tail);
    RefusedFor(h.(phentsize := number), progs, secs, tail);
  }

  lemma RefusedFor(h: FileHeader, progs: seq<Program>, secs: seq<Section>, tail: seq<Byte>)
    requires Fits(h, progs, secs)
    ensures var b := Image(h, progs, secs, tail);
            HeaderVerdict(h, |b|).Some? ==> Reading(b) == Err(HeaderVerdict(h, |b|).value)
  {
    ImageSays(h, progs, secs, tail);
    HeaderBack(Image(h, progs, secs, tail), h);
  }

  // ----- Segments -----

  lemma {:induction false} NoLoads(progs: seq<Program>)
    ensures LoadsOf(progs) == [] <==> forall i :: 0 <= i < |progs| ==> progs[i].kind != 1
  {
    if progs != [] {
      NoLoads(progs[1..]);
      assert forall i :: 0 < i < |progs| ==> progs[i] == progs[1..][i - 1];
      assert forall i :: 0 <= i < |progs| - 1 ==> progs[1..][i] == progs[i + 1];
    }
  }

  /** Of a file with a sound header, the reader says that it has no loadable segment
      exactly when no program header is of type 1, that a segment is bad exactly when one
      of the first seventeen loadable ones is, and that there are too many exactly when
      there are more than sixteen and those are sound. */
  lemma SegmentsRefusedIff(h: FileHeader, progs: seq<Program>, secs: seq<Section>, tail: seq<Byte>)
    requires Sound(h, progs, secs, |Image(h, progs, secs, tail)|)
    ensures var b := Image(h, progs, secs, tail); var segs := LoadsOf(progs);
            && (Reading(b) == Err(NoLoadSegment) <==> forall i :: 0 <= i < |progs| ==> progs[i].kind != 1)
            && (Reading(b) == Err(BadSegment) <==> EarlyUnsound(segs, 0, |b|))
            && (Reading(b) == Err(TooManySegments) <==> |segs| > 16 && !EarlyUnsound(segs, 0, |b|))
  {
    var b := Image(h, progs, secs, tail);
    ImageReads(h, progs, secs, tail);
    NoLoads(progs);
    RefusalOf(h, progs, secs, |b|, Reading(b));
  }

  lemma RefusalOf(h: FileHeader, progs: seq<Program>, secs: seq<Section>, len: nat, v: Result<Elf, ElfError>)
    requires HeaderVerdict(h, len).None? && v == FileVerdict(h, progs, secs, len)
    ensures var segs := LoadsOf(progs);
            && (v == Err(NoLoadSegment) <==> segs == []) && (v == Err(BadSegment) <==> EarlyUnsound(segs, 0, len))
            && (v == Err(TooManySegments) <==> |segs| > 16 && !EarlyUnsound(segs, 0, len))
  {
  }

  // ----- Symbol tables -----

  /** Of a file with sound headers and segments, the reader panics exactly when its first
      symbol table ends past 2^64. */
  lemma OverflowsIff(h: FileHeader, progs: seq<Program>, secs: seq<Section>, tail: seq<Byte>)
    requires var len := |Image(h, progs, secs, tail)|;
             Sound(h, progs, secs, len) && SegmentsVerdict(LoadsOf(progs), len).None?
    requires h.shoff == SectionsAt(progs) && h.shentsize == 64
    ensures Reading(Image(h, progs, secs, tail)) == Err(Panic)
            <==> var i := FirstTable(secs, 0); i.Some? && secs[i.value].offset + secs[i.value].size >= TWO_64
  {
    ImageReads(h, progs, secs, tail);
    ImageSays(h, progs, secs, tail);
  }

  // ----- Plain files -----

  // The header of a file with `n` program headers and `m` sections.
  function PlainHeader(entry: nat, n: nat, m: nat): FileHeader {
    FileHeader([0x7f, 0x45, 0x4c, 0x46], 2, 1, 2, entry, 64, 56, n, 64 + n * 56, 64, m)
  }

  function LoadHeader(seg: Segment): Program {
    Program(1, if seg.exec then 5 else 6, seg.offset, seg.vaddr, seg.vaddr, seg.filesz, seg.memsz, 0x1000)
  }

  function LoadHeaders(segs: seq<Segment>): (progs: seq<Program>)
    ensures |progs| == |segs|
  {
    if segs == [] then [] else [LoadHeader(segs[0])] + LoadHeaders(segs[1..])
  }

  /** A file that holds program headers for the segments, section headers and nothing else. */
  function PlainFile(entry: nat, segs: seq<Segment>, secs: seq<Section>): seq<Byte> {
    Image(PlainHeader(entry, |segs|, |secs|), LoadHeaders(segs), secs, [])
  }

  predicate SegmentFits(seg: Segment) {
    seg.vaddr < TWO_64 && seg.offset < TWO_64 && seg.filesz < TWO_64 && seg.memsz < TWO_64
  }

  predicate SegmentsFit(segs: seq<Segment>) {
    forall i :: 0 <= i < |segs| ==> SegmentFits(segs[i])
  }

  lemma {:induction false} LoadsOfHeaders(segs: seq<Segment>)
    requires SegmentsFit(segs)
    ensures LoadsOf(LoadHeaders(segs)) == segs
    ensures forall i :: 0 <= i < |segs| ==> ProgramFits(LoadHeaders(segs)[i])
  {
    if segs != [] {
      LoadsOfHeaders(segs[1..]);
      var progs := LoadHeaders(segs);
      assert progs[0] == LoadHeader(segs[0]) && progs[1..] == LoadHeaders(segs[1..]);
      forall i | 0 <= i < |segs| ensures ProgramFits(progs[i]) { if i > 0 { assert progs[i] == progs[1..][i - 1]; } }
    }
  }

  lemma PlainPoints(h: FileHeader, progs: seq<Program>, secs: seq<Section>, len: nat)
    requires h == PlainHeader(h.entry, |progs|, |secs|) && len == SectionsAt(progs) + |secs| * SHDR_SIZE
    ensures Points(h, progs, secs, len) && HeaderVerdict(h, len).None? && h.shoff == SectionsAt(progs)
  {
  }

  lemma PlainIsSound(entry: nat, segs: seq<Segment>, secs: seq<Section>)
    requires entry < TWO_64 && |segs| < 0x1_0000 && |secs| < 0x1_0000 && SegmentsFit(segs)
    requires forall i :: 0 <= i < |secs| ==> FieldsFit(secs[i])
    ensures var h, progs := PlainHeader(entry, |segs|, |secs|), LoadHeaders(segs);
            && Sound(h, progs, secs, |PlainFile(entry, segs, secs)|) && h.shoff == SectionsAt(progs)
            && |PlainFile(entry, segs, secs)| == SectionsAt(progs) + |secs| * SHDR_SIZE
  {
    var h, progs, len := PlainHeader(entry, |segs|, |secs|), LoadHeaders(segs), |PlainFile(entry, segs, secs)|;
    LoadsOfHeaders(segs);
    ImageSays(h, progs, secs, []);
    PlainPoints(h, progs, secs, len);
  }

  /** The reader gives one to sixteen sound segments of such a file back as they were. */
  lemma PlainReads(entry: nat, segs: seq<Segment>)
    requires entry < TWO_64 && 1 <= |segs| <= 16 && SegmentsFit(segs)
    requires forall i :: 0 <= i < |segs| ==> !Unsound(segs[i], |PlainFile(entry, segs, [])|)
    ensures Reading(PlainFile(entry, segs, [])) == Ok(Elf(entry, segs, None))
    ensures |PlainFile(entry, segs, [])| == 64 + |segs| * 56
  {
    PlainIsSound(entry, segs, []);
    LoadsOfHeaders(segs);
    ImageReads(PlainHeader(entry, |segs|, 0), LoadHeaders(segs), [], []);
  }

  /** A file that panics the reader: one page of text and a symbol table at the last
      address. */
  lemma TableEndOverflows(segs: seq<Segment>, secs: seq<Section>)
    requires segs == [Segment(0x10_0000, 0, 0, 1, true)] && secs == [Section(2, TWO_64 - 1, 24, 0, 24)]
    ensures Reading(PlainFile(0x10_0000, segs, secs)) == Err(Panic)
  {
    PlainIsSound(0x10_0000, segs, secs);
    LoadsOfHeaders(segs);
    OverflowsIff(PlainHeader(0x10_0000, 1, 1), LoadHeaders(segs), secs, []);
  }

  // ----- Cut files -----

  lemma {:induction false} CutField(b: seq<Byte>, n: nat, off: nat, k: nat)
    requires off + k <= n <= |b|
    ensures Field(b[..n], off, k) == Field(b, off, k)
    decreases k
  {
    if k > 0 { CutField(b, n, off + 1, k - 1); }
  }

  /** A sound file cut anywhere before the end of its program headers is refused as too
      short. */
  lemma CutRefused(h: FileHeader, progs: seq<Program>, secs: seq<Section>, tail: seq<Byte>, n: nat)
    requires Sound(h, progs, secs, |Image(h, progs, secs, tail)|) && progs != [] && n < SectionsAt(progs)
    ensures n < |Image(h, progs, secs, tail)| && Reading(Image(h, progs, secs, tail)[..n]) == Err(Truncated)
  {
    var b := Image(h, progs, secs, tail);
    ImageSays(h, progs, secs, tail);
    if 16 <= n { assert b[..n][..4] == b[..4] && b[..n][4] == b[4] && b[..n][5] == b[5]; }
    if EHDR_SIZE <= n {
      CutField(b, n, 16, 2);
      CutField(b, n, 32, 8);
      CutField(b, n, 54, 2);
      CutField(b, n, 56, 2);
    }
  }
}
