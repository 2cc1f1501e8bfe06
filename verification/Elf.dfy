/** The ELF64 reader (port/src/elf.rs): loadable segments and the symbol table. */
module Elf {
  import opened Prelude
  import opened Arith

  const MAX_SEGMENTS := 16
  const EHDR_SIZE := 64
  const PHDR_SIZE := 56
  const SHDR_SIZE := 64
  const SHT_SYMTAB := 2
  const SYMENT_SIZE := 24

  // `Panic` is an arithmetic overflow in the reader.
  datatype ElfError =
    | NotElf | Not64 | WrongEndian | NotExec | NoLoadSegment | Truncated | BadSegment | TooManySegments | Panic

  datatype Segment = Segment(vaddr: nat, offset: nat, filesz: nat, memsz: nat, exec: bool)

  datatype SymTable = SymTable(offset: nat, nsyms: nat, strtabOffset: nat)

  datatype Elf = Elf(entry: nat, segments: seq<Segment>, symtab: Option<SymTable>)

  // The little-endian number of `n` bytes at `off`.
  function Field(elf: seq<Byte>, off: nat, n: nat): nat
    requires off + n <= |elf|
    decreases |elf| - off
  {
    if n == 0 then 0 else elf[off] + 256 * Field(elf, off + 1, n - 1)
  }

  // The same where it may run past the end.
  function ReadLe(elf: seq<Byte>, off: nat, n: nat): Result<nat, ElfError> {
    if off + n > |elf| then Err(Truncated) else Ok(Field(elf, off, n))
  }

  // ----- What the file says -----

  function Magic(): seq<Byte> { [0x7f, 0x45, 0x4c, 0x46] }

  function ProgramHeaders(elf: seq<Byte>): nat
    requires |elf| >= EHDR_SIZE
  {
    Field(elf, 32, 8)
  }

  function HeaderCount(elf: seq<Byte>): nat
    requires |elf| >= EHDR_SIZE
  {
    Field(elf, 56, 2)
  }

  function HeaderBase(elf: seq<Byte>, i: nat): nat
    requires |elf| >= EHDR_SIZE
  {
    ProgramHeaders(elf) + i * PHDR_SIZE
  }

  /** The first complaint about the file header and the place of the program headers. */
  function HeaderError(elf: seq<Byte>): Option<ElfError> {
    if |elf| < 16 then Some(Truncated)
    else if elf[..4] != Magic() then Some(NotElf)
    else if elf[4] != 2 then Some(Not64)
    else if elf[5] != 1 then Some(WrongEndian)
    else if |elf| < EHDR_SIZE then Some(Truncated)
    else if Field(elf, 16, 2) != 2 then Some(NotExec)
    else if HeaderCount(elf) > 0 && (Field(elf, 54, 2) != PHDR_SIZE || HeaderBase(elf, HeaderCount(elf)) > |elf|)
    then Some(Truncated)
    else None
  }

  ghost predicate TableFits(elf: seq<Byte>) {
    |elf| >= EHDR_SIZE && forall i: nat :: i < HeaderCount(elf) ==> HeaderFits(elf, i)
  }

  ghost predicate HeaderFits(elf: seq<Byte>, i: nat)
    requires |elf| >= EHDR_SIZE
  {
    HeaderBase(elf, i) + PHDR_SIZE <= |elf|
  }

  predicate IsLoad(elf: seq<Byte>, base: nat)
    requires base + PHDR_SIZE <= |elf|
  {
    Field(elf, base, 4) == 1
  }

  function SegmentAt(elf: seq<Byte>, base: nat): Segment
    requires base + PHDR_SIZE <= |elf|
  {
    Segment(Field(elf, base + 16, 8), Field(elf, base + 8, 8), Field(elf, base + 32, 8), Field(elf, base + 40, 8),
            Field(elf, base + 4, 4) % 2 == 1)
  }

  /** The file part is inside the file and no larger than the memory part. */
  predicate SegmentOk(seg: Segment, len: nat) {
    seg.filesz <= seg.memsz && seg.offset + seg.filesz <= len
  }

  /** The loadable segments among the program headers from `i` on, in order. */
  ghost function LoadsFrom(elf: seq<Byte>, i: nat): seq<Segment>
    requires TableFits(elf)
    decreases HeaderCount(elf) - i
  {
    if i >= HeaderCount(elf) then []
    else
      assert HeaderFits(elf, i);
      (if IsLoad(elf, HeaderBase(elf, i)) then [SegmentAt(elf, HeaderBase(elf, i))] else []) + LoadsFrom(elf, i + 1)
  }

  /** The first complaint about segments `k` on, where there is room for sixteen. */
  ghost function SegmentsError(segs: seq<Segment>, k: nat, len: nat): Option<ElfError>
    decreases |segs| - k
  {
    if k >= |segs| then None
    else if !SegmentOk(segs[k], len) then Some(BadSegment)
    else if k >= MAX_SEGMENTS then Some(TooManySegments)
    else SegmentsError(segs, k + 1, len)
  }

  /** No complaint exactly when all are sound and there are at most sixteen. */
  lemma {:induction false} SegmentsSound(segs: seq<Segment>, k: nat, len: nat)
    requires k <= |segs| && k <= MAX_SEGMENTS
    ensures SegmentsError(segs, k, len).None?
            <==> |segs| <= MAX_SEGMENTS && forall i :: k <= i < |segs| ==> SegmentOk(segs[i], len)
    decreases |segs| - k
  {
    if k < |segs| && SegmentOk(segs[k], len) && k < MAX_SEGMENTS { SegmentsSound(segs, k + 1, len); }
  }

  // ----- The symbol table -----

  function SectionCount(elf: seq<Byte>): nat
    requires |elf| >= EHDR_SIZE
  {
    Field(elf, 60, 2)
  }

  function SectionBase(elf: seq<Byte>, i: nat): nat
    requires |elf| >= EHDR_SIZE
  {
    Field(elf, 40, 8) + i * SHDR_SIZE
  }

  predicate HasSections(elf: seq<Byte>)
    requires |elf| >= EHDR_SIZE
  {
    SectionCount(elf) > 0 && Field(elf, 40, 8) > 0 && Field(elf, 58, 2) == SHDR_SIZE
  }

  ghost predicate SectionFits(elf: seq<Byte>, i: nat)
    requires |elf| >= EHDR_SIZE
  {
    SectionBase(elf, i) + SHDR_SIZE <= |elf|
  }

  ghost predicate SectionsFit(elf: seq<Byte>) {
    |elf| >= EHDR_SIZE && forall i: nat :: i < SectionCount(elf) ==> SectionFits(elf, i)
  }

  // A symbol table with entries of the right size and an existing linked section.
  predicate IsSymtab(elf: seq<Byte>, base: nat)
    requires |elf| >= EHDR_SIZE && base + SHDR_SIZE <= |elf|
  {
    && Field(elf, base + 4, 4) == SHT_SYMTAB && Field(elf, base + 56, 8) == SYMENT_SIZE
    && Field(elf, base + 40, 4) < SectionCount(elf)
  }

  /** The first such section at or after `i`. */
  ghost function FirstSymtab(elf: seq<Byte>, i: nat): (r: Option<nat>)
    requires SectionsFit(elf)
    ensures r.Some? ==>
      i <= r.value < SectionCount(elf) && SectionFits(elf, r.value) && IsSymtab(elf, SectionBase(elf, r.value))
    decreases SectionCount(elf) - i
  {
    if i >= SectionCount(elf) then None
    else
      assert SectionFits(elf, i);
      if IsSymtab(elf, SectionBase(elf, i)) then Some(i) else FirstSymtab(elf, i + 1)
  }

  // What the section at `base` gives: a table inside the file, none, or an overflow.
  function TableAt(elf: seq<Byte>, base: nat, strtab: nat): Result<Option<SymTable>, ElfError>
    requires base + SHDR_SIZE <= |elf| && strtab + SHDR_SIZE <= |elf|
  {
    var offset, size, strtabOffset := Field(elf, base + 24, 8), Field(elf, base + 32, 8), Field(elf, strtab + 24, 8);
    if offset + size >= TWO_64 then Err(Panic)
    else if offset + size <= |elf| && strtabOffset <= |elf|
    then Ok(Some(SymTable(offset, size / SYMENT_SIZE, strtabOffset)))
    else Ok(None)
  }

  lemma SectionsAllFit(elf: seq<Byte>)
    requires |elf| >= EHDR_SIZE && SectionBase(elf, SectionCount(elf)) <= |elf|
    ensures SectionsFit(elf)
  {
    forall i: nat | i < SectionCount(elf) ensures SectionFits(elf, i) {
      MulMono(i + 1, SectionCount(elf), SHDR_SIZE);
      MulStep(i, SHDR_SIZE);
    }
  }

  /** The verdict on the sections: no usable symbol table is not an error. */
  ghost function SymtabVerdict(elf: seq<Byte>): Result<Option<SymTable>, ElfError>
    requires |elf| >= EHDR_SIZE
  {
    if !HasSections(elf) then Ok(None)
    else if SectionBase(elf, SectionCount(elf)) >= TWO_64 then Err(Truncated)
    else if SectionBase(elf, SectionCount(elf)) > |elf| then Ok(None)
    else
      SectionsAllFit(elf);
      var i := FirstSymtab(elf, 0);
      if i.None? then Ok(None)
      else
        var base := SectionBase(elf, i.value);
        assert SectionFits(elf, Field(elf, base + 40, 4));
        TableAt(elf, base, SectionBase(elf, Field(elf, base + 40, 4)))
  }

  /** The verdict on a file. */
  ghost function Reading(elf: seq<Byte>): Result<Elf, ElfError> {
    if HeaderError(elf).Some? then Err(HeaderError(elf).value)
    else
      HeadersFit(elf);
      var segs := LoadsFrom(elf, 0);
      if SegmentsError(segs, 0, |elf|).Some? then Err(SegmentsError(segs, 0, |elf|).value)
      else if segs == [] then Err(NoLoadSegment)
      else if SymtabVerdict(elf).Err? then Err(SymtabVerdict(elf).error)
      else Ok(Elf(Field(elf, 24, 8), segs, SymtabVerdict(elf).value))
  }

  lemma HeadersFit(elf: seq<Byte>)
    requires HeaderError(elf).None?
    ensures TableFits(elf)
  {
    forall i: nat | i < HeaderCount(elf) ensures HeaderFits(elf, i) {
      MulMono(i + 1, HeaderCount(elf), PHDR_SIZE);
      MulStep(i, PHDR_SIZE);
    }
  }

  // ----- The reader -----

  method Parse(elf: seq<Byte>) returns (r: Result<Elf, ElfError>)
    requires |elf| < TWO_64
    ensures r == Reading(elf)
  {
    if |elf| < 16 { return Err(Truncated); }
    if elf[..4] != Magic() { return Err(NotElf); }
    if elf[4] != 2 { return Err(Not64); }
    if elf[5] != 1 { return Err(WrongEndian); }
    if |elf| < EHDR_SIZE { return Err(Truncated); }
    var eType := ReadLe(elf, 16, 2);
    if eType != Ok(2) { return Err(NotExec); }
    var entry := Field(elf, 24, 8);
    var phoff := Field(elf, 32, 8);
    var phentsize := Field(elf, 54, 2);
    var phnum := Field(elf, 56, 2);
    if phnum > 0 {
      if phentsize != PHDR_SIZE { return Err(Truncated); }
      var tableEnd := phoff + phnum * PHDR_SIZE;
      if tableEnd >= TWO_64 { return Err(Truncated); }
      if tableEnd > |elf| { return Err(Truncated); }
    }
    HeadersFit(elf);
    var segments := ReadSegments(elf, phoff, phnum);
    if segments.Err? { return Err(segments.error); }
    var symtab := ReadSections(elf, Field(elf, 40, 8), Field(elf, 58, 2), Field(elf, 60, 2));
    if symtab.Err? { return Err(symtab.error); }
    r := Ok(Elf(entry, segments.value, symtab.value));
  }

  // The search for the symbol table.
  method ReadSections(elf: seq<Byte>, shoff: nat, shentsize: nat, shnum: nat)
    returns (r: Result<Option<SymTable>, ElfError>)
    requires |elf| >= EHDR_SIZE && shoff == Field(elf, 40, 8) && shentsize == Field(elf, 58, 2)
    requires shnum == SectionCount(elf)
    ensures r == SymtabVerdict(elf)
  {
    if !(shnum > 0 && shoff > 0 && shentsize == SHDR_SIZE) { return Ok(None); }
    var tableEnd := shoff + shnum * SHDR_SIZE;
    if tableEnd >= TWO_64 { return Err(Truncated); }
    if tableEnd > |elf| { return Ok(None); }
    SectionsAllFit(elf);
    var i := FindSymtab(elf, shoff, shnum);
    if i.None? { return Ok(None); }
    var base := shoff + i.value * SHDR_SIZE;
    var link := Field(elf, base + 40, 4);
    assert SectionFits(elf, link);
    return TableAt(elf, base, shoff + link * SHDR_SIZE);
  }

  // The loop over the section headers.
  method FindSymtab(elf: seq<Byte>, shoff: nat, shnum: nat) returns (r: Option<nat>)
    requires SectionsFit(elf) && shoff == Field(elf, 40, 8) && shnum == SectionCount(elf)
    ensures r == FirstSymtab(elf, 0)
  {
    var i: nat := 0;
    while i < shnum
      invariant i <= shnum && FirstSymtab(elf, 0) == FirstSymtab(elf, i)
    {
      assert SectionFits(elf, i);
      var base := shoff + i * SHDR_SIZE;
      if Field(elf, base + 4, 4) == SHT_SYMTAB && Field(elf, base + 56, 8) == SYMENT_SIZE
         && Field(elf, base + 40, 4) < shnum
      {
        return Some(i);
      }
      i := i + 1;
    }
    return None;
  }

  // The loop over the program headers.
  method ReadSegments(elf: seq<Byte>, phoff: nat, phnum: nat) returns (r: Result<seq<Segment>, ElfError>)
    requires TableFits(elf) && phoff == ProgramHeaders(elf) && phnum == HeaderCount(elf)
    ensures var segs := LoadsFrom(elf, 0);
            r == if SegmentsError(segs, 0, |elf|).Some? then Err(SegmentsError(segs, 0, |elf|).value)
                 else if segs == [] then Err(NoLoadSegment) else Ok(segs)
  {
    var segments: seq<Segment> := [];
    var i: nat := 0;
    ReadNone(elf);
    while i < phnum
      invariant i <= phnum && ReadSoFar(elf, i, segments)
    {
      assert HeaderFits(elf, i);
      var one := ReadHeader(elf, phoff + i * PHDR_SIZE, |segments|, i, segments);
      if one.Err? { return Err(one.error); }
      if one.value.Some? { segments := segments + [one.value.value]; }
      i := i + 1;
    }
    ReadAll(elf, segments);
    if |segments| == 0 { return Err(NoLoadSegment); }
    return Ok(segments);
  }

  // One program header, with `n` segments read so far.
  method ReadHeader(elf: seq<Byte>, base: nat, n: nat, ghost i: nat, ghost segments: seq<Segment>)
    returns (r: Result<Option<Segment>, ElfError>)
    requires TableFits(elf) && i < HeaderCount(elf) && base == HeaderBase(elf, i) && HeaderFits(elf, i)
    requires n == |segments| && ReadSoFar(elf, i, segments)
    ensures r.Err? ==> SegmentsError(LoadsFrom(elf, 0), 0, |elf|) == Some(r.error)
    ensures r.Ok? ==> ReadSoFar(elf, i + 1, if r.value.Some? then segments + [r.value.value] else segments)
  {
    ReadNext(elf, i, segments);
    if !IsLoad(elf, base) { return Ok(None); }
    var seg := SegmentAt(elf, base);
    if seg.filesz > seg.memsz { return Err(BadSegment); }
    if seg.offset + seg.filesz > |elf| { return Err(BadSegment); }
    if n == MAX_SEGMENTS { return Err(TooManySegments); }
    return Ok(Some(seg));
  }

  ghost function HeaderVerdict(elf: seq<Byte>, base: nat, n: nat): Result<Option<Segment>, ElfError>
    requires base + PHDR_SIZE <= |elf|
  {
    if !IsLoad(elf, base) then Ok(None)
    else if !SegmentOk(SegmentAt(elf, base), |elf|) then Err(BadSegment)
    else if n == MAX_SEGMENTS then Err(TooManySegments)
    else Ok(Some(SegmentAt(elf, base)))
  }

  // The segments of the headers before `i` are read and none was refused.
  ghost predicate ReadSoFar(elf: seq<Byte>, i: nat, segments: seq<Segment>)
    requires TableFits(elf)
  {
    var all := LoadsFrom(elf, 0);
    && |segments| <= MAX_SEGMENTS && all == segments + LoadsFrom(elf, i)
    && SegmentsError(all, 0, |elf|) == SegmentsError(all, |segments|, |elf|)
  }

  lemma ReadNone(elf: seq<Byte>)
    requires TableFits(elf)
    ensures ReadSoFar(elf, 0, [])
  {
    assert [] + LoadsFrom(elf, 0) == LoadsFrom(elf, 0);
  }

  lemma ReadAll(elf: seq<Byte>, segments: seq<Segment>)
    requires TableFits(elf) && ReadSoFar(elf, HeaderCount(elf), segments)
    ensures LoadsFrom(elf, 0) == segments && SegmentsError(segments, 0, |elf|) == None
  {
    assert segments + [] == segments;
  }

  lemma ReadNext(elf: seq<Byte>, i: nat, segments: seq<Segment>)
    requires TableFits(elf) && i < HeaderCount(elf) && ReadSoFar(elf, i, segments)
    ensures HeaderFits(elf, i)
    ensures match HeaderVerdict(elf, HeaderBase(elf, i), |segments|)
            case Err(e) => SegmentsError(LoadsFrom(elf, 0), 0, |elf|) == Some(e)
            case Ok(one) => ReadSoFar(elf, i + 1, if one.Some? then segments + [one.value] else segments)
  {
    var all := LoadsFrom(elf, 0);
    LoadsNext(elf, i, segments, all);
    if IsLoad(elf, HeaderBase(elf, i)) { ErrorNext(all, |segments|, |elf|); }
  }

  lemma LoadsNext(elf: seq<Byte>, i: nat, segments: seq<Segment>, all: seq<Segment>)
    requires TableFits(elf) && i < HeaderCount(elf) && all == segments + LoadsFrom(elf, i)
    ensures HeaderFits(elf, i)
    ensures var base := HeaderBase(elf, i);
            if IsLoad(elf, base)
            then |segments| < |all| && all[|segments|] == SegmentAt(elf, base)
                 && all == (segments + [SegmentAt(elf, base)]) + LoadsFrom(elf, i + 1)
            else all == segments + LoadsFrom(elf, i + 1)
  {
    assert HeaderFits(elf, i);
    var rest := LoadsFrom(elf, i + 1);
    if IsLoad(elf, HeaderBase(elf, i)) {
      var seg := SegmentAt(elf, HeaderBase(elf, i));
      assert segments + ([seg] + rest) == (segments + [seg]) + rest;
    } else {
      assert [] + rest == rest;
    }
  }

  lemma ErrorNext(segs: seq<Segment>, k: nat, len: nat)
    requires k < |segs|
    ensures SegmentsError(segs, k, len) == if !SegmentOk(segs[k], len) then Some(BadSegment)
                                           else if k >= MAX_SEGMENTS then Some(TooManySegments)
                                           else SegmentsError(segs, k + 1, len)
  {
  }

  /** Every accepted file has between one and sixteen segments, each with its file
      part inside the file. */
  lemma AcceptedIsSound(elf: seq<Byte>, i: nat)
    requires Reading(elf).Ok?
    ensures var segs := Reading(elf).value.segments;
            1 <= |segs| <= MAX_SEGMENTS && (i < |segs| ==> SegmentOk(segs[i], |elf|))
  {
    HeadersFit(elf);
    SegmentsSound(LoadsFrom(elf, 0), 0, |elf|);
  }

  /** An accepted symbol table lies inside the file, entry by entry, and its names
      start inside it. */
  lemma SymbolsInside(elf: seq<Byte>, k: nat)
    requires Reading(elf).Ok? && Reading(elf).value.symtab.Some? && k < Reading(elf).value.symtab.value.nsyms
    ensures var tab := Reading(elf).value.symtab.value;
            tab.offset + (k + 1) * SYMENT_SIZE <= |elf| && tab.strtabOffset <= |elf|
  {
    SectionsAllFit(elf);
    var base := SectionBase(elf, FirstSymtab(elf, 0).value);
    var tab := Reading(elf).value.symtab.value;
    DivBelow(Field(elf, base + 32, 8), SYMENT_SIZE);
    MulMono(k + 1, tab.nsyms, SYMENT_SIZE);
  }
}
