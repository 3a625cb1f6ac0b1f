/** Where the loader finds the fields of an ELF file: struct Elf32_Ehdr and struct Elf32_Phdr
    laid out member by member, as the compiler does. */
module ElfLayout {
  import opened ByteTypes
  import opened Loader

  /** A member of one of the structures: Elf32_Half, or one of the four-byte types. */
  datatype Field = Half(v: int) | Word(v: int)

  ghost predicate IsField(f: Field) { 0 <= f.v < if f.Half? then 0x1_0000 else 0x1_0000_0000 }

  function Len(f: Field): nat { if f.Half? then 2 else 4 }

  /** Its bytes, the lowest first. */
  function Stored(f: Field): (b: Bytes)
    requires 0 <= f.v < if f.Half? then 0x1_0000 else 0x1_0000_0000
    ensures |b| == Len(f)
  {
    if f.Half? then [f.v % 256, f.v / 256] else Le32(f.v)
  }

  ghost predicate AllFields(fields: seq<Field>) { forall i :: 0 <= i < |fields| ==> IsField(fields[i]) }

  /** The bytes of the structure. */
  ghost function Laid(fields: seq<Field>): Bytes
    requires AllFields(fields)
  {
    if fields == [] then [] else Stored(fields[0]) + Laid(fields[1..])
  }

  /** The members before member i take this many bytes. */
  function Offset(fields: seq<Field>, i: nat): nat
    requires i <= |fields|
  {
    if i == 0 then 0 else Offset(fields, i - 1) + Len(fields[i - 1])
  }

  lemma LaidFront(fields: seq<Field>)
    requires AllFields(fields) && fields != []
    ensures IsField(fields[0]) && AllFields(fields[1..]) && Laid(fields) == Stored(fields[0]) + Laid(fields[1..])
    ensures Offset(fields, 0) == 0
  {
    hide Stored;
  }

  lemma FieldStored(fields: seq<Field>, i: nat)
    requires AllFields(fields) && i < |fields|
    ensures 0 <= fields[i].v < if fields[i].Half? then 0x1_0000 else 0x1_0000_0000
  {
    assert IsField(fields[i]);
  }

  /** Member i is at its offset. */
  lemma {:induction false} StoredAt(pre: Bytes, fields: seq<Field>, post: Bytes, i: nat)
    requires AllFields(fields) && i < |fields|
    requires 0 <= fields[i].v < if fields[i].Half? then 0x1_0000 else 0x1_0000_0000
    ensures var file, o := pre + Laid(fields) + post, |pre| + Offset(fields, i);
            o + Len(fields[i]) <= |file| && file[o..o + Len(fields[i])] == Stored(fields[i])
    decreases i
  {
    hide *;
    LaidFront(fields);
    FieldStored(fields, 0);
    var first, rest := Stored(fields[0]), fields[1..];
    Regrouped(pre, first, Laid(rest), post);
    if i > 0 {
      assert rest[i - 1] == fields[i];
      StoredAt(pre + first, rest, post, i - 1);
      OffsetRest(fields, i);
    }
  }

  lemma Regrouped(pre: Bytes, first: Bytes, rest: Bytes, post: Bytes)
    ensures pre + (first + rest) + post == (pre + first) + rest + post
    ensures (pre + (first + rest) + post)[|pre|..|pre| + |first|] == first
  {}

  lemma {:induction false} OffsetRest(fields: seq<Field>, i: nat)
    requires 0 < i <= |fields|
    ensures Offset(fields, i) == Len(fields[0]) + Offset(fields[1..], i - 1)
  {
    if i > 1 { OffsetRest(fields, i - 1); }
  }

  /** What the loader reads there is the member. */
  lemma FieldRead(pre: Bytes, fields: seq<Field>, post: Bytes, i: nat)
    requires AllFields(fields) && i < |fields|
    ensures var file, o := pre + Laid(fields) + post, |pre| + Offset(fields, i);
            o + Len(fields[i]) <= |file| &&
            if fields[i].Half? then HalfAt(file, o) == fields[i].v else WordAt(file, o) == fields[i].v
  {
    FieldStored(fields, i);
    StoredAt(pre, fields, post, i);
    var file, o := pre + Laid(fields) + post, |pre| + Offset(fields, i);
    assert IsField(fields[i]);
    if fields[i].Half? {
      assert file[o..o + 2][0] == file[o] && file[o..o + 2][1] == file[o + 1];
    } else {
      Le32RoundTrip(fields[i].v);
    }
    hide Laid, Offset;
  }

  lemma Offsets(fields: seq<Field>, i: nat)
    requires i < |fields|
    ensures Offset(fields, i + 1) == Offset(fields, i) + Len(fields[i])
  {}

  /** struct Elf32_Phdr. */
  function PhdrFields(p: Phdr, paddr: int, align: int): seq<Field> {
    [Word(p.kind), Word(p.offset), Word(p.vaddr), Word(paddr), Word(p.filesz), Word(p.memsz), Word(p.flags),
    Word(align)]
  }

  /** The program header that lies at some place of a file is the one that load finds there. */
  lemma PhdrFound(pre: Bytes, p: Phdr, paddr: int, align: int, post: Bytes)
    requires Words(p) && Is32(paddr) && Is32(align)
    ensures AllFields(PhdrFields(p, paddr, align))
    ensures var file := pre + Laid(PhdrFields(p, paddr, align)) + post;
            |pre| + 32 <= |file| && PhdrAt(file, |pre|) == p
  {
    var f := PhdrFields(p, paddr, align);
    assert AllFields(f);
    hide Laid, WordAt, Offset, AllFields;
    WordOffset(f, 0);
    WordOffset(f, 1);
    WordOffset(f, 2);
    WordOffset(f, 4);
    WordOffset(f, 5);
    WordOffset(f, 6);
    FieldRead(pre, f, post, 0);
    FieldRead(pre, f, post, 1);
    FieldRead(pre, f, post, 2);
    FieldRead(pre, f, post, 4);
    FieldRead(pre, f, post, 5);
    FieldRead(pre, f, post, 6);
    FieldRead(pre, f, post, 7);
  }

  lemma {:induction false} WordOffset(fields: seq<Field>, i: nat)
    requires i <= |fields| && forall j :: 0 <= j < i ==> fields[j].Word?
    ensures Offset(fields, i) == 4 * i
  {
    if i > 0 { WordOffset(fields, i - 1); }
  }

  /** struct Elf32_Ehdr behind its e_ident. */
  datatype Ehdr = Ehdr(kind: int, machine: int, version: int, entry: int, phoff: int, shoff: int, flags: int,
                       ehsize: int, phentsize: int, phnum: int, shentsize: int, shnum: int, shstrndx: int)

  function EhdrFields(e: Ehdr): seq<Field> {
    [Half(e.kind), Half(e.machine), Word(e.version), Word(e.entry), Word(e.phoff), Word(e.shoff), Word(e.flags),
     Half(e.ehsize), Half(e.phentsize), Half(e.phnum), Half(e.shentsize), Half(e.shnum), Half(e.shstrndx)]
  }

  /** The header that load accepts, and where it finds the entry point and the program headers. */
  lemma EhdrFound(ident: Bytes, e: Ehdr, rest: Bytes)
    requires |ident| == 16 && AllFields(EhdrFields(e))
    ensures var file := ident + Laid(EhdrFields(e)) + rest;
            (HeaderOk(file) <==>
             ident[..7] == [0x7F, 0x45, 0x4C, 0x46, 1, 1, 1] && e.kind == 2 && e.machine == 3 &&
             e.version == 1 && e.phentsize == 32 && e.phnum <= 1024) &&
            |file| >= 52 && WordAt(file, 24) == e.entry && WordAt(file, 28) == e.phoff && HalfAt(file, 44) == e.phnum
  {
    var f := EhdrFields(e);
    var file := ident + Laid(f) + rest;
    EhdrOffsets(e);
    hide Laid, WordAt, HalfAt, Offset, AllFields;
    FieldRead(ident, f, rest, 0);
    FieldRead(ident, f, rest, 1);
    FieldRead(ident, f, rest, 2);
    FieldRead(ident, f, rest, 3);
    FieldRead(ident, f, rest, 4);
    FieldRead(ident, f, rest, 8);
    FieldRead(ident, f, rest, 9);
    FieldRead(ident, f, rest, 12);
    assert file[..7] == ident[..7];
  }

  lemma EhdrOffsets(e: Ehdr)
    ensures var f := EhdrFields(e);
            Offset(f, 0) == 0 && Offset(f, 1) == 2 && Offset(f, 2) == 4 && Offset(f, 3) == 8 && Offset(f, 4) == 12 &&
            Offset(f, 8) == 26 && Offset(f, 9) == 28 && Offset(f, 12) == 34
  {
    var f := EhdrFields(e);
    assert Offset(f, 0) == 0;
    hide Offset;
    Offsets(f, 0);
    Offsets(f, 1);
    Offsets(f, 2);
    Offsets(f, 3);
    Offsets(f, 4);
    Offsets(f, 5);
    Offsets(f, 6);
    Offsets(f, 7);
    Offsets(f, 8);
    Offsets(f, 9);
    Offsets(f, 10);
    Offsets(f, 11);
  }
}
