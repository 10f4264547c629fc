/** `matcher.py`: synthesising a relocatable ELF object that holds one function, and what the parser
    reads back from it. */
module ReferenceObject {
  import opened Prelude
  import opened Bits
  import opened ByteStrings
  import opened ElfModel
  import opened ElfParser
  import opened ElfCodec
  import Placement

  datatype Instruction = Instruction(address: int, word: int)

  /** The name is already encoded. */
  datatype Function = Function(name: Bytes, address: int, instructions: seq<Instruction>)

  datatype BuildError = NoInstructions | NotContiguous(index: int) | NulInName | ValueTooWide

  // ---- struct.pack ----

  /** `struct.pack("<nI", ...)`. */
  function Words(values: seq<nat>): (r: Bytes)
    ensures |r| == 4 * |values|
  {
    PackWords(values, true)
  }

  /** `struct.pack("<nH", ...)`. */
  function Halves(values: seq<nat>): (r: Bytes)
    ensures |r| == 2 * |values|
  {
    PackHalves(values, true)
  }

  lemma {:induction false} WordAt(values: seq<nat>, k: nat)
    requires k < |values| && IsWord(values[k])
    ensures LE(Words(values)[4 * k..4 * k + 4]) == values[k]
    decreases k
  {
    hide LE, LEBytes;
    var rest := Words(values[1..]);
    if k == 0 {
      Pow2Words();
      LEBytesRoundTrip(values[0], 4);
      assert Words(values)[0..4] == LEBytes(values[0], 4);
    } else {
      WordAt(values[1..], k - 1);
      assert Words(values)[4 * k..4 * k + 4] == rest[4 * (k - 1)..4 * (k - 1) + 4];
    }
  }

  lemma {:induction false} HalfAt(values: seq<nat>, k: nat)
    requires k < |values| && values[k] < 0x1_0000
    ensures LE(Halves(values)[2 * k..2 * k + 2]) == values[k]
    decreases k
  {
    hide LE, LEBytes;
    var rest := Halves(values[1..]);
    if k == 0 {
      Pow2Words();
      LEBytesRoundTrip(values[0], 2);
      assert Halves(values)[0..2] == LEBytes(values[0], 2);
    } else {
      HalfAt(values[1..], k - 1);
      assert Halves(values)[2 * k..2 * k + 2] == rest[2 * (k - 1)..2 * (k - 1) + 2];
    }
  }

  // ---- The pieces ----

  function TextName(): Bytes {
    [0x2E, 0x74, 0x65, 0x78, 0x74]
  }

  function SymtabName(): Bytes {
    [0x2E, 0x73, 0x79, 0x6D, 0x74, 0x61, 0x62]
  }

  function StrtabName(): Bytes {
    [0x2E, 0x73, 0x74, 0x72, 0x74, 0x61, 0x62]
  }

  function ShstrtabName(): Bytes {
    [0x2E, 0x73, 0x68, 0x73, 0x74, 0x72, 0x74, 0x61, 0x62]
  }

  /** The four section names, each closed by a NUL, after a leading NUL: 33 bytes. */
  function Shstrtab(): (r: Bytes)
    ensures |r| == 33
  {
    [0] + TextName() + [0] + (SymtabName() + [0] + (StrtabName() + [0] + (ShstrtabName() + [0])))
  }

  function Strtab(name: Bytes): (r: Bytes)
    ensures |r| == |name| + 2
  {
    [0] + name + [0]
  }

  /** The null symbol and a global function symbol of section 1. */
  function Symtab(textSize: nat): (r: Bytes)
    ensures |r| == 32
  {
    Repeat(0, 16) + Words([1, 0, textSize]) + [0x12, 0] + Halves([1])
  }

  function FileHeader(shoff: nat): (r: Bytes)
    ensures |r| == 52
  {
    [0x7F, 0x45, 0x4C, 0x46, 1, 1, 1] + Repeat(0, 9) + Halves([1, 8]) + Words([1, 0, 0, shoff, 0])
    + Halves([52, 0, 0, 40, 5, 4])
  }

  datatype Layout = Layout(text: nat, textSize: nat, symtab: nat, strtab: nat, strtabSize: nat, shstrtab: nat, shoff: nat)

  /** Text, symbols and strings back to back from byte 52; the section headers follow at the next
      multiple of four. */
  function LayoutFor(count: nat, nameSize: nat): Layout {
    var shstrtab := 86 + 4 * count + nameSize;
    Layout(52, 4 * count, 52 + 4 * count, 84 + 4 * count, nameSize + 2, shstrtab, (shstrtab + 33 + 3) / 4 * 4)
  }

  function TextRow(l: Layout): seq<nat> {
    [1, 1, 6, 0, l.text, l.textSize, 0, 0, 4, 0]
  }

  function SymtabRow(l: Layout): seq<nat> {
    [7, 2, 0, 0, l.symtab, 32, 3, 1, 4, 16]
  }

  function StrtabRow(l: Layout): seq<nat> {
    [15, 3, 0, 0, l.strtab, l.strtabSize, 0, 0, 1, 0]
  }

  function ShstrtabRow(l: Layout): seq<nat> {
    [23, 3, 0, 0, l.shstrtab, 33, 0, 0, 1, 0]
  }

  function SectionHeaders(l: Layout): (r: Bytes)
    ensures |r| == 200
  {
    Repeat(0, 40) + Words(TextRow(l)) + Words(SymtabRow(l)) + Words(StrtabRow(l)) + Words(ShstrtabRow(l))
  }

  function WordsOf(instructions: seq<Instruction>): (r: seq<nat>)
    requires forall i :: 0 <= i < |instructions| ==> IsWord(instructions[i].word)
    ensures |r| == |instructions| && forall i :: 0 <= i < |r| ==> r[i] == instructions[i].word
  {
    if instructions == [] then []
    else
      assert IsWord(instructions[0].word);
      var word: nat := instructions[0].word;
      [word] + WordsOf(instructions[1..])
  }

  // ---- The whole object ----

  ghost predicate Contiguous(f: Function, n: nat) {
    n <= |f.instructions| && forall i :: 0 <= i < n ==> f.instructions[i].address == f.address + 4 * i
  }

  ghost predicate WordsFit(f: Function) {
    forall i :: 0 <= i < |f.instructions| ==> IsWord(f.instructions[i].word)
  }

  function LayoutOf(f: Function): Layout {
    LayoutFor(|f.instructions|, |f.name|)
  }

  /** The only packed numbers that can overflow are bounded by the offset of the section headers. */
  ghost predicate Buildable(f: Function) {
    && f.instructions != [] && Contiguous(f, |f.instructions|) && WordsFit(f) && 0 !in f.name
    && IsWord(LayoutOf(f).shoff)
  }

  ghost function Object(f: Function): Bytes
    requires WordsFit(f)
  {
    var l := LayoutOf(f);
    FileHeader(l.shoff) + Words(WordsOf(f.instructions)) + Symtab(l.textSize) + Strtab(f.name) + Shstrtab()
    + Repeat(0, l.shoff - l.shstrtab - 33) + SectionHeaders(l)
  }

  ghost predicate Outcome(f: Function, r: Result<Bytes, BuildError>) {
    var n := |f.instructions|;
    match r
    case Ok(data) => Buildable(f) && data == Object(f)
    case Err(NoInstructions) => n == 0
    case Err(NotContiguous(i)) => 0 <= i < n && Contiguous(f, i) && f.instructions[i].address != f.address + 4 * i
    case Err(NulInName) => n > 0 && Contiguous(f, n) && WordsFit(f) && 0 in f.name
    case Err(ValueTooWide) => n > 0 && Contiguous(f, n) && (!WordsFit(f) || (0 !in f.name && !IsWord(LayoutOf(f).shoff)))
  }

  /** Every function has exactly one outcome; building succeeds exactly for buildable functions. */
  lemma OutcomeUnique(f: Function, r: Result<Bytes, BuildError>, q: Result<Bytes, BuildError>)
    requires Outcome(f, r) && Outcome(f, q)
    ensures r == q && (r.Ok? <==> Buildable(f))
  {
    hide Object, LayoutFor, IsWord;
    if r.Err? && q.Err? && r.error.NotContiguous? && q.error.NotContiguous? {
      assert r.error.index == q.error.index;
    }
  }

  function Align(value: nat): (r: nat)
    ensures r == (value + 3) / 4 * 4
  {
    FourIsPower();
    Placement.AlignUpIsCeiling(value, 4);
    assert Placement.Aligned(Placement.AlignUp(value, 4), 4);
    Placement.AlignUp(value, 4)
  }

  lemma FourIsPower()
    ensures IsPow2(4)
  {
    assert Pow2(2) == 4;
  }

  /** `buffer[at:at + len(part)] = part` over bytes already written as `done`. */
  method Paste(buffer: array<Byte>, ghost done: Bytes, at: nat, part: Bytes)
    requires at == |done| && at + |part| <= buffer.Length && buffer[..] == done + Repeat(0, buffer.Length - at)
    modifies buffer
    ensures buffer[..] == done + part + Repeat(0, buffer.Length - at - |part|)
  {
    for i := 0 to |part|
      invariant buffer[..] == done + part[..i] + Repeat(0, buffer.Length - at - i)
    {
      ghost var before := buffer[..];
      buffer[at + i] := part[i];
      PastedOne(before, buffer[..], done, part, i);
    }
    assert part[..|part|] == part;
  }

  lemma PastedOne(before: Bytes, after: Bytes, done: Bytes, part: Bytes, i: nat)
    requires i < |part| && |done| + |part| <= |before|
    requires before == done + part[..i] + Repeat(0, |before| - |done| - i)
    requires after == before[|done| + i := part[i]]
    ensures after == done + part[..i + 1] + Repeat(0, |before| - |done| - i - 1)
  {
    assert part[..i + 1] == part[..i] + [part[i]];
  }

  /** Skipping bytes leaves them zero. */
  lemma ZerosSplit(done: Bytes, n: nat, k: nat)
    requires k <= n
    ensures done + Repeat(0, n) == done + Repeat(0, k) + Repeat(0, n - k)
  {
  }

  /** Fills the zeroed buffer piece by piece. */
  method Assemble(f: Function, l: Layout) returns (data: Bytes)
    requires WordsFit(f) && l == LayoutOf(f)
    ensures data == Object(f)
  {
    hide Words, FileHeader, Symtab, Strtab, Shstrtab, SectionHeaders, WordsOf, Repeat;
    var buffer := new Byte[l.shoff + 200](_ => 0);
    assert buffer[..] == [] + Repeat(0, buffer.Length);
    var text := Words(WordsOf(f.instructions));
    Paste(buffer, [], 0, FileHeader(l.shoff));
    ghost var done := FileHeader(l.shoff);
    assert [] + done == done;
    Paste(buffer, done, l.text, text);
    done := done + text;
    Paste(buffer, done, l.symtab, Symtab(l.textSize));
    done := done + Symtab(l.textSize);
    Paste(buffer, done, l.strtab, Strtab(f.name));
    done := done + Strtab(f.name);
    Paste(buffer, done, l.shstrtab, Shstrtab());
    done := done + Shstrtab();
    ZerosSplit(done, buffer.Length - l.shstrtab - 33, l.shoff - l.shstrtab - 33);
    done := done + Repeat(0, l.shoff - l.shstrtab - 33);
    Paste(buffer, done, l.shoff, SectionHeaders(l));
    done := done + SectionHeaders(l);
    assert buffer[..] == done + Repeat(0, 0) == done;
    data := buffer[..];
  }

  lemma PlannedLayout(f: Function, l: Layout)
    requires var n, m := |f.instructions|, |f.name|;
             l == Layout((52 + 3) / 4 * 4, 4 * n, (52 + 4 * n + 3) / 4 * 4, 52 + 4 * n + 32, m + 2,
                         52 + 4 * n + 32 + m + 2, (52 + 4 * n + 32 + m + 2 + 33 + 3) / 4 * 4)
    ensures l == LayoutOf(f)
  {
  }

  method BuildReferenceObject(f: Function) returns (r: Result<Bytes, BuildError>)
    ensures Outcome(f, r)
  {
    hide Object, IsWord, Align, LayoutFor;
    if |f.instructions| == 0 {
      return Err(NoInstructions);
    }
    var expected := f.address;
    for index := 0 to |f.instructions|
      invariant expected == f.address + 4 * index && Contiguous(f, index)
    {
      if f.instructions[index].address != expected {
        return Err(NotContiguous(index));
      }
      expected := expected + 4;
    }
    if exists i :: 0 <= i < |f.instructions| && !IsWord(f.instructions[i].word) {
      return Err(ValueTooWide);
    }
    if 0 in f.name {
      return Err(NulInName);
    }
    var count, nameSize := |f.instructions|, |f.name|;
    var text := Align(52);
    var symtab := Align(text + 4 * count);
    var strtab := symtab + 32;
    var shstrtab := strtab + nameSize + 2;
    var l := Layout(text, 4 * count, symtab, strtab, nameSize + 2, shstrtab, Align(shstrtab + 33));
    PlannedLayout(f, l);
    if !IsWord(l.shoff) {
      return Err(ValueTooWide);
    }
    var data := Assemble(f, l);
    return Ok(data);
  }

  // ---- Reading it back ----

  /** A field of a piece is read at the piece's offset plus its own. */
  lemma FieldOfPart(data: Bytes, before: Bytes, part: Bytes, after: Bytes, at: nat, width: nat)
    requires data == before + part + after && at + width <= |part|
    ensures Field(data, |before| + at, width, true) == LE(part[at..at + width])
  {
    assert data[|before| + at..|before| + at + width] == part[at..at + width];
  }

  lemma {:induction false} WordField(data: Bytes, before: Bytes, values: seq<nat>, after: Bytes, k: nat)
    requires data == before + Words(values) + after && k < |values| && IsWord(values[k])
    ensures Field(data, |before| + 4 * k, 4, true) == values[k]
  {
    WordAt(values, k);
    FieldOfPart(data, before, Words(values), after, 4 * k, 4);
  }

  lemma HalfField(data: Bytes, before: Bytes, values: seq<nat>, after: Bytes, k: nat)
    requires data == before + Halves(values) + after && k < |values| && values[k] < 0x1_0000
    ensures Field(data, |before| + 2 * k, 2, true) == values[k]
  {
    HalfAt(values, k);
    FieldOfPart(data, before, Halves(values), after, 2 * k, 2);
  }

  function ExpectedHeader(shoff: nat): ElfHeader {
    ElfHeader(1, 8, 1, 0, 0, shoff, 0, 52, 0, 0, 40, 5, 4)
  }

  lemma {:induction false} HeaderReads(data: Bytes, shoff: nat, rest: Bytes)
    requires data == FileHeader(shoff) + rest && IsWord(shoff)
    ensures |data| >= 52 && HeaderAt(data, true) == ExpectedHeader(shoff)
  {
    hide Words, Halves, Field, Repeat;
    var ident: Bytes := [0x7F, 0x45, 0x4C, 0x46, 1, 1, 1] + Repeat(0, 9);
    var kinds: seq<nat>, offsets: seq<nat>, sizes: seq<nat> := [1, 8], [1, 0, 0, shoff, 0], [52, 0, 0, 40, 5, 4];
    var tail := Halves(sizes) + rest;
    assert data == ident + Halves(kinds) + (Words(offsets) + tail);
    HalfField(data, ident, kinds, Words(offsets) + tail, 0);
    HalfField(data, ident, kinds, Words(offsets) + tail, 1);
    var front := ident + Halves(kinds);
    assert data == front + Words(offsets) + tail;
    WordField(data, front, offsets, tail, 0);
    WordField(data, front, offsets, tail, 1);
    WordField(data, front, offsets, tail, 2);
    WordField(data, front, offsets, tail, 3);
    WordField(data, front, offsets, tail, 4);
    SizesRead(data, front + Words(offsets), sizes, rest);
  }

  lemma SizesRead(data: Bytes, front: Bytes, sizes: seq<nat>, rest: Bytes)
    requires data == front + Halves(sizes) + rest && |front| == 40 && sizes == [52, 0, 0, 40, 5, 4]
    ensures Field(data, 40, 2, true) == 52 && Field(data, 42, 2, true) == 0 && Field(data, 44, 2, true) == 0
    ensures Field(data, 46, 2, true) == 40 && Field(data, 48, 2, true) == 5 && Field(data, 50, 2, true) == 4
  {
    hide Halves, Field;
    HalfField(data, front, sizes, rest, 0);
    HalfField(data, front, sizes, rest, 1);
    HalfField(data, front, sizes, rest, 2);
    HalfField(data, front, sizes, rest, 3);
    HalfField(data, front, sizes, rest, 4);
    HalfField(data, front, sizes, rest, 5);
  }

  /** A section header row is read back field by field. */
  lemma {:induction false} RowReads(data: Bytes, before: Bytes, row: seq<nat>, after: Bytes)
    requires data == before + Words(row) + after && |row| == 10
    requires forall k :: 0 <= k < 10 ==> IsWord(row[k])
    ensures RawSectionAt(data, |before|, true)
         == RawSection(row[0], row[1], row[2], row[3], row[4], row[5], row[6], row[7], row[8], row[9])
  {
    hide Words, Field, IsWord;
    forall k | 0 <= k < 10 ensures Field(data, |before| + 4 * k, 4, true) == row[k] {
      WordField(data, before, row, after, k);
    }
    assert Field(data, |before| + 4 * 0, 4, true) == row[0] && Field(data, |before| + 4 * 1, 4, true) == row[1];
    assert Field(data, |before| + 4 * 2, 4, true) == row[2] && Field(data, |before| + 4 * 3, 4, true) == row[3];
    assert Field(data, |before| + 4 * 4, 4, true) == row[4] && Field(data, |before| + 4 * 5, 4, true) == row[5];
    assert Field(data, |before| + 4 * 6, 4, true) == row[6] && Field(data, |before| + 4 * 7, 4, true) == row[7];
    assert Field(data, |before| + 4 * 8, 4, true) == row[8] && Field(data, |before| + 4 * 9, 4, true) == row[9];
  }

  function NullRow(): seq<nat> {
    [0, 0, 0, 0, 0, 0, 0, 0, 0, 0]
  }

  lemma {:induction false} ZeroWords(n: nat)
    ensures Words(seq(n, _ => 0)) == Repeat(0, 4 * n)
    decreases n
  {
    if n > 0 {
      ZeroWords(n - 1);
      assert seq(n, _ => 0 as nat)[1..] == seq(n - 1, _ => 0 as nat);
      ZeroWord();
    }
  }

  lemma ZeroWord()
    ensures LEBytes(0, 4) == [0, 0, 0, 0]
  {
    assert LEBytes(0, 1) == [0] && LEBytes(0, 2) == [0, 0] && LEBytes(0, 3) == [0, 0, 0];
  }

  /** A NUL-terminated string stored in a table is read back from its offset. */
  lemma CStringReads(table: Bytes, before: Bytes, name: Bytes, after: Bytes)
    requires table == before + name + [0] + after && 0 !in name
    ensures ReadCString(table, |before|) == name
  {
    hide UpToNul;
    assert table[|before|..] == name + [0] + after;
    StopsAtNul(name, after);
  }

  lemma {:induction false} StopsAtNul(name: Bytes, after: Bytes)
    requires 0 !in name
    ensures UpToNul(name + [0] + after) == name
    decreases |name|
  {
    if name != [] {
      StopsAtNul(name[1..], after);
      assert (name + [0] + after)[1..] == name[1..] + [0] + after;
    }
  }

  lemma SectionNamesRead()
    ensures ReadCString(Shstrtab(), 0) == [] && ReadCString(Shstrtab(), 1) == TextName()
    ensures ReadCString(Shstrtab(), 7) == SymtabName() && ReadCString(Shstrtab(), 15) == StrtabName()
    ensures ReadCString(Shstrtab(), 23) == ShstrtabName()
  {
    NameLengths();
    hide ReadCString, Shstrtab;
    var table, a, b, c, d := Shstrtab(), TextName(), SymtabName(), StrtabName(), ShstrtabName();
    assert table == [0] + a + [0] + (b + [0] + (c + [0] + (d + [0]))) by {
      TableParts();
    }
    assert table == [] + [] + [0] + (a + [0] + (b + [0] + (c + [0] + (d + [0])))) by {
      TableParts();
    }
    hide *;
    CStringReads(table, [], [], a + [0] + (b + [0] + (c + [0] + (d + [0]))));
    CStringReads(table, [0], a, b + [0] + (c + [0] + (d + [0])));
    var front := [0] + a + [0];
    NextName(table, [0], a, b, c + [0] + (d + [0]));
    CStringReads(table, front, b, c + [0] + (d + [0]));
    NextName(table, front, b, c, d + [0]);
    front := front + b + [0];
    CStringReads(table, front, c, d + [0]);
    NextName(table, front, c, d, []);
    CStringReads(table, front + c + [0], d, []);
  }

  lemma TableParts()
    ensures var a, b, c, d := TextName(), SymtabName(), StrtabName(), ShstrtabName();
            && Shstrtab() == [0] + a + [0] + (b + [0] + (c + [0] + (d + [0])))
            && Shstrtab() == [] + [] + [0] + (a + [0] + (b + [0] + (c + [0] + (d + [0]))))
  {
    var a, b, c, d := TextName(), SymtabName(), StrtabName(), ShstrtabName();
    hide TextName, SymtabName, StrtabName, ShstrtabName;
    var rest := b + [0] + (c + [0] + (d + [0]));
    assert Shstrtab() == [0] + a + [0] + rest;
    assert [0] + a + [0] + rest == [] + [] + [0] + (a + [0] + rest);
  }

  lemma NameLengths()
    ensures |TextName()| == 5 && |SymtabName()| == 7 && |StrtabName()| == 7 && |ShstrtabName()| == 9
    ensures 0 !in TextName() && 0 !in SymtabName() && 0 !in StrtabName() && 0 !in ShstrtabName()
  {
  }

  /** Moving past one name to the next. */
  lemma NextName(table: Bytes, before: Bytes, name: Bytes, next: Bytes, after: Bytes)
    requires table == before + name + [0] + (next + [0] + after)
           || (after == [] && table == before + name + [0] + (next + [0]))
    ensures table == (before + name + [0]) + next + [0] + after
  {
    assert next + [0] + [] == next + [0];
    assert before + name + [0] + (next + [0] + after) == (before + name + [0]) + next + [0] + after;
  }

  // ---- The object in pieces ----

  lemma StandsWhole(data: Bytes, at: nat, part: Bytes)
    requires StandsAt(data, at, part)
    ensures data == data[..at] + part + data[at + |part|..]
  {
  }

  predicate Laid(l: Layout) {
    && l.text == 52 && l.symtab == l.text + l.textSize && l.strtab == l.symtab + 32
    && l.shstrtab == l.strtab + l.strtabSize && l.shstrtab + 33 <= l.shoff && IsWord(l.shoff)
  }

  /** A file in which each piece lies at its planned offset. */
  predicate Built(data: Bytes, l: Layout, words: seq<nat>, name: Bytes) {
    && Laid(l) && |data| == l.shoff + 200 && l.textSize == 4 * |words| && l.strtabSize == |name| + 2
    && StandsAt(data, 0, FileHeader(l.shoff)) && StandsAt(data, l.text, Words(words))
    && StandsAt(data, l.symtab, Symtab(l.textSize)) && StandsAt(data, l.strtab, Strtab(name))
    && StandsAt(data, l.shstrtab, Shstrtab()) && StandsAt(data, l.shoff, SectionHeaders(l))
  }

  lemma ObjectIs(f: Function, l: Layout)
    requires WordsFit(f) && l == LayoutOf(f)
    ensures l.shoff - l.shstrtab - 33 >= 0
    ensures Object(f) == FileHeader(l.shoff) + Words(WordsOf(f.instructions)) + Symtab(l.textSize) + Strtab(f.name)
                         + Shstrtab() + Repeat(0, l.shoff - l.shstrtab - 33) + SectionHeaders(l)
  {
    hide FileHeader, Words, WordsOf, Symtab, Strtab, Shstrtab, Repeat, SectionHeaders, IsWord;
  }

  lemma LayoutLaid(f: Function)
    requires IsWord(LayoutOf(f).shoff)
    ensures Laid(LayoutOf(f))
  {
  }

  lemma ObjectBuilt(f: Function)
    requires WordsFit(f) && IsWord(LayoutOf(f).shoff)
    ensures Built(Object(f), LayoutOf(f), WordsOf(f.instructions), f.name)
  {
    hide FileHeader, Words, WordsOf, Symtab, Strtab, Shstrtab, Repeat, SectionHeaders, IsWord, Object;
    var data, l, words := Object(f), LayoutOf(f), WordsOf(f.instructions);
    var a, b, c, d, e, z, s := FileHeader(l.shoff), Words(words), Symtab(l.textSize),
      Strtab(f.name), Shstrtab(), Repeat(0, l.shoff - l.shstrtab - 33), SectionHeaders(l);
    hide *;
    ObjectIs(f, l);
    LayoutLaid(f);
    WholeStands(data);
    PartsStand(data, 0, a + b + c + d + e + z, s);
    PartsStand(data, 0, a + b + c + d + e, z);
    PartsStand(data, 0, a + b + c + d, e);
    PartsStand(data, 0, a + b + c, d);
    PartsStand(data, 0, a + b, c);
    PartsStand(data, 0, a, b);
    PiecesBuilt(f, data, l, words);
  }

  lemma {:induction false} PiecesBuilt(f: Function, data: Bytes, l: Layout, words: seq<nat>)
    requires WordsFit(f) && l == LayoutOf(f) && words == WordsOf(f.instructions) && Laid(l) && data == Object(f)
    requires StandsAt(data, 0, FileHeader(l.shoff)) && StandsAt(data, 52, Words(words))
    requires StandsAt(data, 52 + |Words(words)|, Symtab(l.textSize))
    requires StandsAt(data, 84 + |Words(words)|, Strtab(f.name))
    requires StandsAt(data, 86 + |Words(words)| + |f.name|, Shstrtab())
    requires StandsAt(data, 119 + |Words(words)| + |f.name| + |Repeat(0, l.shoff - l.shstrtab - 33)|, SectionHeaders(l))
    ensures Built(data, l, words, f.name)
  {
    hide StandsAt, Words, WordsOf, Symtab, Strtab, Shstrtab, SectionHeaders, FileHeader, Repeat;
  }

  lemma RowsHeld(data: Bytes, l: Layout)
    requires StandsAt(data, l.shoff, SectionHeaders(l))
    ensures StandsAt(data, l.shoff, Words(NullRow())) && StandsAt(data, l.shoff + 40, Words(TextRow(l)))
    ensures StandsAt(data, l.shoff + 80, Words(SymtabRow(l))) && StandsAt(data, l.shoff + 120, Words(StrtabRow(l)))
    ensures StandsAt(data, l.shoff + 160, Words(ShstrtabRow(l)))
  {
    ZeroWords(10);
    assert seq(10, _ => 0 as nat) == NullRow();
    var z, a, b, c, d := Repeat(0, 40), Words(TextRow(l)), Words(SymtabRow(l)), Words(StrtabRow(l)), Words(ShstrtabRow(l));
    assert |TextRow(l)| == |SymtabRow(l)| == |StrtabRow(l)| == |ShstrtabRow(l)| == 10;
    hide Words, Repeat, StandsAt, TextRow, SymtabRow, StrtabRow, ShstrtabRow;
    assert SectionHeaders(l) == z + a + b + c + d;
    PartsStand(data, l.shoff, z + a + b + c, d);
    PartsStand(data, l.shoff, z + a + b, c);
    PartsStand(data, l.shoff, z + a, b);
    PartsStand(data, l.shoff, z, a);
  }

  lemma HeldRow(data: Bytes, at: nat, row: seq<nat>)
    requires StandsAt(data, at, Words(row)) && FittingRow(row)
    ensures |row| == 10 && at + 40 <= |data|
    ensures RawSectionAt(data, at, true)
         == RawSection(row[0], row[1], row[2], row[3], row[4], row[5], row[6], row[7], row[8], row[9])
  {
    hide Words, IsWord, RawSectionAt;
    StandsWhole(data, at, Words(row));
    RowReads(data, data[..at], row, data[at + |Words(row)|..]);
  }

  /** The header is accepted and announces five section headers and no program header. */
  lemma {:induction false} HeaderAccepted(data: Bytes, l: Layout, words: seq<nat>, name: Bytes)
    requires Built(data, l, words, name)
    ensures |data| >= 52 && IsLittle(data)
    ensures HeaderAt(data, true) == ExpectedHeader(l.shoff) && HeaderError(data).None?
  {
    hide HeaderAt, FileHeader, Words, Symtab, Strtab, Shstrtab, SectionHeaders, StandsAt;
    StandsWhole(data, 0, FileHeader(l.shoff));
    assert data == FileHeader(l.shoff) + data[52..];
    HeaderReads(data, l.shoff, data[52..]);
    IdentBytes(data, l.shoff);
    assert data[..4] == [0x7F, 0x45, 0x4C, 0x46];
  }

  lemma IdentBytes(data: Bytes, shoff: nat)
    requires StandsAt(data, 0, FileHeader(shoff))
    ensures data[0] == 0x7F && data[1] == 0x45 && data[2] == 0x4C && data[3] == 0x46 && data[4] == 1 && data[5] == 1
  {
    hide Words, Halves, Repeat;
    var h := FileHeader(shoff);
    assert h[0] == 0x7F && h[1] == 0x45 && h[2] == 0x4C && h[3] == 0x46 && h[4] == 1 && h[5] == 1;
    assert forall i :: 0 <= i < 6 ==> data[i] == data[0..|h|][i];
  }

  function ExpectedRaw(l: Layout, i: nat): RawSection
    requires i < 5
  {
    if i == 0 then RawSection(0, 0, 0, 0, 0, 0, 0, 0, 0, 0)
    else if i == 1 then RawSection(1, 1, 6, 0, l.text, l.textSize, 0, 0, 4, 0)
    else if i == 2 then RawSection(7, 2, 0, 0, l.symtab, 32, 3, 1, 4, 16)
    else if i == 3 then RawSection(15, 3, 0, 0, l.strtab, l.strtabSize, 0, 0, 1, 0)
    else RawSection(23, 3, 0, 0, l.shstrtab, 33, 0, 0, 1, 0)
  }

  lemma {:induction false} RowAt(data: Bytes, l: Layout, words: seq<nat>, name: Bytes, i: nat)
    requires Built(data, l, words, name) && i < 5
    ensures HeaderError(data).None? && HeaderAt(data, IsLittle(data)).shnum == 5
    ensures |data| == l.shoff + 200 && EntrySection(data, i) == RawSectionAt(data, l.shoff + i * 40, true)
  {
    hide Laid, HeaderAt, HeaderError, RawSectionAt, StandsAt, Words, SectionHeaders, FileHeader, Symtab, Strtab, Shstrtab;
    HeaderAccepted(data, l, words, name);
  }

  lemma {:induction false} RowsRead(data: Bytes, l: Layout, words: seq<nat>, name: Bytes, i: nat)
    requires Built(data, l, words, name) && i < 5
    ensures HeaderError(data).None? && HeaderAt(data, IsLittle(data)).shnum == 5
    ensures EntrySection(data, i) == ExpectedRaw(l, i)
  {
    hide *;
    RowAt(data, l, words, name, i);
    BuiltRows(data, l, words, name);
    RowsHeld(data, l);
    RowsFit(l);
    if i == 0 {
      HeldRow(data, l.shoff, NullRow());
      RawRow(l, 0);
    } else if i == 1 {
      HeldRow(data, l.shoff + 40, TextRow(l));
      RawRow(l, 1);
    } else if i == 2 {
      HeldRow(data, l.shoff + 80, SymtabRow(l));
      RawRow(l, 2);
    } else if i == 3 {
      HeldRow(data, l.shoff + 120, StrtabRow(l));
      RawRow(l, 3);
    } else {
      HeldRow(data, l.shoff + 160, ShstrtabRow(l));
      RawRow(l, 4);
    }
  }

  lemma BuiltRows(data: Bytes, l: Layout, words: seq<nat>, name: Bytes)
    requires Built(data, l, words, name)
    ensures Laid(l) && StandsAt(data, l.shoff, SectionHeaders(l))
  {
    hide Laid, StandsAt, Words, SectionHeaders, FileHeader, Symtab, Strtab, Shstrtab;
  }

  predicate FittingRow(row: seq<nat>) {
    |row| == 10 && forall k :: 0 <= k < 10 ==> IsWord(row[k])
  }

  lemma {:induction false} RowsFit(l: Layout)
    requires Laid(l)
    ensures FittingRow(NullRow()) && FittingRow(TextRow(l)) && FittingRow(SymtabRow(l))
    ensures FittingRow(StrtabRow(l)) && FittingRow(ShstrtabRow(l))
  {
  }

  lemma RawRow(l: Layout, i: nat)
    requires i < 5
    ensures |NullRow()| == |TextRow(l)| == |SymtabRow(l)| == |StrtabRow(l)| == |ShstrtabRow(l)| == 10
    ensures var row := (if i == 0 then NullRow() else if i == 1 then TextRow(l) else if i == 2 then SymtabRow(l)
                        else if i == 3 then StrtabRow(l) else ShstrtabRow(l));
            ExpectedRaw(l, i)
            == RawSection(row[0], row[1], row[2], row[3], row[4], row[5], row[6], row[7], row[8], row[9])
  {
  }

  function ExpectedSection(l: Layout, i: nat): Section
    requires i < 5
  {
    if i == 0 then Section(0, [], 0, 0, 0, 0, 0, 0, 0, 0, 0, NotLoaded)
    else if i == 1 then Section(1, TextName(), 1, 6, 0, l.text, l.textSize, 0, 0, 4, 0, Executable)
    else if i == 2 then Section(2, SymtabName(), 2, 0, 0, l.symtab, 32, 3, 1, 4, 16, NotLoaded)
    else if i == 3 then Section(3, StrtabName(), 3, 0, 0, l.strtab, l.strtabSize, 0, 0, 1, 0, NotLoaded)
    else Section(4, ShstrtabName(), 3, 0, 0, l.shstrtab, 33, 0, 0, 1, 0, NotLoaded)
  }

  function ExpectedSections(l: Layout): (s: seq<Section>)
    ensures |s| == 5
  {
    seq(5, i requires 0 <= i < 5 => ExpectedSection(l, i))
  }

  lemma RawNamed(l: Layout, i: nat)
    requires i < 5
    ensures NamedSection(ExpectedRaw(l, i), Shstrtab(), i) == ExpectedSection(l, i)
  {
    hide ReadCString, TextName, SymtabName, StrtabName, ShstrtabName, Shstrtab;
    SectionNamesRead();
  }

  lemma {:induction false} NamesTableRead(data: Bytes, l: Layout, words: seq<nat>, name: Bytes)
    requires Built(data, l, words, name)
    ensures HeaderError(data).None? && NameTable(data) == Ok(Shstrtab())
  {
    hide HeaderAt, HeaderError, EntrySection, Words, SectionHeaders, FileHeader, Symtab, Strtab, Shstrtab;
    HeaderAccepted(data, l, words, name);
    RowsRead(data, l, words, name, 4);
    assert StandsAt(data, l.shstrtab, Shstrtab());
    assert Slice(data, l.shstrtab, 33) == Shstrtab();
  }

  lemma {:induction false} SectionRead(data: Bytes, l: Layout, words: seq<nat>, name: Bytes, i: nat)
    requires Built(data, l, words, name) && i < 5
    ensures HeaderError(data).None? && HeaderAt(data, IsLittle(data)).shnum == 5
    ensures SectionDataFits(data, EntrySection(data, i))
    ensures NamedSection(EntrySection(data, i), Shstrtab(), i) == ExpectedSection(l, i)
  {
    hide HeaderAt, HeaderError, EntrySection, Words, SectionHeaders, FileHeader, Symtab, Strtab, Shstrtab, StandsAt,
      ReadCString, ExpectedSection, NamedSection, EntrySection;
    RowsRead(data, l, words, name, i);
    RawNamed(l, i);
  }

  /** The parser accepts every built object and recovers exactly the five planned sections. */
  lemma BuiltParses(data: Bytes, l: Layout, words: seq<nat>, name: Bytes)
    requires Built(data, l, words, name)
    ensures Acceptable(data)
    ensures ImageOf(data) == ElfImage(ExpectedHeader(l.shoff), true, [], ExpectedSections(l), data)
  {
    hide HeaderAt, HeaderError, EntrySection, EntrySegment, Shstrtab, NameTable, NamedSection,
      SectionDataFits, ExpectedSection, Built;
    HeaderAccepted(data, l, words, name);
    NamesTableRead(data, l, words, name);
    forall i: nat | i < 5
      ensures SectionDataFits(data, EntrySection(data, i))
           && NamedSection(EntrySection(data, i), Shstrtab(), i) == ExpectedSection(l, i)
    {
      SectionRead(data, l, words, name, i);
    }
    assert SectionsFit(data, 5) && SegmentsFit(data, 0);
    assert ImageOf(data).programHeaders == [];
    assert ImageOf(data).sections == ExpectedSections(l);
  }

  // ---- What the object says ----

  lemma {:induction false} TextReads(data: Bytes, l: Layout, words: seq<nat>, name: Bytes, k: nat)
    requires Built(data, l, words, name) && k < |words| && IsWord(words[k])
    ensures Field(data, l.text + 4 * k, 4, true) == words[k]
  {
    hide Words, SectionHeaders, FileHeader, Symtab, Strtab, Shstrtab, StandsAt, Field;
    StandsWhole(data, l.text, Words(words));
    WordField(data, data[..l.text], words, data[l.text + |Words(words)|..], k);
  }

  /** The second symbol: name offset, value, size, then type/binding, visibility and section index. */
  lemma SymbolReads(data: Bytes, l: Layout, words: seq<nat>, name: Bytes)
    requires Built(data, l, words, name)
    ensures Field(data, l.symtab + 16, 4, true) == 1 && Field(data, l.symtab + 20, 4, true) == 0
    ensures Field(data, l.symtab + 24, 4, true) == l.textSize && Field(data, l.symtab + 30, 2, true) == 1
  {
    hide Words, Halves, SectionHeaders, FileHeader, Strtab, Shstrtab, Field, Repeat;
    var values: seq<nat> := [1, 0, l.textSize];
    var tail: Bytes := [0x12, 0];
    assert Symtab(l.textSize) == Repeat(0, 16) + Words(values) + tail + Halves([1]);
    hide Symtab, StandsAt;
    PartsStand(data, l.symtab, Repeat(0, 16) + Words(values) + tail, Halves([1]));
    PartsStand(data, l.symtab, Repeat(0, 16) + Words(values), tail);
    PartsStand(data, l.symtab, Repeat(0, 16), Words(values));
    HeldWord(data, l.symtab + 16, values, 0);
    HeldWord(data, l.symtab + 16, values, 1);
    HeldWord(data, l.symtab + 16, values, 2);
    StandsWhole(data, l.symtab + 30, Halves([1]));
    HalfField(data, data[..l.symtab + 30], [1], data[l.symtab + 32..], 0);
  }

  lemma {:induction false} HeldWord(data: Bytes, at: nat, values: seq<nat>, k: nat)
    requires StandsAt(data, at, Words(values)) && k < |values| && IsWord(values[k])
    ensures Field(data, at + 4 * k, 4, true) == values[k]
  {
    hide Words, Field;
    StandsWhole(data, at, Words(values));
    WordField(data, data[..at], values, data[at + |Words(values)|..], k);
  }

  lemma {:induction false} NameReads(data: Bytes, l: Layout, words: seq<nat>, name: Bytes)
    requires Built(data, l, words, name) && 0 !in name
    ensures l.strtab + l.strtabSize <= |data|
    ensures ReadCString(data[l.strtab..l.strtab + l.strtabSize], 1) == name
  {
    hide Words, SectionHeaders, FileHeader, Symtab, Shstrtab, ReadCString;
    assert StandsAt(data, l.strtab, Strtab(name));
    CStringReads(Strtab(name), [0], name, []);
    assert [0] + name + [0] + [] == Strtab(name);
  }

  /** The parsed object: a little-endian MIPS relocatable with five sections back to back from byte 52 and
      their headers at the next multiple of four. */
  ghost predicate Describes(f: Function, image: ElfImage) {
    var n, m := |f.instructions|, |f.name|;
    var symtab, strtab, shstrtab := 52 + 4 * n, 84 + 4 * n, 86 + 4 * n + m;
    var shoff := image.header.shoff;
    && image.header == ElfHeader(1, 8, 1, 0, 0, shoff, 0, 52, 0, 0, 40, 5, 4) && image.littleEndian
    && image.programHeaders == []
    && image.sections == [
         Section(0, [], 0, 0, 0, 0, 0, 0, 0, 0, 0, NotLoaded),
         Section(1, Ascii(".text"), 1, 0x6, 0, 52, 4 * n, 0, 0, 4, 0, Executable),
         Section(2, Ascii(".symtab"), 2, 0, 0, symtab, 32, 3, 1, 4, 16, NotLoaded),
         Section(3, Ascii(".strtab"), 3, 0, 0, strtab, m + 2, 0, 0, 1, 0, NotLoaded),
         Section(4, Ascii(".shstrtab"), 3, 0, 0, shstrtab, 33, 0, 0, 1, 0, NotLoaded)]
    && shoff % 4 == 0 && shstrtab + 33 <= shoff < shstrtab + 37 && |image.rawData| == shoff + 200
    && HoldsInstructions(f, image.rawData) && HoldsSymbol(image.rawData, symtab, 4 * n)
    && StandsAt(image.rawData, strtab, [0] + f.name + [0])
    && ReadCString(image.rawData[strtab..strtab + m + 2], 1) == f.name
  }

  /** Each instruction word stands in the text, little-endian. */
  ghost predicate HoldsInstructions(f: Function, data: Bytes) {
    52 + 4 * |f.instructions| <= |data|
    && forall k :: 0 <= k < |f.instructions| ==> LE(data[52 + 4 * k..52 + 4 * k + 4]) == f.instructions[k].word
  }

  /** After the null symbol: a name at offset 1, value 0, the text size, global (1) binding and function (2)
      type, default visibility, section 1. */
  ghost predicate HoldsSymbol(data: Bytes, at: nat, size: nat) {
    && at + 32 <= |data| && data[at..at + 16] == Repeat(0, 16)
    && LE(data[at + 16..at + 20]) == 1 && LE(data[at + 20..at + 24]) == 0 && LE(data[at + 24..at + 28]) == size
    && data[at + 28] == 0x12 && data[at + 29] == 0 && LE(data[at + 30..at + 32]) == 1
  }

  lemma {:induction false} ObjectParses(f: Function)
    requires Buildable(f)
    ensures Acceptable(Object(f)) && Describes(f, ImageOf(Object(f)))
  {
    hide *;
    BuildableParts(f);
    ObjectBuilt(f);
    BuiltParses(Object(f), LayoutOf(f), WordsOf(f.instructions), f.name);
    BuiltDescribes(f, Object(f), LayoutOf(f), WordsOf(f.instructions));
  }

  lemma BuildableParts(f: Function)
    requires Buildable(f)
    ensures WordsFit(f) && IsWord(LayoutOf(f).shoff) && 0 !in f.name
    ensures forall k :: 0 <= k < |f.instructions| ==> IsWord(f.instructions[k].word)
  {
    hide LayoutFor;
  }

  lemma BuiltDescribes(f: Function, data: Bytes, l: Layout, words: seq<nat>)
    requires Built(data, l, words, f.name) && 0 !in f.name && l == LayoutOf(f)
    requires forall k :: 0 <= k < |f.instructions| ==> IsWord(f.instructions[k].word)
    requires |words| == |f.instructions| && forall k :: 0 <= k < |words| ==> words[k] == f.instructions[k].word
    ensures Describes(f, ElfImage(ExpectedHeader(l.shoff), true, [], ExpectedSections(l), data))
  {
    hide *;
    LayoutIs(f);
    BuiltLength(data, l, words, f.name);
    SymbolHeld(data, l, words, f.name);
    NameReads(data, l, words, f.name);
    TextHeld(f, data, l, words);
    NameHeld(data, l, words, f.name);
    SectionsAre(l);
    DescribedBy(f, ElfImage(ExpectedHeader(l.shoff), true, [], ExpectedSections(l), data), l);
  }

  lemma LayoutIs(f: Function)
    ensures var n, m, l := |f.instructions|, |f.name|, LayoutOf(f);
            && l == Layout(52, 4 * n, 52 + 4 * n, 84 + 4 * n, m + 2, 86 + 4 * n + m, l.shoff)
            && l.shoff % 4 == 0 && l.shstrtab + 33 <= l.shoff < l.shstrtab + 37
  {
  }

  lemma BuiltLength(data: Bytes, l: Layout, words: seq<nat>, name: Bytes)
    requires Built(data, l, words, name)
    ensures |data| == l.shoff + 200
  {
    hide StandsAt;
  }

  lemma DescribedBy(f: Function, image: ElfImage, l: Layout)
    requires var n, m := |f.instructions|, |f.name|;
             && l == Layout(52, 4 * n, 52 + 4 * n, 84 + 4 * n, m + 2, 86 + 4 * n + m, l.shoff)
             && l.shoff % 4 == 0 && l.shstrtab + 33 <= l.shoff < l.shstrtab + 37
    requires image == ElfImage(ExpectedHeader(l.shoff), true, [], image.sections, image.rawData)
    requires image.sections == [
               Section(0, [], 0, 0, 0, 0, 0, 0, 0, 0, 0, NotLoaded),
               Section(1, Ascii(".text"), 1, 0x6, 0, l.text, l.textSize, 0, 0, 4, 0, Executable),
               Section(2, Ascii(".symtab"), 2, 0, 0, l.symtab, 32, 3, 1, 4, 16, NotLoaded),
               Section(3, Ascii(".strtab"), 3, 0, 0, l.strtab, l.strtabSize, 0, 0, 1, 0, NotLoaded),
               Section(4, Ascii(".shstrtab"), 3, 0, 0, l.shstrtab, 33, 0, 0, 1, 0, NotLoaded)]
    requires |image.rawData| == l.shoff + 200 && HoldsInstructions(f, image.rawData)
    requires HoldsSymbol(image.rawData, l.symtab, l.textSize) && StandsAt(image.rawData, l.strtab, [0] + f.name + [0])
    requires l.strtab + l.strtabSize <= |image.rawData|
    requires ReadCString(image.rawData[l.strtab..l.strtab + l.strtabSize], 1) == f.name
    ensures Describes(f, image)
  {
    hide StandsAt, ReadCString, HoldsInstructions, HoldsSymbol, Ascii;
  }

  lemma TextHeld(f: Function, data: Bytes, l: Layout, words: seq<nat>)
    requires Built(data, l, words, f.name) && l.text == 52
    requires forall k :: 0 <= k < |f.instructions| ==> IsWord(f.instructions[k].word)
    requires |words| == |f.instructions| && forall k :: 0 <= k < |words| ==> words[k] == f.instructions[k].word
    ensures HoldsInstructions(f, data)
  {
    hide StandsAt, Words, SectionHeaders, FileHeader, Symtab, Strtab, Shstrtab, LE;
    forall k | 0 <= k < |f.instructions| ensures LE(data[52 + 4 * k..52 + 4 * k + 4]) == f.instructions[k].word {
      TextReads(data, l, words, f.name, k);
    }
  }

  lemma NameHeld(data: Bytes, l: Layout, words: seq<nat>, name: Bytes)
    requires Built(data, l, words, name)
    ensures StandsAt(data, l.strtab, [0] + name + [0])
  {
    hide StandsAt, Words, SectionHeaders, FileHeader, Symtab, Shstrtab;
  }

  lemma SectionsAre(l: Layout)
    ensures ExpectedSections(l) == [
              Section(0, [], 0, 0, 0, 0, 0, 0, 0, 0, 0, NotLoaded),
              Section(1, Ascii(".text"), 1, 0x6, 0, l.text, l.textSize, 0, 0, 4, 0, Executable),
              Section(2, Ascii(".symtab"), 2, 0, 0, l.symtab, 32, 3, 1, 4, 16, NotLoaded),
              Section(3, Ascii(".strtab"), 3, 0, 0, l.strtab, l.strtabSize, 0, 0, 1, 0, NotLoaded),
              Section(4, Ascii(".shstrtab"), 3, 0, 0, l.shstrtab, 33, 0, 0, 1, 0, NotLoaded)]
  {
    NameTexts();
    hide Ascii, TextName, SymtabName, StrtabName, ShstrtabName;
    var s := ExpectedSections(l);
    assert s == [ExpectedSection(l, 0), ExpectedSection(l, 1), ExpectedSection(l, 2), ExpectedSection(l, 3),
                 ExpectedSection(l, 4)];
  }

  lemma NameTexts()
    ensures TextName() == Ascii(".text") && SymtabName() == Ascii(".symtab")
    ensures StrtabName() == Ascii(".strtab") && ShstrtabName() == Ascii(".shstrtab")
  {
  }

  lemma SymbolHeld(data: Bytes, l: Layout, words: seq<nat>, name: Bytes)
    requires Built(data, l, words, name)
    ensures HoldsSymbol(data, l.symtab, l.textSize)
  {
    hide Words, Halves, SectionHeaders, FileHeader, Strtab, Shstrtab, Repeat, LE;
    SymbolReads(data, l, words, name);
    var symbol := Symtab(l.textSize);
    var values: seq<nat> := [1, 0, l.textSize];
    assert symbol == Repeat(0, 16) + Words(values) + [0x12, 0] + Halves([1]);
    assert symbol[..16] == Repeat(0, 16) && symbol[28] == 0x12 && symbol[29] == 0;
    assert data[l.symtab..l.symtab + 32] == symbol;
    assert data[l.symtab..l.symtab + 16] == symbol[..16];
    assert data[l.symtab + 28] == symbol[28] && data[l.symtab + 29] == symbol[29];
  }

  /** Build, then parse: a successful build is always parsed, and describes the function. */
  lemma BuildThenParse(f: Function, data: Bytes, r: Result<ElfImage, ParseError>)
    requires Outcome(f, Ok(data)) && ParsesTo(data, r)
    ensures r.Ok? && Describes(f, r.value)
  {
    hide Object, Describes, Acceptable, ImageOf, Buildable, FirstError;
    ObjectParses(f);
    AcceptedResult(data, r);
  }

  lemma AcceptedResult(data: Bytes, r: Result<ElfImage, ParseError>)
    requires ParsesTo(data, r) && Acceptable(data)
    ensures r == Ok(ImageOf(data))
  {
    hide Acceptable, ImageOf;
    ElfParser.OutcomeUnique(data, r, Ok(ImageOf(data)));
  }

  /** The object determines the function's name and instruction words. */
  lemma {:induction false} ObjectDetermines(f: Function, g: Function)
    requires Buildable(f) && Buildable(g) && Object(f) == Object(g)
    ensures f.name == g.name && |f.instructions| == |g.instructions|
    ensures forall k :: 0 <= k < |f.instructions| ==> f.instructions[k].word == g.instructions[k].word
  {
    hide *;
    BuildableParts(f);
    BuildableParts(g);
    ObjectParses(f);
    ObjectParses(g);
    DescribesSame(f, g, ImageOf(Object(f)));
  }

  lemma DescribesSame(f: Function, g: Function, image: ElfImage)
    requires Describes(f, image) && Describes(g, image)
    ensures f.name == g.name && |f.instructions| == |g.instructions|
    ensures forall k :: 0 <= k < |f.instructions| ==> f.instructions[k].word == g.instructions[k].word
  {
    hide LE, Ascii, HoldsSymbol, StandsAt, ReadCString, HoldsInstructions;
    assert image.sections[1].size == 4 * |f.instructions| == 4 * |g.instructions|;
    assert image.sections[3].size == |f.name| + 2 == |g.name| + 2;
    SameInstructions(f, g, image.rawData);
    SameName(image.rawData, 84 + 4 * |f.instructions|, f.name, g.name);
  }

  lemma SameInstructions(f: Function, g: Function, data: Bytes)
    requires HoldsInstructions(f, data) && HoldsInstructions(g, data) && |f.instructions| == |g.instructions|
    ensures forall k :: 0 <= k < |f.instructions| ==> f.instructions[k].word == g.instructions[k].word
  {
    hide LE;
    forall k | 0 <= k < |f.instructions| ensures f.instructions[k].word == g.instructions[k].word {
      assert LE(data[52 + 4 * k..52 + 4 * k + 4]) == f.instructions[k].word;
    }
  }

  lemma SameName(data: Bytes, at: nat, a: Bytes, b: Bytes)
    requires |a| == |b| && StandsAt(data, at, [0] + a + [0]) && StandsAt(data, at, [0] + b + [0])
    ensures a == b
  {
    var table := data[at..at + |a| + 2];
    assert table[1..1 + |a|] == a && table[1..1 + |b|] == b;
  }
}
