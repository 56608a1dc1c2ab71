// The STORED-method ZIP container: the writer, an independent reader, and the proof that they
// undo each other. Layout: PKWARE APPNOTE.TXT sections 4.3.7, 4.3.12 and 4.3.16.
module StoredZip {
  import opened Options
  import opened Bytes
  import Crc32

  const LOCAL_SIG: nat := 0x0403_4b50
  const CENTRAL_SIG: nat := 0x0201_4b50
  const END_SIG: nat := 0x0605_4b50

  datatype ZipEntry = ZipEntry(name: seq<byte>, data: seq<byte>, crc: nat, offset: nat)

  // ---- What the writer emits ----

  function LocalHeader(crc: nat, size: nat, nameLen: nat): (h: seq<byte>)
    ensures |h| == 30
  {
    Le(LOCAL_SIG, 4) + Le(20, 2) + Le(0, 2) + Le(0, 2) + Le(0, 2) + Le(0, 2)
      + Le(crc, 4) + Le(size, 4) + Le(size, 4) + Le(nameLen, 2) + Le(0, 2)
  }

  function CentralHeader(crc: nat, size: nat, nameLen: nat, offset: nat): (h: seq<byte>)
    ensures |h| == 46
  {
    Le(CENTRAL_SIG, 4) + Le(20, 2) + Le(20, 2) + Le(0, 2) + Le(0, 2) + Le(0, 2) + Le(0, 2)
      + Le(crc, 4) + Le(size, 4) + Le(size, 4) + Le(nameLen, 2) + Le(0, 2) + Le(0, 2)
      + Le(0, 2) + Le(0, 2) + Le(0, 4) + Le(offset, 4)
  }

  function EndRecord(count: nat, size: nat, start: nat): (h: seq<byte>)
    ensures |h| == 22
  {
    Le(END_SIG, 4) + Le(0, 2) + Le(0, 2) + Le(count, 2) + Le(count, 2) + Le(size, 4) + Le(start, 4) + Le(0, 2)
  }

  function Local(e: ZipEntry): (s: seq<byte>)
    ensures |s| == 30 + |e.name| + |e.data|
  {
    LocalHeader(e.crc, |e.data|, |e.name|) + e.name + e.data
  }

  function Central(e: ZipEntry, offset: nat): (s: seq<byte>)
    ensures |s| == 46 + |e.name|
  {
    CentralHeader(e.crc, |e.data|, |e.name|, offset) + e.name
  }

  function Locals(es: seq<ZipEntry>): seq<byte> {
    if es == [] then [] else Locals(es[..|es| - 1]) + Local(es[|es| - 1])
  }

  function Directory(es: seq<ZipEntry>): seq<byte> {
    if es == [] then []
    else
      var init := es[..|es| - 1];
      Directory(init) + Central(es[|es| - 1], |Locals(init)|)
  }

  function Archive(es: seq<ZipEntry>): seq<byte> {
    Locals(es) + Directory(es) + EndRecord(|es|, |Directory(es)|, |Locals(es)|)
  }

  class Writer {
    var entries: seq<ZipEntry>

    ghost predicate Valid()
      reads this
    {
      Checksummed(Crc32.Crc, entries)
    }

    constructor ()
      ensures Valid() && entries == []
    {
      entries := [];
    }

    method Add(name: seq<byte>, data: seq<byte>)
      requires Valid()
      modifies this
      ensures Valid()
      ensures entries == old(entries) + [ZipEntry(name, data, Crc32.Crc(data), 0)]
    {
      var crc := Crc32.Compute(Crc32.IEEE, data);
      entries := entries + [ZipEntry(name, data, Crc32.Value(crc), 0)];
    }

    /** Writes the archive. Offsets, sizes and counts are truncated to their fields, as the casts do. */
    method Finish() returns (out: seq<byte>)
      requires Valid()
      modifies this
      ensures out == Archive(old(entries))
      ensures Fits(old(entries)) ==> ReadArchive(Crc32.Crc, out) == Some(Files(old(entries)))
      ensures Placed(old(entries), entries, |entries|)
    {
      hide Local, Central, EndRecord, Locals, Directory, Checksummed, Fits, ReadArchive;
      ghost var es := entries;
      out := [];
      NothingWritten(es);
      for i := 0 to |entries|
        invariant Placed(es, entries, i)
        invariant out == Locals(es[..i])
      {
        LocalsStep(es, i, |out| % U32_LIMIT);
        entries := entries[i := entries[i].(offset := |out| % U32_LIMIT)];
        out := out + Local(entries[i]);
      }
      assert es[..|es|] == es;
      var start := |out| % U32_LIMIT;
      for i := 0 to |entries|
        invariant Placed(es, entries, |es|)
        invariant out == Locals(es) + Directory(es[..i])
      {
        DirectoryStep(es, i);
        out := out + Central(entries[i], entries[i].offset);
      }
      var size := (|out| - start) % U32_LIMIT;
      EndTruncates(|entries|, |Directory(es)|, |Locals(es)|);
      out := out + EndRecord(|entries|, size, start);
      if Fits(es) { WrittenReadsBack(es); }
    }
  }

  /** The offsets of the first `n` entries are filled in and nothing else is changed. */
  ghost predicate Placed(es: seq<ZipEntry>, written: seq<ZipEntry>, n: nat) {
    && |written| == |es| && n <= |es|
    && (forall j :: 0 <= j < n ==> written[j] == es[j].(offset := |Locals(es[..j])| % U32_LIMIT))
    && (forall j :: n <= j < |es| ==> written[j] == es[j])
  }

  lemma NothingWritten(es: seq<ZipEntry>)
    ensures Locals(es[..0]) == [] && Directory(es[..0]) == []
  {}

  lemma LocalsStep(es: seq<ZipEntry>, i: nat, offset: nat)
    requires i < |es|
    ensures Locals(es[..i + 1]) == Locals(es[..i]) + Local(es[i].(offset := offset))
  {
    var longer := es[..i + 1];
    assert longer[..|longer| - 1] == es[..i];
    hide LocalHeader;
  }

  lemma DirectoryStep(es: seq<ZipEntry>, i: nat)
    requires i < |es|
    ensures var offset := |Locals(es[..i])| % U32_LIMIT;
      Directory(es[..i + 1]) == Directory(es[..i]) + Central(es[i].(offset := offset), offset)
  {
    hide Local, Locals, Central;
    var longer := es[..i + 1];
    assert longer[..|longer| - 1] == es[..i];
    CentralTruncates(es[i], |Locals(es[..i])|);
  }

  lemma CentralTruncates(e: ZipEntry, offset: nat)
    ensures Central(e.(offset := offset % U32_LIMIT), offset % U32_LIMIT) == Central(e, offset)
  {
    hide Le;
    Le32Truncates(offset);
  }

  lemma EndTruncates(count: nat, size: nat, start: nat)
    ensures EndRecord(count, (start + size - start % U32_LIMIT) % U32_LIMIT, start % U32_LIMIT) == EndRecord(count, size, start)
  {
    hide Le;
    assert start - start % U32_LIMIT == start / U32_LIMIT * U32_LIMIT;
    assert (start + size - start % U32_LIMIT) % U32_LIMIT == size % U32_LIMIT;
    Le32Truncates(size);
    Le32Truncates(start);
  }

  // ---- An independent reader ----

  datatype File = File(name: seq<byte>, data: seq<byte>)

  datatype LocalRecord = LocalRecord(sig: nat, packing: nat, crc: nat, packed: nat, size: nat, nameLen: nat, extraLen: nat)

  datatype CentralRecord = CentralRecord(
    sig: nat, packing: nat, crc: nat, packed: nat, size: nat, nameLen: nat, extraLen: nat, noteLen: nat, offset: nat)

  datatype EndOfArchive = EndOfArchive(sig: nat, countHere: nat, count: nat, size: nat, start: nat)

  function ParseLocal(h: seq<byte>): LocalRecord
    requires |h| == 30
  {
    LocalRecord(ReadLe(h, 0, 4), ReadLe(h, 8, 2), ReadLe(h, 14, 4), ReadLe(h, 18, 4), ReadLe(h, 22, 4),
                ReadLe(h, 26, 2), ReadLe(h, 28, 2))
  }

  function ParseCentral(h: seq<byte>): CentralRecord
    requires |h| == 46
  {
    CentralRecord(ReadLe(h, 0, 4), ReadLe(h, 10, 2), ReadLe(h, 16, 4), ReadLe(h, 20, 4), ReadLe(h, 24, 4),
                  ReadLe(h, 28, 2), ReadLe(h, 30, 2), ReadLe(h, 32, 2), ReadLe(h, 42, 4))
  }

  function ParseEnd(h: seq<byte>): EndOfArchive
    requires |h| == 22
  {
    EndOfArchive(ReadLe(h, 0, 4), ReadLe(h, 8, 2), ReadLe(h, 10, 2), ReadLe(h, 12, 4), ReadLe(h, 16, 4))
  }

  /** Scans backwards from `at` for an end-of-central-directory record. */
  function FindEnd(buf: seq<byte>, at: nat): (r: Option<EndOfArchive>)
    requires at + 22 <= |buf|
  {
    var h := ParseEnd(buf[at..at + 22]);
    if h.sig == END_SIG then Some(h) else if at == 0 then None else FindEnd(buf, at - 1)
  }

  /** The file whose local header is at `at`, if it agrees with its central directory record. */
  function ReadLocal(crcOf: seq<byte> -> nat, buf: seq<byte>, at: nat, name: seq<byte>, crc: nat, size: nat): Option<File> {
    if at + 30 > |buf| then None
    else
      var h := ParseLocal(buf[at..at + 30]);
      var nameAt := at + 30;
      var dataAt := nameAt + h.nameLen + h.extraLen;
      if h.sig != LOCAL_SIG || h.packing != 0 || h.crc != crc || h.packed != size || h.size != size then None
      else if dataAt + size > |buf| || buf[nameAt..nameAt + h.nameLen] != name then None
      else
        var data := buf[dataAt..dataAt + size];
        if crcOf(data) != crc then None else Some(File(name, data))
  }

  /** The file the central directory record at `at` stands for, and where the next record starts. */
  function ReadCentral(crcOf: seq<byte> -> nat, buf: seq<byte>, at: nat): Option<(File, nat)> {
    if at + 46 > |buf| then None
    else
      var h := ParseCentral(buf[at..at + 46]);
      var nameAt := at + 46;
      if h.sig != CENTRAL_SIG || h.packing != 0 || h.packed != h.size || nameAt + h.nameLen > |buf| then None
      else
        match ReadLocal(crcOf, buf, h.offset, buf[nameAt..nameAt + h.nameLen], h.crc, h.size)
        case None => None
        case Some(f) => Some((f, nameAt + h.nameLen + h.extraLen + h.noteLen))
  }

  function ReadDirectory(crcOf: seq<byte> -> nat, buf: seq<byte>, at: nat, count: nat): Option<(seq<File>, nat)> {
    if count == 0 then Some(([], at))
    else
      match ReadDirectory(crcOf, buf, at, count - 1)
      case None => None
      case Some((files, next)) =>
        match ReadCentral(crcOf, buf, next)
        case None => None
        case Some((f, after)) => Some((files + [f], after))
  }

  /** End record, then central directory, then local headers; `crcOf` checks each file's data. */
  function ReadArchive(crcOf: seq<byte> -> nat, buf: seq<byte>): Option<seq<File>> {
    if |buf| < 22 then None
    else
      match FindEnd(buf, |buf| - 22)
      case None => None
      case Some(h) =>
        match ReadDirectory(crcOf, buf, h.start, h.count)
        case None => None
        case Some((files, end)) => if end != h.start + h.size || h.countHere != h.count then None else Some(files)
  }

  // ---- The round trip ----

  /** A 32-bit checksum. */
  ghost predicate Is32Bit(crcOf: seq<byte> -> nat) {
    forall data :: crcOf(data) < U32_LIMIT
  }

  ghost predicate Checksummed(crcOf: seq<byte> -> nat, es: seq<ZipEntry>) {
    forall i :: 0 <= i < |es| ==> es[i].crc == crcOf(es[i].data)
  }

  /** The 16- and 32-bit fields of the format can hold the archive. */
  ghost predicate Fits(es: seq<ZipEntry>) {
    && |es| < U16_LIMIT
    && (forall i :: 0 <= i < |es| ==> |es[i].name| < U16_LIMIT)
    && |Locals(es)| < U32_LIMIT && |Directory(es)| < U32_LIMIT
  }

  function Files(es: seq<ZipEntry>): (fs: seq<File>)
    ensures |fs| == |es|
    ensures forall i :: 0 <= i < |es| ==> fs[i] == File(es[i].name, es[i].data)
  {
    seq(|es|, i requires 0 <= i < |es| => File(es[i].name, es[i].data))
  }

  /** `buf` holds `s` at position `at`. */
  ghost predicate Holds(buf: seq<byte>, at: nat, s: seq<byte>) {
    at + |s| <= |buf| && buf[at..at + |s|] == s
  }

  lemma HoldsParts(buf: seq<byte>, at: nat, s: seq<byte>, t: seq<byte>)
    requires Holds(buf, at, s + t)
    ensures Holds(buf, at, s) && Holds(buf, at + |s|, t)
  {
    var whole := buf[at..at + |s + t|];
    assert s == whole[..|s|] == buf[at..at + |s|];
    assert t == whole[|s|..] == buf[at + |s|..at + |s| + |t|];
  }

  lemma LocalFields(crc: nat, size: nat, nameLen: nat)
    requires crc < U32_LIMIT && size < U32_LIMIT && nameLen < U16_LIMIT
    ensures ParseLocal(LocalHeader(crc, size, nameLen)) == LocalRecord(LOCAL_SIG, 0, crc, size, size, nameLen, 0)
  {
    hide Le, ReadLe;
    Limits();
    var h := LocalHeader(crc, size, nameLen);
    FieldIsRead(h, 0, LOCAL_SIG, 4);
    FieldIsRead(h, 8, 0, 2);
    FieldIsRead(h, 14, crc, 4);
    FieldIsRead(h, 18, size, 4);
    FieldIsRead(h, 22, size, 4);
    FieldIsRead(h, 26, nameLen, 2);
    FieldIsRead(h, 28, 0, 2);
  }

  /** Where the fields of a central header stand. */
  lemma CentralSlices(crc: nat, size: nat, nameLen: nat, offset: nat)
    ensures var h := CentralHeader(crc, size, nameLen, offset);
      h[0..4] == Le(CENTRAL_SIG, 4) && h[10..12] == Le(0, 2) && h[16..20] == Le(crc, 4)
  {
    hide Le;
  }

  lemma CentralSizes(crc: nat, size: nat, nameLen: nat, offset: nat)
    ensures var h := CentralHeader(crc, size, nameLen, offset);
      h[20..24] == Le(size, 4) && h[24..28] == Le(size, 4) && h[28..30] == Le(nameLen, 2)
  {
    hide Le;
  }

  lemma CentralTail(crc: nat, size: nat, nameLen: nat, offset: nat)
    ensures var h := CentralHeader(crc, size, nameLen, offset);
      h[30..32] == Le(0, 2) && h[32..34] == Le(0, 2) && h[42..46] == Le(offset, 4)
  {
    hide Le;
  }

  lemma CentralFields(crc: nat, size: nat, nameLen: nat, offset: nat)
    requires crc < U32_LIMIT && size < U32_LIMIT && nameLen < U16_LIMIT && offset < U32_LIMIT
    ensures ParseCentral(CentralHeader(crc, size, nameLen, offset)) ==
      CentralRecord(CENTRAL_SIG, 0, crc, size, size, nameLen, 0, 0, offset)
  {
    hide Le, ReadLe, CentralHeader;
    Limits();
    CentralSlices(crc, size, nameLen, offset);
    CentralSizes(crc, size, nameLen, offset);
    CentralTail(crc, size, nameLen, offset);
    var h := CentralHeader(crc, size, nameLen, offset);
    FieldIsRead(h, 0, CENTRAL_SIG, 4);
    FieldIsRead(h, 10, 0, 2);
    FieldIsRead(h, 16, crc, 4);
    FieldIsRead(h, 20, size, 4);
    FieldIsRead(h, 24, size, 4);
    FieldIsRead(h, 28, nameLen, 2);
    FieldIsRead(h, 30, 0, 2);
    FieldIsRead(h, 32, 0, 2);
    FieldIsRead(h, 42, offset, 4);
  }

  lemma EndFields(count: nat, size: nat, start: nat)
    requires count < U16_LIMIT && size < U32_LIMIT && start < U32_LIMIT
    ensures ParseEnd(EndRecord(count, size, start)) == EndOfArchive(END_SIG, count, count, size, start)
  {
    hide Le, ReadLe;
    Limits();
    var h := EndRecord(count, size, start);
    FieldIsRead(h, 0, END_SIG, 4);
    FieldIsRead(h, 8, count, 2);
    FieldIsRead(h, 10, count, 2);
    FieldIsRead(h, 12, size, 4);
    FieldIsRead(h, 16, start, 4);
  }

  lemma LocalIsRead(crcOf: seq<byte> -> nat, buf: seq<byte>, at: nat, e: ZipEntry)
    requires Holds(buf, at, Local(e)) && e.crc == crcOf(e.data)
    requires e.crc < U32_LIMIT && |e.name| < U16_LIMIT && |e.data| < U32_LIMIT
    ensures ReadLocal(crcOf, buf, at, e.name, e.crc, |e.data|) == Some(File(e.name, e.data))
  {
    hide LocalHeader, ParseLocal;
    var h := LocalHeader(e.crc, |e.data|, |e.name|);
    HoldsParts(buf, at, h + e.name, e.data);
    HoldsParts(buf, at, h, e.name);
    LocalFields(e.crc, |e.data|, |e.name|);
  }

  lemma CentralIsRead(crcOf: seq<byte> -> nat, buf: seq<byte>, at: nat, e: ZipEntry, offset: nat)
    requires Holds(buf, at, Central(e, offset)) && Holds(buf, offset, Local(e)) && e.crc == crcOf(e.data)
    requires e.crc < U32_LIMIT && |e.name| < U16_LIMIT && |e.data| < U32_LIMIT && offset < U32_LIMIT
    ensures ReadCentral(crcOf, buf, at) == Some((File(e.name, e.data), at + |Central(e, offset)|))
  {
    hide Local, ReadLocal, CentralHeader, ParseCentral;
    var h := CentralHeader(e.crc, |e.data|, |e.name|, offset);
    HoldsParts(buf, at, h, e.name);
    CentralFields(e.crc, |e.data|, |e.name|, offset);
    LocalIsRead(crcOf, buf, offset, e);
  }

  /** Dropping the last entry keeps everything that was written before it. */
  lemma InitHolds(buf: seq<byte>, start: nat, es: seq<ZipEntry>)
    requires es != [] && Holds(buf, 0, Locals(es)) && Holds(buf, start, Directory(es))
    ensures var init, last := es[..|es| - 1], es[|es| - 1];
      && Holds(buf, 0, Locals(init)) && Holds(buf, |Locals(init)|, Local(last))
      && Holds(buf, start, Directory(init))
      && Holds(buf, start + |Directory(init)|, Central(last, |Locals(init)|))
  {
    hide Local, Central;
    var init, last := es[..|es| - 1], es[|es| - 1];
    HoldsParts(buf, 0, Locals(init), Local(last));
    HoldsParts(buf, start, Directory(init), Central(last, |Locals(init)|));
  }

  lemma FilesStep(es: seq<ZipEntry>)
    requires es != []
    ensures Files(es) == Files(es[..|es| - 1]) + [File(es[|es| - 1].name, es[|es| - 1].data)]
  {}

  lemma {:induction false} DirectoryIsRead(crcOf: seq<byte> -> nat, buf: seq<byte>, start: nat, es: seq<ZipEntry>)
    requires Holds(buf, 0, Locals(es)) && Holds(buf, start, Directory(es))
    requires Is32Bit(crcOf) && Checksummed(crcOf, es) && |Locals(es)| < U32_LIMIT
    requires forall i :: 0 <= i < |es| ==> |es[i].name| < U16_LIMIT
    ensures ReadDirectory(crcOf, buf, start, |es|) == Some((Files(es), start + |Directory(es)|))
  {
    hide Local, Central, ReadCentral, Files, Holds;
    if es == [] {
      assert Files(es) == [];
    } else {
      var init, last := es[..|es| - 1], es[|es| - 1];
      InitHolds(buf, start, es);
      DirectoryIsRead(crcOf, buf, start, init);
      CentralIsRead(crcOf, buf, start + |Directory(init)|, last, |Locals(init)|);
      FilesStep(es);
    }
  }

  /** Reading a written archive gives back every name and its data, in order, every checksum verified. */
  lemma RoundTrip(crcOf: seq<byte> -> nat, es: seq<ZipEntry>)
    requires Is32Bit(crcOf) && Checksummed(crcOf, es) && Fits(es)
    ensures ReadArchive(crcOf, Archive(es)) == Some(Files(es))
  {
    hide Locals, Directory, EndRecord, ParseEnd, Files, ReadDirectory, FindEnd;
    var locals, directory := Locals(es), Directory(es);
    var end := EndRecord(|es|, |directory|, |locals|);
    var buf := Archive(es);
    assert Holds(buf, 0, buf);
    HoldsParts(buf, 0, locals + directory, end);
    HoldsParts(buf, 0, locals, directory);
    DirectoryIsRead(crcOf, buf, |locals|, es);
    EndFields(|es|, |directory|, |locals|);
    EndIsFound(buf, |locals + directory|, end);
  }

  lemma CrcIs32Bit()
    ensures Is32Bit(Crc32.Crc)
  {}

  /** What the writer checksums and finishes within the field limits reads back. */
  lemma WrittenReadsBack(es: seq<ZipEntry>)
    requires Checksummed(Crc32.Crc, es) && Fits(es)
    ensures ReadArchive(Crc32.Crc, Archive(es)) == Some(Files(es))
  {
    hide Checksummed, Fits, ReadArchive, Archive, Is32Bit;
    CrcIs32Bit();
    RoundTrip(Crc32.Crc, es);
  }

  lemma EndIsFound(buf: seq<byte>, at: nat, end: seq<byte>)
    requires |end| == 22 && |buf| == at + 22 && Holds(buf, at, end) && ParseEnd(end).sig == END_SIG
    ensures FindEnd(buf, |buf| - 22) == Some(ParseEnd(end))
  {
    hide ParseEnd;
    assert buf[at..at + 22] == end;
  }

  /** While the directory begins below 2^32, an archive reads back as what was added exactly when it fits its fields. */
  lemma RoundTripIff(crcOf: seq<byte> -> nat, es: seq<ZipEntry>)
    requires Is32Bit(crcOf) && Checksummed(crcOf, es) && |Locals(es)| < U32_LIMIT
    ensures ReadArchive(crcOf, Archive(es)) == Some(Files(es)) <==> Fits(es)
  {
    hide Archive, ReadArchive, Files, Locals, Directory;
    if ReadArchive(crcOf, Archive(es)) == Some(Files(es)) {
      RoundTripNeedsLimits(crcOf, es);
      DirectoryMustFit(crcOf, es);
    } else if Fits(es) {
      RoundTrip(crcOf, es);
    }
  }

  /** The first record looked at is the one the writer put last. */
  lemma OwnEnd(es: seq<ZipEntry>)
    ensures |Archive(es)| >= 22
    ensures FindEnd(Archive(es), |Archive(es)| - 22) == Some(ParseEnd(EndRecord(|es|, |Directory(es)|, |Locals(es)|)))
  {
    hide Locals, Directory, EndRecord, ParseEnd, FindEnd;
    var end := EndRecord(|es|, |Directory(es)|, |Locals(es)|);
    assert Archive(es)[|Locals(es) + Directory(es)|..] == end;
    EndTruncatedFields(|es|, |Directory(es)|, |Locals(es)|);
    EndIsFound(Archive(es), |Locals(es) + Directory(es)|, end);
  }

  lemma EndTruncatedFields(count: nat, size: nat, start: nat)
    ensures var h := ParseEnd(EndRecord(count, size, start));
      && h.sig == END_SIG && h.size == size % U32_LIMIT && h.start == start % U32_LIMIT
      && (count < U16_LIMIT ==> h.count == count)
  {
    hide Le, ReadLe;
    Limits();
    var h := EndRecord(count, size, start);
    Le32Truncates(size);
    Le32Truncates(start);
    FieldIsRead(h, 0, END_SIG, 4);
    if count < U16_LIMIT { FieldIsRead(h, 10, count, 2); }
    FieldIsRead(h, 12, size % U32_LIMIT, 4);
    FieldIsRead(h, 16, start % U32_LIMIT, 4);
  }

  lemma DirectoryMustFit(crcOf: seq<byte> -> nat, es: seq<ZipEntry>)
    requires Is32Bit(crcOf) && Checksummed(crcOf, es) && |Locals(es)| < U32_LIMIT
    requires |es| < U16_LIMIT && forall i :: 0 <= i < |es| ==> |es[i].name| < U16_LIMIT
    requires ReadArchive(crcOf, Archive(es)).Some?
    ensures |Directory(es)| < U32_LIMIT
  {
    hide Locals, Directory, EndRecord, ParseEnd, Files, ReadDirectory, FindEnd;
    var locals, directory := Locals(es), Directory(es);
    var buf := Archive(es);
    OwnEnd(es);
    EndTruncatedFields(|es|, |directory|, |locals|);
    assert Holds(buf, 0, buf);
    HoldsParts(buf, 0, locals + directory, EndRecord(|es|, |directory|, |locals|));
    HoldsParts(buf, 0, locals, directory);
    DirectoryIsRead(crcOf, buf, |locals|, es);
  }

  /** At any size, an archive that reads back has counts, names and data that fit their fields. */
  lemma RoundTripNeedsLimits(crcOf: seq<byte> -> nat, es: seq<ZipEntry>)
    requires ReadArchive(crcOf, Archive(es)) == Some(Files(es))
    ensures |es| < U16_LIMIT
    ensures forall i :: 0 <= i < |es| ==> |es[i].name| < U16_LIMIT && |es[i].data| < U32_LIMIT
  {
    hide Archive, Files, FindEnd, ReadDirectory;
    var buf := Archive(es);
    var h := FindEnd(buf, |buf| - 22).value;
    FoundEndFits(buf, |buf| - 22);
    assert ReadDirectory(crcOf, buf, h.start, h.count).value.0 == Files(es);
    ReadWithinLimits(crcOf, buf, h.start, h.count);
    forall i | 0 <= i < |es|
      ensures |es[i].name| < U16_LIMIT && |es[i].data| < U32_LIMIT
    {
      assert Files(es)[i] == File(es[i].name, es[i].data);
    }
  }

  /** An archive whose local part is 2^32 bytes long does not read back: the stored start of its directory is 0. */
  lemma LargeArchiveFails(crcOf: seq<byte> -> nat, es: seq<ZipEntry>)
    requires es != [] && |Locals(es)| == U32_LIMIT
    ensures ReadArchive(crcOf, Archive(es)) != Some(Files(es))
  {
    hide Archive, ReadArchive, Files, Local;
    OffsetHolds(es, 0);
    SignatureOfLocal(Archive(es), 0, es[0]);
    if ReadArchive(crcOf, Archive(es)) == Some(Files(es)) { RoundTripNeedsSignature(crcOf, es); }
  }

  function Zeros(n: nat): seq<byte> { seq(n, _ => 0) }

  /** One entry without a name and with 2^32 - 30 zero bytes makes such an archive. */
  lemma LargeArchiveExists(crcOf: seq<byte> -> nat)
    ensures var data := Zeros(U32_LIMIT - 30);
      var es := [ZipEntry([], data, crcOf(data), 0)];
      Checksummed(crcOf, es) && |Locals(es)| == U32_LIMIT && ReadArchive(crcOf, Archive(es)) != Some(Files(es))
  {
    hide Archive, ReadArchive, Files, Local, Zeros;
    var data := Zeros(U32_LIMIT - 30);
    ZerosSize(U32_LIMIT - 30);
    OneLocal(ZipEntry([], data, crcOf(data), 0));
    LargeArchiveFails(crcOf, [ZipEntry([], data, crcOf(data), 0)]);
  }

  lemma ZerosSize(n: nat)
    ensures |Zeros(n)| == n
  {}

  lemma OneLocal(e: ZipEntry)
    ensures |Locals([e])| == 30 + |e.name| + |e.data|
  {
    hide Local;
    assert [e][..0] == [];
  }

  /** At any size, an archive that reads back has a central directory record at the truncated start of its directory. */
  lemma RoundTripNeedsSignature(crcOf: seq<byte> -> nat, es: seq<ZipEntry>)
    requires es != [] && ReadArchive(crcOf, Archive(es)) == Some(Files(es))
    ensures |Locals(es)| % U32_LIMIT + 46 <= |Archive(es)|
    ensures ReadLe(Archive(es), |Locals(es)| % U32_LIMIT, 4) == CENTRAL_SIG
  {
    hide Archive, ReadArchive, Files, Locals, Directory, Local, FindEnd, ParseEnd, EndRecord, ReadCentral;
    RoundTripNeedsLimits(crcOf, es);
    OwnEnd(es);
    EndTruncatedFields(|es|, |Directory(es)|, |Locals(es)|);
    ReadNeedsDirectory(crcOf, Archive(es));
    FirstMustRead(crcOf, Archive(es), |Locals(es)| % U32_LIMIT, |es|);
    CentralNeedsSignature(crcOf, Archive(es), |Locals(es)| % U32_LIMIT);
  }

  lemma CentralNeedsSignature(crcOf: seq<byte> -> nat, buf: seq<byte>, at: nat)
    requires ReadCentral(crcOf, buf, at).Some?
    ensures at + 46 <= |buf| && ReadLe(buf, at, 4) == CENTRAL_SIG
  {
    hide ReadLocal;
    assert buf[at..at + 46][0..4] == buf[at..at + 4];
  }

  lemma ReadNeedsDirectory(crcOf: seq<byte> -> nat, buf: seq<byte>)
    requires |buf| >= 22 && ReadArchive(crcOf, buf).Some?
    ensures FindEnd(buf, |buf| - 22).Some?
    ensures var h := FindEnd(buf, |buf| - 22).value; ReadDirectory(crcOf, buf, h.start, h.count).Some?
  {
    hide FindEnd, ReadDirectory;
  }

  lemma SignatureOfLocal(buf: seq<byte>, at: nat, e: ZipEntry)
    requires Holds(buf, at, Local(e))
    ensures at + 4 <= |buf| && ReadLe(buf, at, 4) == LOCAL_SIG
  {
    hide Le;
    Limits();
    var h := LocalHeader(e.crc, |e.data|, |e.name|);
    HoldsParts(buf, at, h + e.name, e.data);
    HoldsParts(buf, at, h, e.name);
    assert buf[at..at + 30][0..4] == buf[at..at + 4] == Le(LOCAL_SIG, 4);
    FieldIsRead(buf, at, LOCAL_SIG, 4);
  }

  lemma {:induction false} FirstMustRead(crcOf: seq<byte> -> nat, buf: seq<byte>, at: nat, count: nat)
    requires count > 0 && ReadDirectory(crcOf, buf, at, count).Some?
    ensures ReadCentral(crcOf, buf, at).Some?
    decreases count
  {
    hide ReadCentral;
    if count > 1 {
      FirstMustRead(crcOf, buf, at, count - 1);
    } else {
      assert ReadDirectory(crcOf, buf, at, 0) == Some(([], at));
    }
  }

  lemma {:induction false} FoundEndFits(buf: seq<byte>, at: nat)
    requires at + 22 <= |buf| && FindEnd(buf, at).Some?
    ensures FindEnd(buf, at).value.count < U16_LIMIT
    decreases at
  {
    hide LeValue;
    var h := buf[at..at + 22];
    if ParseEnd(h).sig == END_SIG {
      Limits();
      LeValueBound(h[10..12]);
    } else {
      FoundEndFits(buf, at - 1);
    }
  }

  lemma CentralWithinLimits(crcOf: seq<byte> -> nat, buf: seq<byte>, at: nat)
    requires ReadCentral(crcOf, buf, at).Some?
    ensures |ReadCentral(crcOf, buf, at).value.0.name| < U16_LIMIT
    ensures |ReadCentral(crcOf, buf, at).value.0.data| < U32_LIMIT
  {
    hide LeValue;
    Limits();
    LeValueBound(buf[at..at + 46][28..30]);
    LeValueBound(buf[at..at + 46][24..28]);
  }

  lemma {:induction false} ReadWithinLimits(crcOf: seq<byte> -> nat, buf: seq<byte>, at: nat, count: nat)
    requires ReadDirectory(crcOf, buf, at, count).Some?
    ensures |ReadDirectory(crcOf, buf, at, count).value.0| == count
    ensures forall f :: f in ReadDirectory(crcOf, buf, at, count).value.0 ==> |f.name| < U16_LIMIT && |f.data| < U32_LIMIT
  {
    hide ReadCentral;
    if count > 0 {
      ReadWithinLimits(crcOf, buf, at, count - 1);
      CentralWithinLimits(crcOf, buf, ReadDirectory(crcOf, buf, at, count - 1).value.1);
    }
  }

  /** The offset stored for an entry is where its own local header and data stand, exactly when that is below 2^32. */
  lemma OffsetsLand(es: seq<ZipEntry>, written: seq<ZipEntry>, i: nat)
    requires i < |es| && Placed(es, written, |es|)
    ensures Holds(Archive(es), |Locals(es[..i])|, Local(es[i]))
    ensures written[i].offset == |Locals(es[..i])| <==> |Locals(es[..i])| < U32_LIMIT
  {
    hide Archive, Local, Locals, Holds;
    OffsetHolds(es, i);
    SmallModulo(|Locals(es[..i])|);
  }

  lemma SmallModulo(n: nat)
    ensures n % U32_LIMIT == n <==> n < U32_LIMIT
  {}

  lemma OffsetHolds(es: seq<ZipEntry>, i: nat)
    requires i < |es|
    ensures Holds(Archive(es), |Locals(es[..i])|, Local(es[i]))
  {
    hide Locals, Directory, Local, EndRecord;
    var tail := Directory(es) + EndRecord(|es|, |Directory(es)|, |Locals(es)|);
    assert Archive(es) == Locals(es) + tail;
    LocalsHold(es, i);
    HoldsLonger(Locals(es), tail, |Locals(es[..i])|, Local(es[i]));
  }

  lemma HoldsLonger(buf: seq<byte>, tail: seq<byte>, at: nat, s: seq<byte>)
    requires Holds(buf, at, s)
    ensures Holds(buf + tail, at, s)
  {
    assert (buf + tail)[at..at + |s|] == buf[at..at + |s|];
  }

  lemma {:induction false} LocalsHold(es: seq<ZipEntry>, i: nat)
    requires i < |es|
    ensures Holds(Locals(es), |Locals(es[..i])|, Local(es[i]))
  {
    hide Local;
    var n := |es| - 1;
    if i == n {
      assert Holds(Locals(es), 0, Locals(es));
      HoldsParts(Locals(es), 0, Locals(es[..n]), Local(es[n]));
    } else {
      LocalsHold(es[..n], i);
      assert es[..n][..i] == es[..i];
      HoldsLonger(Locals(es[..n]), Local(es[n]), |Locals(es[..i])|, Local(es[i]));
    }
  }

  function TotalName(es: seq<ZipEntry>): nat {
    if es == [] then 0 else TotalName(es[..|es| - 1]) + |es[|es| - 1].name|
  }

  function TotalData(es: seq<ZipEntry>): nat {
    if es == [] then 0 else TotalData(es[..|es| - 1]) + |es[|es| - 1].data|
  }

  /** The closed form of the archive's size. */
  lemma {:induction false} ArchiveSize(es: seq<ZipEntry>)
    ensures |Locals(es)| == 30 * |es| + TotalName(es) + TotalData(es)
    ensures |Directory(es)| == 46 * |es| + TotalName(es)
    ensures |Archive(es)| == 76 * |es| + 2 * TotalName(es) + TotalData(es) + 22
  {
    hide Local, Central, EndRecord;
    if es != [] { ArchiveSize(es[..|es| - 1]); }
  }
}
