/**
 The file structure around a list of objects: header, numbered objects, cross-reference table
 (section 7.5.4 of ISO 32000-1) and trailer; and a reader that finds an object from the end of
 the file.
 */
module PdfFile {
  import opened Prelude
  import opened PdfText

  const HEADER := "%PDF-1.4\n"
  const XREF := "xref\n0 "
  const END_OBJECT := "\nendobj\n"
  const FREE_ENTRY := "0000000000 65535 f \n"
  const END_OF_FILE := "\n%%EOF"

  function ObjectHeader(i: nat): string {
    Dec(i) + " 0 obj\n"
  }

  function ObjectBytes(i: nat, content: string): string {
    ObjectHeader(i) + content + END_OBJECT
  }

  /** The file up to and including object `n`; objects are numbered from 1. */
  function Body(objects: seq<string>, n: nat): string
    requires n <= |objects|
  {
    if n == 0 then HEADER else Body(objects, n - 1) + ObjectBytes(n, objects[n - 1])
  }

  function Offset(objects: seq<string>, i: nat): nat
    requires 1 <= i <= |objects|
  {
    |Body(objects, i - 1)|
  }

  function Entry(offset: nat): string {
    Pad10(offset) + " 00000 n \n"
  }

  function Entries(objects: seq<string>, n: nat): string
    requires n <= |objects|
  {
    if n == 0 then FREE_ENTRY else Entries(objects, n - 1) + Entry(Offset(objects, n))
  }

  function TableHead(count: nat): string {
    XREF + Dec(count) + "\n"
  }

  function Trailer(count: nat, startxref: nat): string {
    "trailer\n<< /Size " + Dec(count) + " /Root 1 0 R >>\nstartxref\n" + Dec(startxref) + END_OF_FILE
  }

  function File(objects: seq<string>): string {
    var body, count := Body(objects, |objects|), |objects| + 1;
    body + TableHead(count) + Entries(objects, |objects|) + Trailer(count, |body|)
  }

  method Assemble(objects: seq<string>) returns (buf: string)
    ensures buf == File(objects)
  {
    hide ObjectHeader, TableHead, Trailer, Entry;
    buf := HEADER;
    var offsets: seq<nat> := [];
    for i := 0 to |objects|
      invariant buf == Body(objects, i)
      invariant |offsets| == i && forall k :: 0 <= k < i ==> offsets[k] == Offset(objects, k + 1)
    {
      offsets := offsets + [|buf|];
      buf := buf + (ObjectHeader(i + 1) + objects[i] + END_OBJECT);
    }
    var xrefOffset := |buf|;
    var count := |objects| + 1;
    buf := buf + TableHead(count);
    var table := WriteEntries(objects, offsets);
    buf := buf + table;
    buf := buf + Trailer(count, xrefOffset);
  }

  method WriteEntries(objects: seq<string>, offsets: seq<nat>) returns (table: string)
    requires |offsets| == |objects| && forall k :: 0 <= k < |offsets| ==> offsets[k] == Offset(objects, k + 1)
    ensures table == Entries(objects, |objects|)
  {
    hide Entry, Offset;
    table := FREE_ENTRY;
    for i := 0 to |offsets|
      invariant table == Entries(objects, i)
    {
      table := table + Entry(offsets[i]);
    }
  }

  // ----- Reading -----

  /** What follows a keyword, if it is there. */
  function Expect(b: string, keyword: string): Option<string> {
    if keyword <= b then Some(b[|keyword|..]) else None
  }

  /** The bytes after the last line feed. */
  function LastLine(b: string): string {
    if b == "" || b[|b| - 1] == '\n' then "" else LastLine(b[..|b| - 1]) + [b[|b| - 1]]
  }

  /** The number in the line before the end-of-file marker. */
  function StartXref(b: string): Option<nat> {
    if |b| < 6 || b[|b| - 6..] != "\n%%EOF" then None
    else
      var line := LastLine(b[..|b| - 6]);
      var reading := ReadDigits(line, 0);
      if line == "" || reading.rest != "" then None else Some(reading.value)
  }

  /** The number of entries and the bytes from the first entry on. */
  datatype Table = Table(count: nat, entries: string)

  function ReadTable(b: string): Option<Table> {
    match StartXref(b)
    case None => None
    case Some(start) =>
      if start > |b| then None
      else
        match Expect(b[start..], "xref\n0 ")
        case None => None
        case Some(r) =>
          var reading := ReadDigits(r, 0);
          match Expect(reading.rest, "\n")
          case None => None
          case Some(entries) => Some(Table(reading.value, entries))
  }

  /** The offset in entry `i`; an entry is 20 bytes, its first 10 are the offset. */
  function EntryOffset(table: Table, i: nat): Option<nat> {
    if i >= table.count || |table.entries| < 20 * i + 20 then None
    else
      var reading := ReadDigits(table.entries[20 * i..20 * i + 10], 0);
      if reading.rest != "" then None else Some(reading.value)
  }

  /** The bytes from the content of object `i` on. */
  function FindObject(b: string, i: nat): Option<string> {
    match ReadTable(b)
    case None => None
    case Some(table) =>
      match EntryOffset(table, i)
      case None => None
      case Some(offset) => if offset > |b| then None else ReadHeader(b[offset..], i)
  }

  /** What follows the header of object `i`. */
  function ReadHeader(b: string, i: nat): Option<string> {
    match ReadNumber(b)
    case None => None
    case Some(number) => if number.value != i then None else Expect(number.rest, " 0 obj\n")
  }

  /** A number of at least one digit, and what follows it. */
  function ReadNumber(b: string): Option<NatReading> {
    var reading := ReadDigits(b, 0);
    if reading.rest == b then None else Some(reading)
  }

  /** A reference to an object of generation 0 after a keyword: the object's number and what follows. */
  function ReadReference(b: string, keyword: string): Option<NatReading> {
    match Expect(b, keyword)
    case None => None
    case Some(r) =>
      match ReadNumber(r)
      case None => None
      case Some(reading) =>
        match Expect(reading.rest, " 0 R")
        case None => None
        case Some(rest) => Some(NatReading(reading.value, rest))
  }

  /** What the trailer says: the number of entries and the object to start from. */
  datatype TrailerInfo = TrailerInfo(size: nat, root: nat)

  /** The trailer follows the last entry of the table. */
  function ReadTrailer(b: string): Option<TrailerInfo> {
    match ReadTable(b)
    case None => None
    case Some(table) =>
      if |table.entries| < 20 * table.count then None
      else
        match Expect(table.entries[20 * table.count..], "trailer\n<< /Size ")
        case None => None
        case Some(r) =>
          match ReadNumber(r)
          case None => None
          case Some(size) =>
            match ReadReference(size.rest, " /Root ")
            case None => None
            case Some(root) => if Expect(root.rest, " >>\nstartxref\n").None? then None else Some(TrailerInfo(size.value, root.value))
  }

  // ----- What is written is found -----

  lemma ExpectWritten(keyword: string, rest: string)
    ensures Expect(keyword + rest, keyword) == Some(rest)
  {
    var b := keyword + rest;
    assert b[..|keyword|] == keyword && b[|keyword|..] == rest;
  }

  lemma {:induction false} LastLineOf(before: string, line: string)
    requires before != "" && before[|before| - 1] == '\n' && forall i :: 0 <= i < |line| ==> line[i] != '\n'
    ensures LastLine(before + line) == line
  {
    var b := before + line;
    if line == "" {
      assert b == before;
    } else {
      var n := |line| - 1;
      assert b[..|b| - 1] == before + line[..n];
      LastLineOf(before, line[..n]);
      assert line[..n] + [line[n]] == line;
    }
  }

  lemma StartXrefWritten(before: string, n: nat)
    requires before != "" && before[|before| - 1] == '\n'
    ensures StartXref(before + Dec(n) + END_OF_FILE) == Some(n)
  {
    hide Dec, ReadDigits, LastLine;
    var b := before + Dec(n) + END_OF_FILE;
    assert b[..|b| - |END_OF_FILE|] == before + Dec(n);
    assert b[|b| - |END_OF_FILE|..] == END_OF_FILE;
    LastLineOf(before, Dec(n));
    NumbersReadBack(n, "");
    assert Dec(n) + "" == Dec(n);
  }

  lemma EndOfFile(a: string, b: string, c: string, d: string)
    ensures a + (b + c + d) == a + b + c + d
  {
  }

  /** The file as the part that ends in `startxref`, the number and the end marker. */
  lemma FileEnd(objects: seq<string>)
    ensures StartXref(File(objects)) == Some(|Body(objects, |objects|)|)
  {
    var body, count := Body(objects, |objects|), |objects| + 1;
    var keyword := "trailer\n<< /Size " + Dec(count) + " /Root 1 0 R >>\nstartxref\n";
    assert keyword[|keyword| - 1] == '\n';
    hide Body, Entries, TableHead, Dec, StartXref;
    var table := body + TableHead(count) + Entries(objects, |objects|);
    var before := table + keyword;
    assert before[|before| - 1] == '\n';
    StartXrefWritten(before, |body|);
    EndOfFile(table, keyword, Dec(|body|), END_OF_FILE);
  }

  lemma Suffix(a: string, b: string)
    ensures (a + b)[|a|..] == b && (a + b)[..|a|] == a
  {
  }

  lemma SliceOfPrefix(a: string, b: string, p: nat, q: nat)
    requires p <= q <= |a|
    ensures (a + b)[p..q] == a[p..q]
  {
  }

  lemma SliceOfSlice(a: string, p: nat, q: nat, r: nat)
    requires p <= q <= r <= |a|
    ensures a[p..r][..q - p] == a[p..q]
  {
  }

  lemma Associate(a: string, b: string, c: string, d: string)
    ensures a + b + c + d == a + (b + (c + d))
  {
  }

  lemma ReadTableAt(body: string, count: nat, rest: string)
    requires StartXref(body + (TableHead(count) + rest)) == Some(|body|)
    ensures ReadTable(body + (TableHead(count) + rest)) == Some(Table(count, rest))
  {
    hide Dec, StartXref, ReadDigits, Expect;
    Suffix(body, TableHead(count) + rest);
    Associate(XREF, Dec(count), "\n", rest);
    ExpectWritten(XREF, Dec(count) + ("\n" + rest));
    NumbersReadBack(count, "\n" + rest);
    ExpectWritten("\n", rest);
  }

  /** `startxref` points at the table, and the table announces one entry more than there are objects. */
  lemma TableFound(objects: seq<string>)
    ensures ReadTable(File(objects))
         == Some(Table(|objects| + 1, Entries(objects, |objects|) + Trailer(|objects| + 1, |Body(objects, |objects|)|)))
  {
    hide Body, Entries, Trailer, TableHead, StartXref, ReadTable;
    FileEnd(objects);
    var body, count := Body(objects, |objects|), |objects| + 1;
    Associate(body, TableHead(count), Entries(objects, |objects|), Trailer(count, |body|));
    ReadTableAt(body, count, Entries(objects, |objects|) + Trailer(count, |body|));
  }

  /** All offsets fit their ten digits. */
  ghost predicate OffsetsFit(objects: seq<string>) {
    forall i :: 1 <= i <= |objects| ==> Offset(objects, i) < Power10(10)
  }

  /** Every entry is 20 bytes, so entry `i` starts at 20 * i. */
  lemma {:induction false} EntriesAligned(objects: seq<string>, n: nat)
    requires n <= |objects| && OffsetsFit(objects)
    ensures |Entries(objects, n)| == 20 * (n + 1)
  {
    if n > 0 {
      EntriesAligned(objects, n - 1);
      PaddedExactly(Offset(objects, n));
    }
  }

  lemma {:induction false} EntryInPlace(objects: seq<string>, i: nat, n: nat)
    requires 1 <= i <= n <= |objects| && OffsetsFit(objects)
    ensures |Entries(objects, n)| == 20 * (n + 1)
    ensures Entries(objects, n)[20 * i..20 * i + 20] == Pad10(Offset(objects, i)) + " 00000 n \n"
  {
    hide Pad10, Offset, Power10;
    EntriesAligned(objects, n);
    EntriesAligned(objects, n - 1);
    var before, last := Entries(objects, n - 1), Entry(Offset(objects, n));
    assert Entries(objects, n) == before + last;
    if i == n {
      Suffix(before, last);
    } else {
      EntryInPlace(objects, i, n - 1);
      SliceOfPrefix(before, last, 20 * i, 20 * i + 20);
    }
  }

  lemma EntryReadsBack(objects: seq<string>, i: nat, rest: string)
    requires 1 <= i <= |objects| && OffsetsFit(objects)
    ensures EntryOffset(Table(|objects| + 1, Entries(objects, |objects|) + rest), i) == Some(Offset(objects, i))
  {
    hide Pad10, Offset, Power10, Entries, ReadDigits;
    var n := |objects|;
    EntryInPlace(objects, i, n);
    assert Offset(objects, i) < Power10(10);
    var entries := Entries(objects, n);
    SliceOfPrefix(entries, rest, 20 * i, 20 * i + 10);
    SliceOfSlice(entries, 20 * i, 20 * i + 10, 20 * i + 20);
    EntryDigits(Offset(objects, i));
  }

  lemma EntryDigits(offset: nat)
    requires offset < Power10(10)
    ensures |Entry(offset)| == 20 && ReadDigits(Entry(offset)[..10], 0) == NatReading(offset, "")
  {
    PaddedExactly(offset);
    NumbersReadBack(offset, "");
    hide Pad10, Power10, ReadDigits;
    Suffix(Pad10(offset), " 00000 n \n");
    assert Pad10(offset) + "" == Pad10(offset);
  }

  lemma {:induction false} BodyStarts(objects: seq<string>, n: nat)
    requires n <= |objects|
    ensures HEADER <= Body(objects, n)
  {
    if n > 0 {
      BodyStarts(objects, n - 1);
    }
  }

  lemma {:induction false} EntriesStart(objects: seq<string>, n: nat)
    requires n <= |objects|
    ensures FREE_ENTRY <= Entries(objects, n)
  {
    if n > 0 {
      EntriesStart(objects, n - 1);
    }
  }

  /** The file starts with the version line, and the table with the head of the free list. */
  lemma FrameInPlace(objects: seq<string>)
    ensures "%PDF-1.4\n" <= File(objects)
    ensures ReadTable(File(objects)).Some? && "0000000000 65535 f \n" <= ReadTable(File(objects)).value.entries
  {
    BodyStarts(objects, |objects|);
    EntriesStart(objects, |objects|);
    TableFound(objects);
    hide Body, Entries, Trailer, TableHead, ReadTable;
  }

  lemma NumberWritten(n: nat, rest: string)
    requires rest != "" ==> !IsDigit(rest[0])
    ensures ReadNumber(Dec(n) + rest) == Some(NatReading(n, rest))
  {
    NumbersReadBack(n, rest);
    assert |Dec(n)| >= 1;
    hide Dec, ReadDigits;
    assert |Dec(n) + rest| > |rest|;
  }

  lemma ReferenceWritten(keyword: string, n: nat, rest: string)
    ensures ReadReference(keyword + (Dec(n) + (" 0 R" + rest)), keyword) == Some(NatReading(n, rest))
  {
    hide Dec, Expect, ReadNumber;
    ExpectWritten(keyword, Dec(n) + (" 0 R" + rest));
    NumberWritten(n, " 0 R" + rest);
    ExpectWritten(" 0 R", rest);
  }

  lemma TrailerParts(count: nat, startxref: nat)
    ensures Trailer(count, startxref)
         == "trailer\n<< /Size " + (Dec(count) + (" /Root " + (Dec(1) + (" 0 R" + (" >>\nstartxref\n" + (Dec(startxref) + END_OF_FILE))))))
  {
    OneDigit();
    hide Dec;
    assert " /Root 1 0 R >>\nstartxref\n" == " /Root " + ("1" + (" 0 R" + " >>\nstartxref\n"));
    var end := Dec(startxref) + END_OF_FILE;
    assert Trailer(count, startxref)
        == "trailer\n<< /Size " + (Dec(count) + ((" /Root " + ("1" + (" 0 R" + " >>\nstartxref\n"))) + end));
    assert (" /Root " + ("1" + (" 0 R" + " >>\nstartxref\n"))) + end
        == " /Root " + ("1" + (" 0 R" + (" >>\nstartxref\n" + end)));
  }

  lemma OneDigit()
    ensures Dec(1) == "1"
  {
  }

  /** The trailer announces one entry more than there are objects, and object 1 as the root. */
  lemma TrailerFound(objects: seq<string>)
    requires OffsetsFit(objects)
    ensures ReadTrailer(File(objects)) == Some(TrailerInfo(|objects| + 1, 1))
  {
    var count, start := |objects| + 1, |Body(objects, |objects|)|;
    TableFound(objects);
    EntriesAligned(objects, |objects|);
    TrailerParts(count, start);
    hide Dec, Body, Entries, Trailer, File, ReadTable, Expect, ReadNumber, ReadReference;
    Suffix(Entries(objects, |objects|), Trailer(count, start));
    var end := Dec(start) + END_OF_FILE;
    var root := " /Root " + (Dec(1) + (" 0 R" + (" >>\nstartxref\n" + end)));
    ExpectWritten("trailer\n<< /Size ", Dec(count) + root);
    NumberWritten(count, root);
    ReferenceWritten(" /Root ", 1, " >>\nstartxref\n" + end);
    ExpectWritten(" >>\nstartxref\n", end);
  }

  /** The objects after number `i`. */
  function Later(objects: seq<string>, i: nat): string
    requires i <= |objects|
    decreases |objects| - i
  {
    if i == |objects| then "" else ObjectBytes(i + 1, objects[i]) + Later(objects, i + 1)
  }

  lemma {:induction false} BodySplit(objects: seq<string>, i: nat)
    requires i <= |objects|
    ensures Body(objects, |objects|) == Body(objects, i) + Later(objects, i)
    decreases |objects| - i
  {
    if i == |objects| {
      assert Body(objects, i) + "" == Body(objects, i);
    } else {
      BodySplit(objects, i + 1);
      hide ObjectBytes;
      assert Body(objects, i) + ObjectBytes(i + 1, objects[i]) + Later(objects, i + 1)
          == Body(objects, i) + (ObjectBytes(i + 1, objects[i]) + Later(objects, i + 1));
    }
  }

  /** Everything after the content of object `i`. */
  function Following(objects: seq<string>, i: nat): string
    requires 1 <= i <= |objects|
  {
    var body, count := Body(objects, |objects|), |objects| + 1;
    END_OBJECT + Later(objects, i) + TableHead(count) + Entries(objects, |objects|) + Trailer(count, |body|)
  }

  lemma ObjectInFile(objects: seq<string>, i: nat)
    requires 1 <= i <= |objects|
    ensures Offset(objects, i) <= |File(objects)|
    ensures File(objects)[Offset(objects, i)..] == ObjectHeader(i) + (objects[i - 1] + Following(objects, i))
  {
    var before, body, count := Body(objects, i - 1), Body(objects, |objects|), |objects| + 1;
    assert Body(objects, i) == before + ObjectBytes(i, objects[i - 1]);
    hide Body, Later, TableHead, Entries, Trailer, ObjectHeader;
    BodySplit(objects, i);
    Rearrange(before, ObjectHeader(i), objects[i - 1], END_OBJECT, Later(objects, i), TableHead(count),
              Entries(objects, |objects|), Trailer(count, |body|));
    Suffix(before, ObjectHeader(i) + (objects[i - 1] + Following(objects, i)));
  }

  lemma Rearrange(a: string, b: string, c: string, d: string, e: string, f: string, g: string, h: string)
    ensures a + (b + c + d) + e + f + g + h == a + (b + (c + (d + e + f + g + h)))
  {
    Associate(b, c, d, e);
    var l := a + (b + c + d) + e + f + g + h;
    var r := a + (b + (c + (d + e + f + g + h)));
    assert d + e + f + g + h == d + (e + f + g + h);
    assert l == a + (b + c + d) + (e + f + g + h);
    assert r == a + (b + c + d) + (e + f + g + h);
  }

  lemma FollowingStarts(objects: seq<string>, i: nat)
    requires 1 <= i <= |objects|
    ensures "\nendobj\n" <= Following(objects, i)
  {
    hide Body, Later, TableHead, Entries, Trailer;
    var body, count := Body(objects, |objects|), |objects| + 1;
    StreamTail(END_OBJECT, Later(objects, i), TableHead(count), Entries(objects, |objects|), Trailer(count, |body|));
  }

  lemma StreamTail(a: string, b: string, c: string, d: string, e: string)
    ensures a <= a + b + c + d + e
  {
  }

  lemma HeaderReads(i: nat, rest: string)
    ensures ReadHeader(ObjectHeader(i) + rest, i) == Some(rest)
  {
    hide Expect, Dec, ReadNumber;
    assert ObjectHeader(i) + rest == Dec(i) + (" 0 obj\n" + rest);
    NumberWritten(i, " 0 obj\n" + rest);
    ExpectWritten(" 0 obj\n", rest);
  }

  /**
   From the end of the file every object is found: the table's entry for it is the byte position
   of its own header, and the content written follows that header.
   */
  lemma ObjectFound(objects: seq<string>, i: nat)
    requires 1 <= i <= |objects| && OffsetsFit(objects)
    ensures FindObject(File(objects), i) == Some(objects[i - 1] + Following(objects, i))
    ensures "\nendobj\n" <= Following(objects, i)
  {
    FollowingStarts(objects, i);
    TableFound(objects);
    EntryReadsBack(objects, i, Trailer(|objects| + 1, |Body(objects, |objects|)|));
    ObjectInFile(objects, i);
    hide File, Following, ReadTable, EntryOffset, Entries, Trailer, Body, ObjectHeader, ReadHeader;
    HeaderReads(i, objects[i - 1] + Following(objects, i));
  }
}
