/**
 The single-page sample document: its content stream, its five objects, and the way back from
 the bytes of the file to the lines of text that were put in.
 */
module PdfDocument {
  import opened Prelude
  import opened PdfText
  import opened PdfFile

  const CATALOG := "<< /Type /Catalog /Pages 2 0 R >>"
  const PAGES := "<< /Type /Pages /Kids [3 0 R] /Count 1 >>"
  const PARENT := "<< /Type /Page /Parent 2 0 R"
  const RESOURCES := " /Resources << /Font << /F1 4 0 R >> >>"
  const MEDIA_BOX := " /MediaBox [0 0 612 792]"
  const CONTENTS := " /Contents 5 0 R >>"
  const PAGE := PARENT + RESOURCES + MEDIA_BOX + CONTENTS
  const FONT := "<< /Type /Font /Subtype /Type1 /BaseFont /Helvetica >>"

  const PREAMBLE := ["BT", "/F1 11 Tf", "50 760 Td", "14 TL"]

  // ----- Writing -----

  /** `"\n".join(parts)`. */
  function Join(parts: seq<string>): string {
    if parts == [] then ""
    else if |parts| == 1 then parts[0]
    else Join(parts[..|parts| - 1]) + "\n" + parts[|parts| - 1]
  }

  function ShowLine(line: string, first: bool): string {
    (if first then "(" else "T* (") + PdfEscape(line) + ") Tj"
  }

  function Parts(lines: seq<string>): seq<string> {
    if lines == [] then PREAMBLE else Parts(lines[..|lines| - 1]) + [ShowLine(lines[|lines| - 1], |lines| == 1)]
  }

  function Content(lines: seq<string>): string {
    Join(Parts(lines) + ["ET"])
  }

  function StreamObject(content: string): string {
    "<< /Length " + Dec(|content|) + " >>\nstream\n" + content + "\nendstream"
  }

  function Objects(content: string): seq<string> {
    [CATALOG, PAGES, PAGE, FONT, StreamObject(content)]
  }

  predicate Latin1(s: string) {
    forall i :: 0 <= i < |s| ==> s[i] as int < 256
  }

  /** `None` is the encoding error for a character outside Latin-1. */
  function Sample(lines: seq<string>): Option<string> {
    if Latin1(Content(lines)) then Some(File(Objects(Content(lines)))) else None
  }

  method BuildSamplePdf(lines: seq<string>) returns (pdf: Option<string>)
    ensures pdf == Sample(lines)
  {
    var parts := PREAMBLE;
    for i := 0 to |lines|
      invariant parts == Parts(lines[..i])
    {
      assert lines[..i + 1][..i] == lines[..i];
      var escaped := PdfEscape(lines[i]);
      parts := parts + [if i == 0 then "(" + escaped + ") Tj" else "T* (" + escaped + ") Tj"];
    }
    assert lines[..|lines|] == lines;
    parts := parts + ["ET"];
    var content := Join(parts);
    if !Latin1(content) {
      return None;
    }
    var buf := Assemble(Objects(content));
    return Some(buf);
  }

  // ----- Reading -----

  /** The bytes of a stream: as many as its dictionary says, up to the closing keyword. */
  function ReadStream(b: string): Option<string> {
    match Expect(b, "<< /Length ")
    case None => None
    case Some(r) =>
      var length := ReadDigits(r, 0);
      match Expect(length.rest, " >>\nstream\n")
      case None => None
      case Some(data) =>
        if length.value > |data| || Expect(data[length.value..], "\nendstream").None? then None
        else Some(data[..length.value])
  }

  /** The texts shown after the preamble of a content stream. */
  function ReadShown(b: string, first: bool): Option<seq<string>>
    decreases |b|
  {
    if b == "\nET" then Some([])
    else
      match Expect(b, if first then "\n(" else "\nT* (")
      case None => None
      case Some(r) =>
        match ReadLiteral(r, 0)
        case None => None
        case Some(Reading(text, rest)) =>
          match Expect(rest, " Tj")
          case None => None
          case Some(next) =>
            match ReadShown(next, false) case None => None case Some(texts) => Some([text] + texts)
  }

  function ReadContent(content: string): Option<seq<string>> {
    match Expect(content, "BT\n/F1 11 Tf\n50 760 Td\n14 TL")
    case None => None
    case Some(b) => ReadShown(b, true)
  }

  /** What a page refers to. */
  datatype Page = Page(parent: nat, font: nat, contents: nat)

  function ReadPage(b: string): Option<Page> {
    match ReadReference(b, "<< /Type /Page /Parent ")
    case None => None
    case Some(parent) =>
      match ReadReference(parent.rest, " /Resources << /Font << /F1 ")
      case None => None
      case Some(font) =>
        match Expect(font.rest, " >> >> /MediaBox [0 0 612 792]")
        case None => None
        case Some(rest) =>
          match ReadReference(rest, " /Contents ")
          case None => None
          case Some(contents) =>
            if Expect(contents.rest, " >>").None? then None else Some(Page(parent.value, font.value, contents.value))
  }

  /** The object a number leads to, as far as it is needed. */
  function Follow(pdf: string, i: nat, keyword: string): Option<nat> {
    match FindObject(pdf, i)
    case None => None
    case Some(b) => match ReadReference(b, keyword) case None => None case Some(r) => Some(r.value)
  }

  /** From the trailer's root to the page tree and its one page. */
  function FindPage(pdf: string): Option<Page> {
    match ReadTrailer(pdf)
    case None => None
    case Some(trailer) =>
      match Follow(pdf, trailer.root, "<< /Type /Catalog /Pages ")
      case None => None
      case Some(pages) =>
        match Follow(pdf, pages, "<< /Type /Pages /Kids [")
        case None => None
        case Some(kid) =>
          match FindObject(pdf, kid)
          case None => None
          case Some(b) =>
            match ReadPage(b) case None => None case Some(page) => if page.parent != pages then None else Some(page)
  }

  predicate HasFont(pdf: string, page: Page) {
    FindObject(pdf, page.font).Some?
    && Expect(FindObject(pdf, page.font).value, "<< /Type /Font /Subtype /Type1 /BaseFont /Helvetica >>").Some?
  }

  /**
   From the bytes of a file to the lines of its page: the trailer's root, the page tree, the page
   with its font, the content stream the page names, and the texts shown in it.
   */
  function ReadDocument(pdf: string): Option<seq<string>> {
    match FindPage(pdf)
    case None => None
    case Some(page) =>
      if !HasFont(pdf, page) then None
      else
        match FindObject(pdf, page.contents)
        case None => None
        case Some(b) =>
          match ReadStream(b)
          case None => None
          case Some(content) => ReadContent(content)
  }

  // ----- The content stream reads back -----

  /** What follows the preamble for the remaining lines. */
  function Shown(lines: seq<string>, first: bool): string {
    if lines == [] then "\nET" else "\n" + ShowLine(lines[0], first) + Shown(lines[1..], false)
  }

  lemma JoinOneMore(parts: seq<string>, p: string)
    requires parts != []
    ensures Join(parts + [p]) == Join(parts) + "\n" + p
  {
    assert (parts + [p])[..|parts|] == parts;
  }

  lemma PartsNonEmpty(lines: seq<string>)
    ensures Parts(lines) != []
  {
  }

  lemma PartsOneMore(lines: seq<string>, k: nat)
    requires k < |lines|
    ensures Join(Parts(lines[..k + 1])) == Join(Parts(lines[..k])) + "\n" + ShowLine(lines[k], k == 0)
  {
    var before := lines[..k];
    assert lines[..k + 1][..k] == before;
    PartsNonEmpty(before);
    assert Parts(lines[..k + 1]) == Parts(before) + [ShowLine(lines[k], k == 0)];
    hide Parts, Join, ShowLine;
    JoinOneMore(Parts(before), ShowLine(lines[k], k == 0));
  }

  lemma ShownNext(lines: seq<string>, k: nat)
    requires k < |lines|
    ensures Shown(lines[k..], k == 0) == "\n" + ShowLine(lines[k], k == 0) + Shown(lines[k + 1..], false)
  {
    hide ShowLine;
    assert lines[k..][1..] == lines[k + 1..];
  }

  lemma ContentEnd(lines: seq<string>)
    ensures Content(lines) == Join(Parts(lines)) + "\nET"
  {
    PartsNonEmpty(lines);
    hide Parts, Join;
    JoinOneMore(Parts(lines), "ET");
    assert "\n" + "ET" == "\nET";
    Associate(Join(Parts(lines)), "\n", "ET", "");
    assert "ET" + "" == "ET" && Join(Parts(lines)) + "\n" + "ET" + "" == Join(Parts(lines)) + "\n" + "ET";
  }

  lemma {:induction false} ContentFrom(lines: seq<string>, k: nat)
    requires k <= |lines|
    ensures Content(lines) == Join(Parts(lines[..k])) + Shown(lines[k..], k == 0)
    decreases |lines| - k
  {
    hide Join, Parts, ShowLine, Content;
    if k == |lines| {
      assert lines[..k] == lines;
      ContentEnd(lines);
      assert Shown(lines[k..], k == 0) == "\nET";
    } else {
      ContentFrom(lines, k + 1);
      PartsOneMore(lines, k);
      ShownNext(lines, k);
      hide Shown;
      LineBetween(Join(Parts(lines[..k])), "\n", ShowLine(lines[k], k == 0), Shown(lines[k + 1..], false));
    }
  }

  lemma LineBetween(a: string, b: string, c: string, d: string)
    ensures a + b + c + d == a + (b + c + d)
  {
  }

  function Normalized(lines: seq<string>): seq<string> {
    if lines == [] then [] else [NormalizeEol(lines[0])] + Normalized(lines[1..])
  }

  lemma LineReads(line: string, first: bool, rest: string)
    ensures var b := "\n" + ShowLine(line, first) + rest;
            && b != "\nET"
            && Expect(b, if first then "\n(" else "\nT* (") == Some(Escape(line) + ")" + (" Tj" + rest))
  {
    EscapeIsOnePass(line);
    hide PdfEscape, Escape;
    var opening := if first then "(" else "T* (";
    var b := "\n" + ShowLine(line, first) + rest;
    var e := PdfEscape(line);
    assert b == ("\n" + opening) + (e + ")" + (" Tj" + rest)) by {
      assert ") Tj" == ")" + " Tj";
      Regroup("\n", opening, e, ")", " Tj", rest);
    }
    assert "\n" + opening == if first then "\n(" else "\nT* (";
    assert b[1] == opening[0];
    ExpectWritten("\n" + opening, e + ")" + (" Tj" + rest));
  }

  lemma Regroup(a: string, b: string, c: string, d: string, e: string, f: string)
    ensures a + (b + c + (d + e)) + f == (a + b) + (c + d + (e + f))
  {
    assert a + (b + c + (d + e)) + f == (a + b) + (c + d + e + f);
    assert c + d + e + f == c + d + (e + f);
  }

  lemma {:induction false} ShownReads(lines: seq<string>, first: bool)
    ensures ReadShown(Shown(lines, first), first) == Some(Normalized(lines))
  {
    if lines != [] {
      var rest := Shown(lines[1..], false);
      ShownReads(lines[1..], false);
      LineReads(lines[0], first, rest);
      EscapedTextReadsBack(lines[0], " Tj" + rest);
      ExpectWritten(" Tj", rest);
      hide ReadLiteral, Escape, NormalizeEol, Expect, ShowLine;
      assert ReadShown(Shown(lines, first), first) == Some([NormalizeEol(lines[0])] + Normalized(lines[1..]));
    }
  }

  lemma ContentReads(lines: seq<string>)
    ensures ReadContent(Content(lines)) == Some(Normalized(lines))
  {
    ContentFrom(lines, 0);
    assert lines[..0] == [] && lines[0..] == lines;
    PreambleText();
    hide Content, Join, Shown, Normalized, ReadShown, Expect;
    ExpectWritten("BT\n/F1 11 Tf\n50 760 Td\n14 TL", Shown(lines, true));
    ShownReads(lines, true);
  }

  /** The stream's announced length is the number of bytes between its keywords. */
  lemma StreamReads(content: string, rest: string)
    ensures ReadStream(StreamObject(content) + rest) == Some(content)
  {
    hide Dec, ReadDigits, Expect;
    var middle := " >>\nstream\n" + (content + ("\nendstream" + rest));
    assert StreamObject(content) + rest == "<< /Length " + (Dec(|content|) + middle) by {
      StreamRegroup("<< /Length ", Dec(|content|), " >>\nstream\n", content, "\nendstream", rest);
    }
    ExpectWritten("<< /Length ", Dec(|content|) + middle);
    NumbersReadBack(|content|, middle);
    ExpectWritten(" >>\nstream\n", content + ("\nendstream" + rest));
    Suffix(content, "\nendstream" + rest);
    ExpectWritten("\nendstream", rest);
  }

  lemma StreamRegroup(a: string, b: string, c: string, d: string, e: string, f: string)
    ensures a + b + c + d + e + f == a + (b + (c + (d + (e + f))))
  {
    assert a + b + c + d + e + f == a + b + c + (d + (e + f));
    Associate(a, b, c, d + (e + f));
  }

  // ----- The whole document -----

  lemma {:induction false} OffsetsGrow(objects: seq<string>, i: nat, n: nat)
    requires i <= n <= |objects|
    ensures |Body(objects, i)| <= |Body(objects, n)|
    decreases n - i
  {
    if i < n {
      OffsetsGrow(objects, i, n - 1);
    }
  }

  lemma SmallDec(i: nat)
    requires i < 10
    ensures |Dec(i)| == 1
  {
  }

  /** The stream object is the last one, so the offsets do not depend on the text. */
  lemma OffsetOfStream(content: string)
    ensures |Body(Objects(content), 4)| < 1000
  {
    hide Dec, StreamObject;
    SmallDec(1);
    SmallDec(2);
    SmallDec(3);
    SmallDec(4);
    var objects := Objects(content);
    assert |Body(objects, 0)| == |HEADER| <= 20;
    assert |CATALOG| <= 100 && |PAGES| <= 100 && |PAGE| <= 200 && |FONT| <= 100;
    assert |Body(objects, 1)| <= 200;
    assert |Body(objects, 2)| <= 400;
    assert |Body(objects, 3)| <= 700;
  }

  lemma TenDigits()
    ensures Power10(10) >= 1000
  {
    PowerLarge(8);
    assert Power10(9) >= 100;
    assert Power10(10) >= 1000;
  }

  /** Whatever the lines, every cross-reference entry is 20 bytes. */
  lemma SampleOffsetsFit(content: string)
    ensures OffsetsFit(Objects(content))
  {
    TenDigits();
    OffsetOfStream(content);
    hide Power10, Body;
    var objects := Objects(content);
    forall i | 1 <= i <= |objects|
      ensures Offset(objects, i) < Power10(10)
    {
      OffsetsGrow(objects, i - 1, 4);
    }
  }

  lemma {:induction false} EscapeLatin1(text: string)
    ensures Latin1(Escape(text)) <==> Latin1(text)
  {
    if text != "" {
      EscapeLatin1(text[1..]);
      Latin1Append(EscapeChar(text[0]), Escape(text[1..]));
      Latin1Append([text[0]], text[1..]);
      assert [text[0]] + text[1..] == text;
      assert Latin1(EscapeChar(text[0])) <==> Latin1([text[0]]) by {
        assert EscapeChar(text[0])[|EscapeChar(text[0])| - 1] == text[0];
        assert [text[0]][0] == text[0];
      }
    }
  }

  lemma Latin1Append(a: string, b: string)
    ensures Latin1(a + b) <==> Latin1(a) && Latin1(b)
  {
    var c := a + b;
    assert forall i :: 0 <= i < |a| ==> c[i] == a[i];
    assert forall i :: 0 <= i < |b| ==> c[|a| + i] == b[i];
  }

  lemma ShowLineLatin1(line: string, first: bool)
    ensures Latin1(ShowLine(line, first)) <==> Latin1(line)
  {
    EscapeIsOnePass(line);
    EscapeLatin1(line);
    var opening := if first then "(" else "T* (";
    hide PdfEscape, Escape;
    Latin1Append(opening, PdfEscape(line));
    Latin1Append(opening + PdfEscape(line), ") Tj");
    assert Latin1(opening) && Latin1(") Tj");
  }

  lemma {:induction false} ShownLatin1(lines: seq<string>, first: bool)
    ensures Latin1(Shown(lines, first)) <==> forall i :: 0 <= i < |lines| ==> Latin1(lines[i])
  {
    if lines != [] {
      ShownLatin1(lines[1..], false);
      ShowLineLatin1(lines[0], first);
      hide ShowLine, Latin1;
      assert Latin1("\n") by { NewlineLatin1(); }
      Latin1Append("\n", ShowLine(lines[0], first));
      Latin1Append("\n" + ShowLine(lines[0], first), Shown(lines[1..], false));
      assert forall i :: 1 <= i < |lines| ==> lines[i] == lines[1..][i - 1];
    }
  }

  lemma NewlineLatin1()
    ensures Latin1("\n")
  {
  }

  /** The document is written exactly when every line fits Latin-1. */
  lemma WrittenExactly(lines: seq<string>)
    ensures Sample(lines).Some? <==> forall i, j :: 0 <= i < |lines| && 0 <= j < |lines[i]| ==> lines[i][j] as int < 256
  {
    assert (forall i :: 0 <= i < |lines| ==> Latin1(lines[i]))
      <==> forall i, j :: 0 <= i < |lines| && 0 <= j < |lines[i]| ==> lines[i][j] as int < 256;
    ContentFrom(lines, 0);
    assert lines[..0] == [] && lines[0..] == lines;
    assert Latin1(Join(PREAMBLE)) by { PreambleLatin1(); }
    hide Content, Join, Shown, Latin1, File;
    Latin1Append(Join(PREAMBLE), Shown(lines, true));
    ShownLatin1(lines, true);
  }

  lemma PreambleText()
    ensures Join(PREAMBLE) == "BT\n/F1 11 Tf\n50 760 Td\n14 TL"
  {
    var p := PREAMBLE;
    assert p[..3] == ["BT", "/F1 11 Tf", "50 760 Td"] && p[..3][..2] == ["BT", "/F1 11 Tf"] && p[..3][..2][..1] == ["BT"];
    assert Join(p[..3][..2][..1]) == "BT";
    assert Join(p[..3][..2]) == "BT\n/F1 11 Tf";
    assert Join(p[..3]) == "BT\n/F1 11 Tf\n50 760 Td";
  }

  lemma PreambleLatin1()
    ensures Latin1(Join(PREAMBLE))
  {
    PreambleText();
  }

  lemma DigitOf(i: nat)
    requires i < 10
    ensures Dec(i) == [('0' as int + i) as char]
  {
  }

  lemma CatalogReads(rest: string)
    ensures ReadReference(CATALOG + rest, "<< /Type /Catalog /Pages ") == Some(NatReading(2, " >>" + rest))
  {
    DigitOf(2);
    hide Dec, ReadReference;
    assert CATALOG == "<< /Type /Catalog /Pages " + ("2" + (" 0 R" + " >>"));
    ReferenceRegroup("<< /Type /Catalog /Pages ", "2", " 0 R", " >>", rest);
    ReferenceWritten("<< /Type /Catalog /Pages ", 2, " >>" + rest);
  }

  lemma PagesReads(rest: string)
    ensures ReadReference(PAGES + rest, "<< /Type /Pages /Kids [") == Some(NatReading(3, "] /Count 1 >>" + rest))
  {
    DigitOf(3);
    hide Dec, ReadReference;
    assert PAGES == "<< /Type /Pages /Kids [" + ("3" + (" 0 R" + "] /Count 1 >>"));
    ReferenceRegroup("<< /Type /Pages /Kids [", "3", " 0 R", "] /Count 1 >>", rest);
    ReferenceWritten("<< /Type /Pages /Kids [", 3, "] /Count 1 >>" + rest);
  }

  lemma ReferenceRegroup(a: string, b: string, c: string, d: string, rest: string)
    ensures a + (b + (c + d)) + rest == a + (b + (c + (d + rest)))
  {
  }

  lemma ParentReads(rest: string)
    ensures ReadReference(PARENT + rest, "<< /Type /Page /Parent ") == Some(NatReading(2, rest))
  {
    DigitOf(2);
    hide Dec, ReadReference;
    assert PARENT == "<< /Type /Page /Parent " + ("2" + (" 0 R" + ""));
    ReferenceRegroup("<< /Type /Page /Parent ", "2", " 0 R", "", rest);
    assert "" + rest == rest;
    ReferenceWritten("<< /Type /Page /Parent ", 2, rest);
  }

  lemma ResourcesRead(rest: string)
    ensures ReadReference(RESOURCES + rest, " /Resources << /Font << /F1 ") == Some(NatReading(4, " >> >>" + rest))
  {
    DigitOf(4);
    hide Dec, ReadReference;
    assert RESOURCES == " /Resources << /Font << /F1 " + ("4" + (" 0 R" + " >> >>"));
    ReferenceRegroup(" /Resources << /Font << /F1 ", "4", " 0 R", " >> >>", rest);
    ReferenceWritten(" /Resources << /Font << /F1 ", 4, " >> >>" + rest);
  }

  lemma MediaBoxReads(rest: string)
    ensures Expect(" >> >>" + (MEDIA_BOX + rest), " >> >> /MediaBox [0 0 612 792]") == Some(rest)
  {
    hide Expect;
    assert " >> >> /MediaBox [0 0 612 792]" == " >> >>" + MEDIA_BOX;
    var box := MEDIA_BOX;
    assert " >> >>" + (box + rest) == (" >> >>" + box) + rest;
    ExpectWritten(" >> >> /MediaBox [0 0 612 792]", rest);
  }

  lemma ContentsRead(rest: string)
    ensures ReadReference(CONTENTS + rest, " /Contents ") == Some(NatReading(5, " >>" + rest))
  {
    DigitOf(5);
    hide Dec, ReadReference;
    assert CONTENTS == " /Contents " + ("5" + (" 0 R" + " >>"));
    ReferenceRegroup(" /Contents ", "5", " 0 R", " >>", rest);
    ReferenceWritten(" /Contents ", 5, " >>" + rest);
  }

  lemma PageReads(rest: string)
    ensures ReadPage(PAGE + rest) == Some(Page(2, 4, 5))
  {
    hide ReadReference, Expect;
    PageRegroup(PARENT, RESOURCES, MEDIA_BOX, CONTENTS, rest);
    ParentReads(RESOURCES + (MEDIA_BOX + (CONTENTS + rest)));
    ResourcesRead(MEDIA_BOX + (CONTENTS + rest));
    MediaBoxReads(CONTENTS + rest);
    ContentsRead(rest);
    ExpectWritten(" >>", rest);
  }

  lemma PageRegroup(a: string, b: string, c: string, d: string, rest: string)
    ensures a + b + c + d + rest == a + (b + (c + (d + rest)))
  {
    Associate(a, b, c, d + rest);
    assert a + b + c + d + rest == a + b + c + (d + rest);
  }

  lemma CatalogFound(objects: seq<string>)
    requires |objects| >= 1 && OffsetsFit(objects) && objects[0] == CATALOG
    ensures Follow(File(objects), 1, "<< /Type /Catalog /Pages ") == Some(2)
  {
    hide File, FindObject, ReadReference, OffsetsFit, Following;
    ObjectFound(objects, 1);
    CatalogReads(Following(objects, 1));
  }

  lemma PagesFound(objects: seq<string>)
    requires |objects| >= 2 && OffsetsFit(objects) && objects[1] == PAGES
    ensures Follow(File(objects), 2, "<< /Type /Pages /Kids [") == Some(3)
  {
    hide File, FindObject, ReadReference, OffsetsFit, Following;
    ObjectFound(objects, 2);
    PagesReads(Following(objects, 2));
  }

  lemma KidFound(objects: seq<string>)
    requires |objects| >= 3 && OffsetsFit(objects) && objects[2] == PAGE
    ensures FindObject(File(objects), 3).Some? && ReadPage(FindObject(File(objects), 3).value) == Some(Page(2, 4, 5))
  {
    hide File, FindObject, ReadPage, OffsetsFit, Following;
    ObjectFound(objects, 3);
    PageReads(Following(objects, 3));
  }

  lemma FontFound(objects: seq<string>)
    requires |objects| >= 4 && OffsetsFit(objects) && objects[3] == FONT
    ensures HasFont(File(objects), Page(2, 4, 5))
  {
    hide File, FindObject, Expect, OffsetsFit, Following;
    ObjectFound(objects, 4);
    ExpectWritten(FONT, Following(objects, 4));
  }

  /** The page is found from the trailer's root, with its font and its contents. */
  lemma PageFound(content: string)
    ensures FindPage(File(Objects(content))) == Some(Page(2, 4, 5))
    ensures HasFont(File(Objects(content)), Page(2, 4, 5))
  {
    var objects := Objects(content);
    assert |objects| == 5 && objects[0] == CATALOG && objects[1] == PAGES && objects[2] == PAGE && objects[3] == FONT;
    SampleOffsetsFit(content);
    hide File, FindObject, ReadTrailer, Follow, ReadPage, OffsetsFit, Objects, HasFont;
    TrailerFound(objects);
    CatalogFound(objects);
    PagesFound(objects);
    KidFound(objects);
    FontFound(objects);
  }

  /**
   The way back: from the end of the written file a reader finds the table, the root, the page,
   its content stream, the stream's exact bytes and in them the lines, with line ends inside a
   line normalised.
   */
  lemma DocumentReadsBack(lines: seq<string>)
    requires Sample(lines).Some?
    ensures ReadDocument(Sample(lines).value) == Some(Normalized(lines))
  {
    var content := Content(lines);
    var objects := Objects(content);
    assert objects[4] == StreamObject(content) && |objects| == 5;
    SampleOffsetsFit(content);
    hide Content, File, FindObject, FindPage, HasFont, ReadStream, ReadContent, Normalized, OffsetsFit, StreamObject, Following;
    PageFound(content);
    ObjectFound(objects, 5);
    StreamReads(content, Following(objects, 5));
    ContentReads(lines);
  }

  lemma {:induction false} NormalizedLinesExactly(lines: seq<string>)
    ensures Normalized(lines) == lines <==> forall i :: 0 <= i < |lines| ==> '\r' !in lines[i]
    ensures |Normalized(lines)| == |lines|
  {
    if lines != [] {
      NormalizedLinesExactly(lines[1..]);
      NormalizedExactly(lines[0]);
      hide NormalizeEol;
      assert lines == [lines[0]] + lines[1..];
      assert Normalized(lines)[0] == NormalizeEol(lines[0]) && Normalized(lines)[1..] == Normalized(lines[1..]);
      assert forall i :: 1 <= i < |lines| ==> lines[i] == lines[1..][i - 1];
    }
  }

  /** Exactly the lines put in are read back from the document, unless one of them contains a carriage return. */
  lemma LinesUnchangedExactly(lines: seq<string>)
    requires Sample(lines).Some?
    ensures ReadDocument(Sample(lines).value) == Some(lines) <==> forall i :: 0 <= i < |lines| ==> '\r' !in lines[i]
    ensures ReadDocument(Sample(lines).value).Some? && |ReadDocument(Sample(lines).value).value| == |lines|
  {
    hide Sample, ReadDocument, Normalized;
    DocumentReadsBack(lines);
    NormalizedLinesExactly(lines);
  }
}
