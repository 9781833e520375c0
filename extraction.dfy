/**
 * Turning an uploaded resume into text.  The parsed content of the file (the
 * page texts PyMuPDF yields, the paragraph texts python-docx yields) is a
 * parameter; what is modelled is how that content is joined and how the
 * upload's file name selects the format.
 */
module Extraction {
  import opened Wrappers
  import opened Text

  /** The page texts, one after the other with nothing in between. */
  function Concat(pages: seq<string>): string
  {
    if pages == [] then "" else pages[0] + Concat(pages[1..])
  }

  lemma ConcatCons(page: string, rest: seq<string>)
    ensures Concat([page] + rest) == page + Concat(rest)
  {
    assert ([page] + rest)[1..] == rest;
  }

  lemma {:induction false} ConcatAppend(a: seq<string>, b: seq<string>)
    ensures Concat(a + b) == Concat(a) + Concat(b)
  {
    if a == [] {
      assert a + b == b;
    } else {
      var first, rest := a[0], a[1..];
      assert a == [first] + rest;
      assert a + b == [first] + (rest + b);
      ConcatAppend(rest, b);
      ConcatCons(first, rest + b);
      ConcatCons(first, rest);
      assert first + (Concat(rest) + Concat(b)) == (first + Concat(rest)) + Concat(b);
    }
  }

  /**
   * Page `i` sits in the text right after the pages before it: no page
   * boundary is marked and nothing is dropped.
   */
  lemma PageAt(pages: seq<string>, i: nat)
    requires i < |pages|
    ensures var start := |Concat(pages[..i])|;
      && start + |pages[i]| <= |Concat(pages)|
      && Concat(pages)[start..start + |pages[i]|] == pages[i]
  {
    assert pages == pages[..i] + ([pages[i]] + pages[i + 1..]);
    ConcatAppend(pages[..i], [pages[i]] + pages[i + 1..]);
    ConcatAppend([pages[i]], pages[i + 1..]);
    assert Concat([pages[i]]) == pages[i] by {
      assert [pages[i]][1..] == [];
    }
  }

  /** `extract_text_from_pdf`: `text += page.get_text()` for every page in order. */
  method ExtractPdfText(pages: seq<string>) returns (text: string)
    ensures text == Concat(pages)
  {
    text := "";
    for i := 0 to |pages|
      invariant text == Concat(pages[..i])
    {
      assert pages[..i + 1] == pages[..i] + [pages[i]];
      ConcatAppend(pages[..i], [pages[i]]);
      assert Concat([pages[i]]) == pages[i] by {
        assert [pages[i]][1..] == [];
      }
      text := text + pages[i];
    }
    assert pages[..|pages|] == pages;
  }

  /**
   * `extract_text_from_docx`: `"\n".join(para.text for para in doc.paragraphs)`.
   * Splitting the text at line breaks gives back the paragraphs, when there
   * is at least one and none holds a line break itself.
   */
  function ExtractDocxText(paragraphs: seq<string>): (text: string)
    ensures |paragraphs| >= 1 && (forall k :: 0 <= k < |paragraphs| ==> '\n' !in paragraphs[k]) ==>
      Split(text, '\n') == paragraphs
  {
    if |paragraphs| >= 1 && (forall k :: 0 <= k < |paragraphs| ==> '\n' !in paragraphs[k]) then
      SplitJoin(paragraphs, '\n');
      Join(paragraphs, '\n')
    else
      Join(paragraphs, '\n')
  }

  /**
   * Paragraph `i` sits in the text right after the paragraphs before it and
   * one line break each; a line break follows every paragraph but the last,
   * and the last one ends the text.  This holds whatever the paragraphs hold.
   */
  lemma ParagraphAt(paragraphs: seq<string>, i: nat)
    requires i < |paragraphs|
    ensures var text := ExtractDocxText(paragraphs);
      var start := if i == 0 then 0 else |Join(paragraphs[..i], '\n')| + 1;
      var end := start + |paragraphs[i]|;
      && end <= |text|
      && text[start..end] == paragraphs[i]
      && (i + 1 < |paragraphs| ==> end < |text| && text[end] == '\n')
      && (i + 1 == |paragraphs| ==> end == |text|)
  {
    var text := ExtractDocxText(paragraphs);
    var pre := if i == 0 then "" else Join(paragraphs[..i], '\n') + "\n";
    var after := if i + 1 == |paragraphs| then "" else "\n" + Join(paragraphs[i + 1..], '\n');
    DocxTextAround(paragraphs, i);
    var end := |pre| + |paragraphs[i]|;
    assert text[|pre|..end] == paragraphs[i];
    if i + 1 < |paragraphs| {
      assert text[end] == after[0];
    }
  }

  /** The text is what comes before paragraph `i`, the paragraph itself, and what follows it. */
  lemma DocxTextAround(paragraphs: seq<string>, i: nat)
    requires i < |paragraphs|
    ensures ExtractDocxText(paragraphs)
         == (if i == 0 then "" else Join(paragraphs[..i], '\n') + "\n")
          + paragraphs[i]
          + (if i + 1 == |paragraphs| then "" else "\n" + Join(paragraphs[i + 1..], '\n'))
  {
    var tail := paragraphs[i..];
    if i == 0 {
      assert tail == paragraphs;
    } else {
      assert paragraphs == paragraphs[..i] + tail;
      JoinAppend(paragraphs[..i], tail, '\n');
    }
    assert tail[0] == paragraphs[i];
    assert tail[1..] == paragraphs[i + 1..];
  }

  /** A document with no paragraphs and one with a single empty paragraph give the same text. */
  lemma DocxEmptyParagraph()
    ensures ExtractDocxText([]) == ExtractDocxText([""])
  {
  }

  datatype DocumentKind = Pdf | Docx

  datatype UploadError = UnsupportedFileType

  /** No file name ends in both ".pdf" and ".docx". */
  lemma SuffixesExclusive(filename: string)
    ensures !(EndsWith(filename, ".pdf") && EndsWith(filename, ".docx"))
  {
    var n := |filename|;
    assert EndsWith(filename, ".pdf") ==> filename[n - 1] == filename[n - 4..][3] == 'f';
    assert EndsWith(filename, ".docx") ==> filename[n - 1] == filename[n - 5..][4] == 'x';
  }

  /**
   * The format chosen from the original file name: ".pdf" is tested first,
   * then ".docx"; the test is case-sensitive.  Since no name has both
   * suffixes, the order of the tests does not matter.
   */
  function UploadKind(filename: string): (kind: Option<DocumentKind>)
    ensures kind == Some(Pdf) <==> EndsWith(filename, ".pdf")
    ensures kind == Some(Docx) <==> EndsWith(filename, ".docx")
    ensures kind == None <==> !EndsWith(filename, ".pdf") && !EndsWith(filename, ".docx")
  {
    SuffixesExclusive(filename);
    if EndsWith(filename, ".pdf") then Some(Pdf)
    else if EndsWith(filename, ".docx") then Some(Docx)
    else None
  }

  /** Upper-case suffixes are rejected. */
  lemma UpperCaseSuffixRejected()
    ensures UploadKind("resume.PDF") == None
    ensures UploadKind("resume.DOCX") == None
  {
    assert "resume.PDF"[9] != ".pdf"[3];
    assert "resume.DOCX"[10] != ".docx"[4];
    assert "resume.DOCX"[10] != ".pdf"[3];
  }

  /**
   * The extraction step of both upload routes: PDF pages concatenated, DOCX
   * paragraphs joined by line breaks, anything else an unsupported file type.
   */
  method ExtractResumeText(filename: string, pages: seq<string>, paragraphs: seq<string>)
    returns (r: Result<string, UploadError>)
    ensures EndsWith(filename, ".pdf") ==> r == Success(Concat(pages))
    ensures EndsWith(filename, ".docx") ==> r == Success(ExtractDocxText(paragraphs))
    ensures r.Failure? <==> UploadKind(filename).None?
    ensures r.Failure? ==> r.error == UnsupportedFileType
  {
    var kind := UploadKind(filename);
    match kind {
      case Some(Pdf) =>
        var text := ExtractPdfText(pages);
        r := Success(text);
      case Some(Docx) =>
        r := Success(ExtractDocxText(paragraphs));
      case None =>
        r := Failure(UnsupportedFileType);
    }
  }
}
