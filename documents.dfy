/**
 * The validation half of the `upload` endpoint: which file names are accepted,
 * which reader extracts their text, the minimum amount of text, and the
 * metadata record kept in `uploaded_files`.
 */
module Documents {
  import opened Text

  const UploadDir: string := "uploads"
  /** Fewer stripped characters than this and the upload is rejected as empty. */
  const MinTextLength: nat := 10

  /** `filename.lower().endswith(('.pdf', '.docx', '.doc'))`. */
  predicate Accepted(filename: string) {
    var name := Lower(filename);
    EndsWith(name, ".pdf") || EndsWith(name, ".docx") || EndsWith(name, ".doc")
  }

  /** Whether the extracted text is long enough once stripped: `len(text.strip()) >= 10`. */
  predicate HasText(text: string) {
    |Strip(text)| >= MinTextLength
  }

  /** Text that is nothing but whitespace never passes the threshold, whatever its length. */
  lemma BlankTextRejected(text: string)
    requires forall i :: 0 <= i < |text| ==> IsSpace(text[i])
    ensures !HasText(text)
  {
  }

  /**
   * Whitespace before and after the text is stripped away, whatever each side holds,
   * so it never counts towards the threshold.
   */
  lemma {:induction false} PaddingIgnored(lpad: string, text: string, rpad: string)
    requires forall i :: 0 <= i < |lpad| ==> IsSpace(lpad[i])
    requires forall i :: 0 <= i < |rpad| ==> IsSpace(rpad[i])
    ensures Strip(lpad + text + rpad) == Strip(text)
    ensures HasText(lpad + text + rpad) == HasText(text)
  {
    var s := lpad + text + rpad;
    var st := Strip(text);
    var lo := LeadingSpace(text);
    if st == [] {
      assert forall i :: 0 <= i < |s| ==> IsSpace(s[i]) by {
        forall i | 0 <= i < |s| ensures IsSpace(s[i]) {
          if i < |lpad| { assert s[i] == lpad[i]; }
          else if i < |lpad| + |text| { assert s[i] == text[i - |lpad|]; }
          else { assert s[i] == rpad[i - |lpad| - |text|]; }
        }
      }
    } else {
      var at := |lpad| + lo;
      assert s[at..at + |st|] == st by {
        assert st == text[lo..lo + |st|];
        forall i | 0 <= i < |st| ensures s[at + i] == st[i] {
          assert s[at + i] == text[lo + i];
        }
      }
      forall i | 0 <= i < |s| && !(at <= i < at + |st|) ensures IsSpace(s[i]) {
        if i < |lpad| { assert s[i] == lpad[i]; }
        else if i < |lpad| + |text| { assert s[i] == text[i - |lpad|]; }
        else { assert s[i] == rpad[i - |lpad| - |text|]; }
      }
      StripUnique(s, at, st);
    }
  }

  /** The two text extractors: `extract_pdf` (pypdf) and `extract_docx` (python-docx). */
  datatype Reader = PdfReader | DocxReader

  /** `f"{int(time.time()*1000)}_{file.filename}"`. */
  function FileId(millis: nat, filename: string): string {
    Decimal(millis) + "_" + filename
  }

  /** `f"{UPLOAD_DIR}/{fid}"`. */
  function UploadPath(fid: string): string {
    UploadDir + "/" + fid
  }

  /** Reader choice as written: `extract_pdf if fpath.endswith('.pdf') else extract_docx`, case-sensitive. */
  function ReaderAsWritten(path: string): Reader {
    if EndsWith(path, ".pdf") then PdfReader else DocxReader
  }

  /** Reader choice with the same case folding as the acceptance test. */
  function ReaderFor(path: string): Reader {
    if EndsWith(Lower(path), ".pdf") then PdfReader else DocxReader
  }

  lemma {:induction false} EndsWithConcat(a: string, b: string, suffix: string)
    requires |suffix| <= |b|
    ensures EndsWith(a + b, suffix) == EndsWith(b, suffix)
  {
    assert (a + b)[|a + b| - |suffix|..] == b[|b| - |suffix|..];
  }

  /**
   * The reader that is chosen for an accepted upload is the PDF reader exactly
   * when the name was accepted as a PDF, whatever the letter case of the name.
   */
  lemma ReaderMatchesAcceptance(millis: nat, filename: string)
    requires Accepted(filename)
    ensures ReaderFor(UploadPath(FileId(millis, filename))) == PdfReader <==> EndsWith(Lower(filename), ".pdf")
  {
    var prefix := UploadDir + "/" + Decimal(millis) + "_";
    assert UploadPath(FileId(millis, filename)) == prefix + filename;
    LowerConcat(prefix, filename);
    EndsWithConcat(Lower(prefix), Lower(filename), ".pdf");
  }

  /**
   * The reader chosen as written depends on the letter case of the name: an accepted
   * file is read as a PDF exactly when its name ends with a lower-case ".pdf".
   */
  lemma ReaderAsWrittenIsCaseSensitive(millis: nat, filename: string)
    requires Accepted(filename)
    ensures ReaderAsWritten(UploadPath(FileId(millis, filename))) == PdfReader <==> EndsWith(filename, ".pdf")
  {
    var prefix := UploadDir + "/" + Decimal(millis) + "_";
    assert UploadPath(FileId(millis, filename)) == prefix + filename;
    EndsWithConcat(prefix, filename, ".pdf");
  }

  /** An upload named "A.PDF" is accepted as a PDF, yet the code as written reads it with the DOCX reader. */
  lemma UpperCasePdfReadAsDocx(millis: nat)
    ensures Accepted("A.PDF") && EndsWith(Lower("A.PDF"), ".pdf")
    ensures ReaderAsWritten(UploadPath(FileId(millis, "A.PDF"))) == DocxReader
    ensures ReaderFor(UploadPath(FileId(millis, "A.PDF"))) == PdfReader
  {
    var lowered := Lower("A.PDF");
    assert lowered == "a.pdf" by {
      assert lowered[0] == LowerChar('A') == 'a';
      assert lowered[2] == LowerChar('P') == 'p';
      assert lowered[3] == LowerChar('D') == 'd';
      assert lowered[4] == LowerChar('F') == 'f';
    }
    ReaderMatchesAcceptance(millis, "A.PDF");
    var path := UploadPath(FileId(millis, "A.PDF"));
    var prefix := UploadDir + "/" + Decimal(millis) + "_";
    assert path == prefix + "A.PDF";
    EndsWithConcat(prefix, "A.PDF", ".pdf");
    assert "A.PDF"[1..] == ".PDF";
  }

  /** The record kept in `uploaded_files[fid]`. */
  datatype FileMeta = FileMeta(filename: string, fid: string, chunks: nat, size: nat)
}
