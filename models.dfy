/** The catalogue's table rows as plain records, and the upload extension
    rule `allowed_file`. */
module Models {
  import opened Text
  import Security

  /** A `tower_variants` row, without its floating-point height. */
  datatype Variant = Variant(id: int, towerCode: string, structuralType: string,
                             loadClass: Option<string>, engineeringNotes: Option<string>,
                             categoryId: int)

  /** A `tower_documents` row, without its upload timestamp. */
  datatype Document = Document(id: int, variantId: int, pdfUrl: string,
                               pageCount: Option<int>, version: string,
                               fileSize: Option<int>, isActive: bool)

  /** `allowed_file`: the name has a dot, and the text after its last dot,
      lower-cased, is `pdf`. A name without a dot is never allowed. */
  function AllowedFile(filename: string): (ok: bool)
    ensures ok ==> '.' in filename
  {
    '.' in filename && Lower(AfterLast(filename, '.')) == "pdf"
  }

  /** The extension is the text after the LAST dot: splitting a name at any
      dot that has no other dot after it decides the verdict by the part
      after it alone. */
  lemma AllowedFileByExtension(stem: string, ext: string)
    requires '.' !in ext
    ensures AllowedFile(stem + "." + ext) <==> Lower(ext) == "pdf"
  {
    RSplitOnceUnique(stem + "." + ext, '.', stem, ext);
  }

  lemma LowerCharIs(c: char, lower: char, upper: char)
    requires 'a' <= lower <= 'z' && upper as int == lower as int - 32
    ensures LowerChar(c) == lower <==> c == lower || c == upper
  {
  }

  /** The comparison ignores case: an extension is `pdf` once lower-cased
      exactly when it is three letters `p`, `d`, `f` in either case. */
  lemma LowerIsPdf(ext: string)
    ensures Lower(ext) == "pdf"
            <==> && |ext| == 3
                 && (ext[0] == 'p' || ext[0] == 'P')
                 && (ext[1] == 'd' || ext[1] == 'D')
                 && (ext[2] == 'f' || ext[2] == 'F')
  {
    if |ext| == 3 {
      var l := Lower(ext);
      assert l == [LowerChar(ext[0])] + Lower(ext[1..]);
      assert Lower(ext[1..]) == [LowerChar(ext[1])] + Lower(ext[2..]);
      assert Lower(ext[2..]) == [LowerChar(ext[2])];
      LowerCharIs(ext[0], 'p', 'P');
      LowerCharIs(ext[1], 'd', 'D');
      LowerCharIs(ext[2], 'f', 'F');
      assert l == "pdf" <==> l[0] == 'p' && l[1] == 'd' && l[2] == 'f';
    }
  }

  /** `a.exe.pdf` is accepted: only the text after the last dot counts. */
  lemma AllowedFileInnerExeIgnored(stem: string, exe: string, pdf: string)
    requires exe == "exe" && pdf == "pdf"
    ensures AllowedFile(stem + "." + exe + "." + pdf)
  {
    AllowedFileByExtension(stem + "." + exe, pdf);
    LowerIsPdf(pdf);
  }

  /** `a.pdf.exe` is rejected. */
  lemma AllowedFileInnerPdfIgnored(stem: string, pdf: string, exe: string)
    requires exe == "exe" && pdf == "pdf"
    ensures !AllowedFile(stem + "." + pdf + "." + exe)
  {
    AllowedFileByExtension(stem + "." + pdf, exe);
    LowerIsPdf(exe);
  }

  /** `report.` is rejected: its extension is empty. */
  lemma AllowedFileEmptyExtension(stem: string)
    ensures !AllowedFile(stem + ".")
  {
    AllowedFileByExtension(stem, "");
    assert stem + "." == stem + "." + "";
  }

  /** `.pdf` is accepted: the part before the dot may be empty. */
  lemma AllowedFileEmptyStem(pdf: string)
    requires pdf == "pdf"
    ensures AllowedFile("." + pdf)
  {
    AllowedFileByExtension("", pdf);
    assert "." + pdf == "" + "." + pdf;
    LowerIsPdf(pdf);
  }

  /** `REPORT.PDF` is accepted. */
  lemma AllowedFileUpperCase(stem: string, ext: string)
    requires ext == "PDF"
    ensures AllowedFile(stem + "." + ext)
  {
    AllowedFileByExtension(stem, ext);
    LowerIsPdf(ext);
  }

  /** `allowed_file` holds exactly when the upload validator's first two
      checks (a dot, then the `pdf` extension) pass. */
  lemma AllowedFileAgreesWithUpload(file: Security.Upload)
    ensures AllowedFile(file.filename)
            <==> Security.ValidateFileUpload(file).message
                 !in {Security.NoExtensionMessage, Security.OnlyPdfMessage}
  {
  }
}
