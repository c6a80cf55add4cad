/** The choice `handleFile` makes from the name of the chosen file. */
module Dispatch {
  import opened Text

  /** The component's `fileType`: null, 'pdf' or 'doc'. */
  datatype FileType = NoFile | Pdf | Doc

  /** The HTML shown for a file of any other kind. */
  const UnsupportedMessage: String := "<p>Unsupported file type. Please upload PDF or DOCX.</p>"

  /** The kind of document a file name announces, decided on the lower-cased name:
      `.pdf` first, then `.docx` or `.doc`; any other name is unsupported (NoFile). */
  function Classify(fileName: String): FileType {
    var name := ToLower(fileName);
    if EndsWith(name, ".pdf") then Pdf
    else if EndsWith(name, ".docx") || EndsWith(name, ".doc") then Doc
    else NoFile
  }

  /** The suffix decides, whatever its case: a name ending in `.pdf` is a PDF, one ending
      in `.docx` or `.doc` a Word document. */
  lemma ClassifyBySuffix(base: String, ext: String)
    ensures ToLower(ext) == ".pdf" ==> Classify(base + ext) == Pdf
    ensures ToLower(ext) == ".docx" || ToLower(ext) == ".doc" ==> Classify(base + ext) == Doc
  {
    var name := ToLower(base + ext);
    ToLowerAppend(base, ext);
    assert name[|name| - |ext|..] == ToLower(ext);
    if ToLower(ext) == ".docx" {
      assert name[|name| - 4..] == ToLower(ext)[1..];
      assert name[|name| - 4..] != ".pdf";
    }
    if ToLower(ext) == ".doc" {
      assert name[|name| - 4..] == ToLower(ext);
    }
  }

  /** Any name whose lower-cased form ends in none of `.pdf`, `.docx` and `.doc` is
      unsupported, and only such a name is. */
  lemma ClassifyUnsupported(fileName: String)
    ensures Classify(fileName) == NoFile <==>
              !EndsWith(ToLower(fileName), ".pdf") && !EndsWith(ToLower(fileName), ".docx") &&
              !EndsWith(ToLower(fileName), ".doc")
  {
  }

  /** Classification ignores the case of the name. */
  lemma ClassifyIgnoresCase(fileName: String)
    ensures Classify(ToLower(fileName)) == Classify(fileName)
  {
    LowerIdempotent(fileName);
  }
}
