/**
 * The upload dispatch of `read_uploaded_file` and the name of the report
 * offered for download.
 */
module Uploads {
  import opened Values
  import opened Text

  /** The routine that would read an accepted upload. */
  datatype Reader = ExcelReader | PdfReader | ImageReader

  /** What happens to an uploaded file: it is read by a reader, or the fixed message is returned. */
  datatype Dispatch = Read(reader: Reader) | Unsupported(message: string)

  const UnsupportedMessage: string := "Format file tidak didukung"

  /** The number of characters after the last '.', or the whole length when there is none. */
  function SuffixLength(name: string): (n: nat)
    ensures n <= |name|
    ensures forall i :: |name| - n <= i < |name| ==> name[i] != '.'
    ensures n < |name| ==> name[|name| - n - 1] == '.'
  {
    if name == [] || name[|name| - 1] == '.' then 0 else 1 + SuffixLength(name[..|name| - 1])
  }

  /** The postcondition of `SuffixLength` has exactly one solution. */
  lemma SuffixLengthUnique(name: string, n: nat)
    requires n <= |name|
    requires forall i :: |name| - n <= i < |name| ==> name[i] != '.'
    requires n < |name| ==> name[|name| - n - 1] == '.'
    ensures SuffixLength(name) == n
  {
  }

  /** `name.split('.')[-1]`: the text after the last '.', or the whole name when it has none. */
  function AfterLastDot(name: string): (ext: string)
    ensures '.' !in ext
  {
    name[|name| - SuffixLength(name)..]
  }

  /** After a base name and a dot, an extension without dots is what `split('.')[-1]` gives back. */
  lemma AfterLastDotOfJoin(base: string, ext: string)
    requires '.' !in ext
    ensures AfterLastDot(base + "." + ext) == ext
  {
    var name := base + "." + ext;
    assert forall i :: |name| - |ext| <= i < |name| ==> name[i] == ext[i - |name| + |ext|];
    SuffixLengthUnique(name, |ext|);
    assert name[|name| - |ext|..] == ext;
  }

  /** A dot-free name is its own extension. */
  lemma AfterLastDotOfPlain(name: string)
    requires '.' !in name
    ensures AfterLastDot(name) == name
  {
    SuffixLengthUnique(name, |name|);
  }

  /** The extension the dispatch looks at: the last part, lower-cased. */
  function Extension(name: string): (ext: string)
    ensures '.' !in ext && NoUpper(ext)
    ensures '.' !in name ==> ext == Lower(name)
  {
    var ext := Lower(AfterLastDot(name));
    if '.' !in name then
      AfterLastDotOfPlain(name);
      ext
    else ext
  }

  /** `read_uploaded_file`: no upload gives `None`; otherwise the lower-cased extension picks the reader. */
  function ReadUploadedFile(upload: Option<string>): (d: Option<Dispatch>)
    ensures upload.None? <==> d.None?
    ensures d.Some? && d.value.Unsupported? ==> d.value.message == UnsupportedMessage
  {
    match upload
    case None => None
    case Some(name) =>
      var ext := Extension(name);
      Some(
        if ext == "xlsx" || ext == "xls" then Read(ExcelReader)
        else if ext == "pdf" then Read(PdfReader)
        else if ext == "png" || ext == "jpg" || ext == "jpeg" then Read(ImageReader)
        else Unsupported(UnsupportedMessage))
  }

  /** Each reader is chosen exactly for its extensions; every other extension is refused. */
  lemma DispatchByExtension(name: string)
    ensures var d := ReadUploadedFile(Some(name)).value;
      var ext := Extension(name);
      && (d == Read(ExcelReader) <==> ext in ["xlsx", "xls"])
      && (d == Read(PdfReader) <==> ext == "pdf")
      && (d == Read(ImageReader) <==> ext in ["png", "jpg", "jpeg"])
      && (d == Unsupported(UnsupportedMessage) <==> ext !in ["xlsx", "xls", "pdf", "png", "jpg", "jpeg"])
  {
  }

  /** Lower-casing commutes with taking the text after the last dot. */
  lemma LowerAfterLastDot(name: string)
    ensures AfterLastDot(Lower(name)) == Lower(AfterLastDot(name))
  {
    var low := Lower(name);
    var n := SuffixLength(name);
    assert forall i :: 0 <= i < |name| ==> (low[i] == '.' <==> name[i] == '.');
    SuffixLengthUnique(low, n);
    var k := |name| - n;
    assert forall i :: 0 <= i < n ==> low[k..][i] == Lower(name[k..])[i];
  }

  /** The dispatch ignores case: a name and its lower-cased form are handled alike. */
  lemma DispatchIgnoresCase(name: string)
    ensures ReadUploadedFile(Some(Lower(name))) == ReadUploadedFile(Some(name))
  {
    LowerAfterLastDot(name);
  }

  /** `report.xlsx`, `SCAN.PDF`, `photo.JPeg`: the full name decides only through its extension. */
  lemma DispatchOfJoin(base: string, ext: string)
    requires '.' !in ext
    ensures ReadUploadedFile(Some(base + "." + ext)) == ReadUploadedFile(Some(ext))
  {
    AfterLastDotOfJoin(base, ext);
    AfterLastDotOfPlain(ext);
  }

  /** `fungsi.replace(' ', '_').replace('/', '_')`. */
  function SafeName(fungsi: string): (r: string)
    ensures |r| == |fungsi|
    ensures forall i :: 0 <= i < |r| ==> r[i] != ' ' && r[i] != '/'
    ensures forall i :: 0 <= i < |r| ==> r[i] == (if fungsi[i] == ' ' || fungsi[i] == '/' then '_' else fungsi[i])
  {
    ReplaceChar(ReplaceChar(fungsi, ' ', '_'), '/', '_')
  }

  /** Sanitising an already sanitised name changes nothing. */
  lemma SafeNameIdempotent(fungsi: string)
    ensures SafeName(SafeName(fungsi)) == SafeName(fungsi)
  {
  }

  /** A two-digit, zero-padded number, as `%m` and `%d` print it. */
  function TwoDigits(n: nat): (r: string)
    requires n < 100
    ensures |r| == 2 && IsDigit(r[0]) && IsDigit(r[1])
    ensures DigitsValue(r) == n
  {
    var r := [Digit(n / 10), Digit(n % 10)];
    assert r[..1][..0] == [] && r[..1] == [r[0]];
    assert DigitsValue(r[..1]) == n / 10;
    assert DigitsValue(r) == 10 * (n / 10) + n % 10;
    r
  }

  /** The download name `Rapp_<function>_<mm>_<dd>.docx`, for the day the report is made. */
  function DownloadFilename(fungsi: string, month: nat, day: nat): (r: string)
    requires 1 <= month <= 12 && 1 <= day <= 31
    ensures |r| == |fungsi| + 16
    ensures r[..5] == "Rapp_" && r[|r| - 5..] == ".docx"
    ensures r[5..5 + |fungsi|] == SafeName(fungsi)
    ensures r[5 + |fungsi|..|r| - 5] == "_" + TwoDigits(month) + "_" + TwoDigits(day)
    ensures forall i :: 0 <= i < |r| ==> r[i] != ' ' && r[i] != '/'
  {
    var r := "Rapp_" + SafeName(fungsi) + "_" + TwoDigits(month) + "_" + TwoDigits(day) + ".docx";
    assert forall i :: 5 + |fungsi| <= i < |r| ==> r[i] == '_' || r[i] == '.' || IsDigit(r[i]) || 'a' <= r[i] <= 'z';
    r
  }
}
