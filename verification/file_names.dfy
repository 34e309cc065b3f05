/**
 * File-name handling of the per-file loop: splitting a name into base and
 * extension the way Python's posix `os.path.splitext` does, lower-casing the
 * extension, routing the file to a reader, and naming the download.
 */
module FileNames {
  import opened Results

  /** The two tabular formats: delimited text and spreadsheet workbook. */
  datatype Format = Csv | Excel

  /** Why a file could not be routed to a reader: its lower-cased extension. */
  datatype FormatError = UnsupportedFormat(ext: string)

  /** No character of s after position r is c. */
  predicate NoneAfter(s: string, c: char, r: int) {
    forall i :: 0 <= i < |s| && r < i ==> s[i] != c
  }

  /** Every character of s at positions a up to (not including) b is a dot. */
  predicate DotsBetween(s: string, a: int, b: int) {
    forall i :: a <= i < b && 0 <= i < |s| ==> s[i] == '.'
  }

  /** Position of the last occurrence of c in s, or -1 when there is none. */
  function RFind(s: string, c: char): (r: int)
    ensures -1 <= r < |s|
    ensures 0 <= r ==> s[r] == c
    ensures NoneAfter(s, c, r)
  {
    if |s| == 0 then -1
    else if s[|s| - 1] == c then |s| - 1
    else RFind(s[..|s| - 1], c)
  }

  /**
   * Split a path into (base, extension). The extension runs from the last dot
   * to the end, provided that dot lies in the last path component and is not
   * one of that component's leading dots; otherwise the extension is empty.
   */
  function SplitExt(p: string): (r: (string, string))
    ensures r.0 + r.1 == p
    ensures r.1 != [] ==> p[|r.0|] == '.' && NoneAfter(p, '.', |r.0|) && NoneAfter(p, '/', |r.0| - 1)
  {
    var sepIndex := RFind(p, '/');
    var dotIndex := RFind(p, '.');
    if dotIndex > sepIndex && !DotsBetween(p, sepIndex + 1, dotIndex) then
      assert p[..dotIndex] + p[dotIndex..] == p;
      (p[..dotIndex], p[dotIndex..])
    else
      (p, [])
  }

  /** The extension part of a path (`splitext(p)[-1]`). */
  function Extension(p: string): (r: string) {
    SplitExt(p).1
  }

  /** When the extension is non-empty, and where it starts. */
  lemma SplitExtCases(p: string)
    ensures var sepIndex := RFind(p, '/');
            var dotIndex := RFind(p, '.');
            && (Extension(p) != [] <==> dotIndex > sepIndex && !DotsBetween(p, sepIndex + 1, dotIndex))
            && (Extension(p) != [] ==> |SplitExt(p).0| == dotIndex)
  {
  }

  /**
   * A path has an extension exactly when its last component holds a dot that
   * comes after some character of that component other than a dot.
   */
  ghost predicate HasExtension(p: string) {
    exists j, k :: 0 <= j < k < |p| && p[j] != '.' && p[k] == '.' && NoneAfter(p, '/', j - 1)
  }

  /** A non-empty extension is witnessed by a dot after a name character of the last component. */
  lemma ExtensionWitnessed(p: string)
    requires Extension(p) != []
    ensures HasExtension(p)
  {
    SplitExtCases(p);
    var sepIndex := RFind(p, '/');
    var dotIndex := RFind(p, '.');
    var j :| sepIndex + 1 <= j < dotIndex && 0 <= j < |p| && p[j] != '.';
    assert NoneAfter(p, '/', j - 1);
  }

  /** A dot after a name character of the last component yields a non-empty extension. */
  lemma WitnessGivesExtension(p: string, j: nat, k: nat)
    requires j < k < |p| && p[j] != '.' && p[k] == '.' && NoneAfter(p, '/', j - 1)
    ensures Extension(p) != []
  {
    SplitExtCases(p);
    var sepIndex := RFind(p, '/');
    var dotIndex := RFind(p, '.');
    assert sepIndex < j;
    assert k <= dotIndex;
    assert !DotsBetween(p, sepIndex + 1, dotIndex);
  }

  /** The extension is non-empty exactly when the path has one. */
  lemma SplitExtHasExtension(p: string)
    ensures Extension(p) != [] <==> HasExtension(p)
  {
    if Extension(p) != [] {
      ExtensionWitnessed(p);
    }
    if HasExtension(p) {
      var j, k :| 0 <= j < k < |p| && p[j] != '.' && p[k] == '.' && NoneAfter(p, '/', j - 1);
      WitnessGivesExtension(p, j, k);
    }
  }

  /** A character that neither separates path components nor is a dot. */
  predicate NameChar(c: char) {
    c != '.' && c != '/'
  }

  /** A well-formed extension: a dot followed by no further dot or separator. */
  predicate ExtensionShaped(ext: string) {
    |ext| > 0 && ext[0] == '.' && NoneAfter(ext, '.', 0) && NoneAfter(ext, '/', -1)
  }

  /** Appending an extension to a base ending in a name character splits back into the two. */
  lemma SplitExtAppend(base: string, ext: string)
    requires |base| > 0 && NameChar(base[|base| - 1])
    requires ExtensionShaped(ext)
    ensures SplitExt(base + ext) == (base, ext)
  {
    var p := base + ext;
    var n := |base|;
    assert forall i :: n <= i < |p| ==> p[i] == ext[i - n];
    assert p[n - 1] == base[n - 1];
    assert p[n] == '.';
    assert NoneAfter(p, '.', n) && NoneAfter(p, '/', n - 1);
    SplitExtCases(p);
    var dotIndex := RFind(p, '.');
    assert dotIndex >= n;
    assert dotIndex == n;
    assert RFind(p, '/') < n - 1;
    assert !DotsBetween(p, RFind(p, '/') + 1, n);
    assert p[..n] == base && p[n..] == ext;
  }

  /** ASCII lower-casing of one character. */
  function LowerChar(c: char): (r: char) {
    if 'A' <= c <= 'Z' then (c as int - 'A' as int + 'a' as int) as char else c
  }

  /** Lower-case every character of s. */
  function Lower(s: string): (r: string)
    ensures |r| == |s|
    ensures forall i :: 0 <= i < |s| ==> r[i] == LowerChar(s[i])
  {
    seq(|s|, i requires 0 <= i < |s| => LowerChar(s[i]))
  }

  /** The extension, as lower-case text, that routes a file to each format. */
  function Suffix(f: Format): (r: string) {
    match f
    case Csv => ".csv"
    case Excel => ".xlsx"
  }

  /** Route a file by its lower-cased extension; anything else is unsupported. */
  function DetectFormat(name: string): (r: Result<Format, FormatError>)
    ensures r.Ok? <==> Lower(Extension(name)) in {".csv", ".xlsx"}
    ensures r.Ok? ==> Lower(Extension(name)) == Suffix(r.value)
    ensures r.Err? ==> r.error.ext == Lower(Extension(name))
  {
    var ext := Lower(Extension(name));
    if ext == ".csv" then Ok(Csv)
    else if ext == ".xlsx" then Ok(Excel)
    else Err(UnsupportedFormat(ext))
  }

  /** Lower-casing does not touch characters that are not letters. */
  lemma LowerCharFixes(x: char, c: char)
    requires !('a' <= c <= 'z') && !('A' <= c <= 'Z')
    ensures LowerChar(x) == c <==> x == c
  {
  }

  /** Lower-casing commutes with taking slices. */
  lemma LowerSlice(s: string, a: nat, b: nat)
    requires a <= b <= |s|
    ensures Lower(s)[a..b] == Lower(s[a..b])
  {
  }

  /** Searching for a dot or a separator finds the same position before and after lower-casing. */
  lemma {:induction false} RFindLower(s: string, c: char)
    requires !('a' <= c <= 'z') && !('A' <= c <= 'Z')
    ensures RFind(Lower(s), c) == RFind(s, c)
  {
    if |s| > 0 {
      LowerCharFixes(s[|s| - 1], c);
      LowerSlice(s, 0, |s| - 1);
      RFindLower(s[..|s| - 1], c);
    }
  }

  /** Lower-casing a path splits it at the same place: the extension is found case-insensitively. */
  lemma SplitExtLower(p: string)
    ensures SplitExt(Lower(p)) == (Lower(SplitExt(p).0), Lower(SplitExt(p).1))
  {
    RFindLower(p, '/');
    RFindLower(p, '.');
    var sepIndex := RFind(p, '/');
    var dotIndex := RFind(p, '.');
    forall i | 0 <= i < |p|
      ensures Lower(p)[i] == '.' <==> p[i] == '.'
    {
      LowerCharFixes(p[i], '.');
    }
    assert DotsBetween(Lower(p), sepIndex + 1, dotIndex) == DotsBetween(p, sepIndex + 1, dotIndex);
    if dotIndex > sepIndex && !DotsBetween(p, sepIndex + 1, dotIndex) {
      LowerSlice(p, 0, dotIndex);
      LowerSlice(p, dotIndex, |p|);
      assert p[dotIndex..|p|] == p[dotIndex..];
      assert Lower(p)[dotIndex..|p|] == Lower(p)[dotIndex..];
    }
  }

  /** Lower-casing twice is lower-casing once. */
  lemma LowerIdempotent(s: string)
    ensures Lower(Lower(s)) == Lower(s)
  {
  }

  /** Format detection ignores the case of the name. */
  lemma DetectFormatCaseInsensitive(name: string)
    ensures DetectFormat(Lower(name)) == DetectFormat(name)
  {
    SplitExtLower(name);
    LowerIdempotent(Extension(name));
  }

  /** Lower-casing keeps the shape of an extension. */
  lemma LowerExtensionShaped(ext: string)
    requires ExtensionShaped(Lower(ext))
    ensures ExtensionShaped(ext)
  {
    forall i | 0 <= i < |ext|
      ensures (ext[i] == '.' <==> Lower(ext)[i] == '.') && (ext[i] == '/' <==> Lower(ext)[i] == '/')
    {
      LowerCharFixes(ext[i], '.');
      LowerCharFixes(ext[i], '/');
    }
  }

  /** Both format extensions are lower-case dot-extensions. */
  lemma SuffixShaped(f: Format)
    ensures ExtensionShaped(Suffix(f)) && Lower(Suffix(f)) == Suffix(f)
  {
    var s := Suffix(f);
    assert forall i :: 0 <= i < |s| ==> s[i] in ".csvxl";
  }

  /**
   * A name whose last component ends in ".csv" or ".xlsx", in any mixture of
   * cases, after at least one character other than a dot, is routed to that format.
   */
  lemma DetectFormatRecognises(base: string, ext: string, f: Format)
    requires |base| > 0 && NameChar(base[|base| - 1])
    requires Lower(ext) == Suffix(f)
    ensures DetectFormat(base + ext) == Ok(f)
  {
    SuffixShaped(f);
    LowerExtensionShaped(ext);
    SplitExtAppend(base, ext);
  }

  /** The MIME type announced for a download in each format. */
  function MimeType(f: Format): (r: string)
    ensures r == "text/csv" <==> f == Csv
    ensures r == "application/vnd.openxmlformats-officedocument.spreadsheetml.sheet" <==> f == Excel
  {
    match f
    case Csv => "text/csv"
    case Excel => "application/vnd.openxmlformats-officedocument.spreadsheetml.sheet"
  }

  /** The two formats are announced with different MIME types. */
  lemma MimeTypeIdentifiesFormat(f: Format, g: Format)
    ensures MimeType(f) == MimeType(g) <==> f == g
  {
    assert |MimeType(Csv)| != |MimeType(Excel)|;
  }

  /** The download name: the uploaded name's base, a "_cleaned" marker and the target's extension. */
  function DownloadName(name: string, target: Format): (r: string)
    ensures SplitExt(r) == (SplitExt(name).0 + "_cleaned", Suffix(target))
  {
    var base := SplitExt(name).0 + "_cleaned";
    assert base[|base| - 1] == 'd';
    SuffixShaped(target);
    SplitExtAppend(base, Suffix(target));
    base + Suffix(target)
  }

  /**
   * The download name keeps the uploaded base (plus the marker) and carries the
   * target's extension, so uploading the download again routes it to the
   * target format, whatever the format it was uploaded in.
   */
  lemma DownloadNameRoundTrip(name: string, target: Format)
    ensures SplitExt(DownloadName(name, target)) == (SplitExt(name).0 + "_cleaned", Suffix(target))
    ensures DetectFormat(DownloadName(name, target)) == Ok(target)
  {
    SuffixShaped(target);
  }

  /** Worked case: an upper-case ".CSV" is read as CSV. */
  lemma DetectFormatExampleUpper()
    ensures DetectFormat("Sales.CSV") == Ok(Csv)
  {
    var ext := ".CSV";
    assert ext[0] == '.' && ext[1] == 'C' && ext[2] == 'S' && ext[3] == 'V';
    var lower := Lower(ext);
    assert lower[0] == '.' && lower[1] == 'c' && lower[2] == 's' && lower[3] == 'v';
    assert lower == ".csv";
    DetectFormatRecognises("Sales", ".CSV", Csv);
    assert "Sales" + ".CSV" == "Sales.CSV";
  }

  /** Worked case: a mixed-case ".XlSx" is read as Excel. */
  lemma DetectFormatExampleMixed()
    ensures DetectFormat("q3.XlSx") == Ok(Excel)
  {
    var ext := ".XlSx";
    assert ext[0] == '.' && ext[1] == 'X' && ext[2] == 'l' && ext[3] == 'S' && ext[4] == 'x';
    var lower := Lower(ext);
    assert lower[0] == '.' && lower[1] == 'x' && lower[2] == 'l' && lower[3] == 's' && lower[4] == 'x';
    assert lower == ".xlsx";
    DetectFormatRecognises("q3", ".XlSx", Excel);
    assert "q3" + ".XlSx" == "q3.XlSx";
  }

  /** Worked case: a ".txt" file is unsupported. */
  lemma DetectFormatExampleText()
    ensures DetectFormat("data.txt") == Err(UnsupportedFormat(".txt"))
  {
    var ext := ".txt";
    assert ExtensionShaped(ext);
    SplitExtAppend("data", ext);
    assert "data" + ext == "data.txt";
    assert Lower(ext) == ext;
  }

  /** Worked case: only the last extension of "archive.csv.gz" counts. */
  lemma DetectFormatExampleDouble()
    ensures SplitExt("archive.csv.gz") == ("archive.csv", ".gz")
    ensures DetectFormat("archive.csv.gz") == Err(UnsupportedFormat(".gz"))
  {
    var ext := ".gz";
    assert ExtensionShaped(ext);
    SplitExtAppend("archive.csv", ext);
    assert "archive.csv" + ext == "archive.csv.gz";
    assert Lower(ext) == ext;
  }

  /** Worked case: a dot-file named ".csv" has no extension, its dot being a leading one. */
  lemma DetectFormatExampleDotFile()
    ensures DetectFormat(".csv") == Err(UnsupportedFormat(""))
  {
    var p := ".csv";
    assert p[0] == '.' && p[1] == 'c' && p[2] == 's' && p[3] == 'v';
    assert RFind(p, '/') == -1;
    assert RFind(p, '.') == 0;
    assert SplitExt(p) == (p, []);
  }

  /** Worked case: a name without any dot has no extension. */
  lemma DetectFormatExampleBare()
    ensures DetectFormat("csv") == Err(UnsupportedFormat(""))
  {
    var p := "csv";
    assert p[0] == 'c' && p[1] == 's' && p[2] == 'v';
    assert RFind(p, '.') == -1;
    assert SplitExt(p) == (p, []);
  }
}
