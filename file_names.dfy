/** Node's `path` helpers as app.js uses them on directory entries.
    Entries returned by a directory listing never contain a '/', so every
    function here works on a single path segment. */
module FileNames {

  /** True when `s` ends with `suffix`. */
  predicate EndsWith(s: string, suffix: string) {
    |suffix| <= |s| && s[|s| - |suffix|..] == suffix
  }

  /** Index of the last '.' in `s`, or -1 when there is none. */
  function LastDot(s: string): (r: int)
    ensures -1 <= r < |s|
    ensures r >= 0 ==> s[r] == '.'
    ensures forall i :: r < i < |s| ==> s[i] != '.'
  {
    if |s| == 0 then -1
    else if s[|s| - 1] == '.' then |s| - 1
    else LastDot(s[..|s| - 1])
  }

  /** `path.extname(name)`: the part from the last '.' on, except that a
      name whose only dot is its first character (".bashrc") and the name
      ".." have no extension. */
  function ExtName(name: string): string {
    var k := LastDot(name);
    if k <= 0 || name == ".." then "" else name[k..]
  }

  /** An extension is empty or a dot followed by no other dot, it is a
      proper suffix of the name, and it is empty exactly when no dot
      follows the first character (or the name is ".."). */
  lemma ExtNameShape(name: string)
    ensures var e := ExtName(name);
      (e != "" ==> 1 <= |e| < |name| && e == name[|name| - |e|..] && e[0] == '.') &&
      (forall i :: 0 < i < |e| ==> e[i] != '.') &&
      (e == "" <==> name == ".." || forall i :: 0 < i < |name| ==> name[i] != '.')
  {
  }

  /** `String.prototype.toLowerCase` on one character. Only the ASCII
      letters matter here: the result is compared with ".pdf". */
  function LowerChar(c: char): char {
    if 'A' <= c <= 'Z' then (c as int + 32) as char else c
  }

  function ToLower(s: string): (r: string)
    ensures |r| == |s|
  {
    if s == [] then [] else [LowerChar(s[0])] + ToLower(s[1..])
  }

  /** Lower-casing works character by character. */
  lemma {:induction false} ToLowerAt(s: string, i: nat)
    requires i < |s|
    ensures ToLower(s)[i] == LowerChar(s[i])
  {
    if i > 0 {
      ToLowerAt(s[1..], i - 1);
    }
  }

  /** The directory filter as app.js writes it: the extension, lower-cased,
      is ".pdf". */
  predicate HasPdfExtension(name: string) {
    ToLower(ExtName(name)) == ".pdf"
  }

  /** The same filter read off the name directly: at least five
      characters, the last four being '.', then p, d, f in either case.
      Lemma PdfNameShape proves the two agree on every name. */
  predicate IsPdfName(name: string) {
    |name| >= 5 && name[|name| - 4] == '.' &&
    LowerChar(name[|name| - 3]) == 'p' &&
    LowerChar(name[|name| - 2]) == 'd' &&
    LowerChar(name[|name| - 1]) == 'f'
  }

  /** `path.basename(name, suffix)` on a single segment: the suffix is
      removed when the name ends with it, compared case-sensitively
      (a name equal to the suffix gives ""). */
  function BaseName(name: string, suffix: string): string {
    if suffix != "" && EndsWith(name, suffix) then name[..|name| - |suffix|] else name
  }

  /** The suffix is removed exactly when the name ends with it; otherwise
      the name comes back unchanged. An empty suffix is never removed, and
      every name ends with it, so both directions hold for it too. */
  lemma BaseNameStrips(name: string, suffix: string)
    ensures BaseName(name, suffix) + suffix == name <==> EndsWith(name, suffix)
    ensures !EndsWith(name, suffix) ==> BaseName(name, suffix) == name
  {
    if !EndsWith(name, suffix) {
      assert |name + suffix| > |name|;
    }
  }

  /** The name ends in a lower-case ".pdf", read off character by
      character. */
  predicate EndsWithPdf(name: string) {
    |name| >= 4 && name[|name| - 4] == '.' &&
    name[|name| - 3] == 'p' && name[|name| - 2] == 'd' && name[|name| - 1] == 'f'
  }

  /** The title app.js gives a course, Node's basename with suffix ".pdf":
      the name without a trailing lower-case ".pdf". Lemma TitleIsBaseName
      proves it equal to BaseName(name, ".pdf"). */
  function Title(name: string): string {
    if EndsWithPdf(name) then name[..|name| - 4] else name
  }

  lemma TitleIsBaseName(name: string)
    ensures EndsWithPdf(name) <==> EndsWith(name, ".pdf")
    ensures Title(name) == BaseName(name, ".pdf")
  {
    if EndsWith(name, ".pdf") {
      var tail := name[|name| - 4..];
      assert tail == ".pdf";
      assert tail[0] == '.' && tail[1] == 'p' && tail[2] == 'd' && tail[3] == 'f';
    }
    if EndsWithPdf(name) {
      assert name[|name| - 4..] == ".pdf";
    }
  }

  /** The file name the content handler asks for: the title followed by
      ".pdf". */
  function ContentFileName(title: string): string {
    title + ".pdf"
  }

  /** `path.join(dir, entry)` for a directory path without a trailing
      separator and a single entry name. */
  function Join(dir: string, entry: string): string {
    dir + "/" + entry
  }

  /** The filter accepts exactly the names of at least five characters whose
      last four are '.', then p, d, f in either case. The character before
      the dot must exist: ".pdf" on its own is a hidden file without an
      extension. */
  lemma PdfNameShape(name: string)
    ensures HasPdfExtension(name) <==> IsPdfName(name)
  {
    var n := |name|;
    ExtNameShape(name);
    if HasPdfExtension(name) {
      var e := ExtName(name);
      assert |e| == 4;
      assert e == name[n - 4..];
      ToLowerAt(e, 1);
      ToLowerAt(e, 2);
      ToLowerAt(e, 3);
    }
    if IsPdfName(name) {
      assert LastDot(name) == n - 4;
      var e := ExtName(name);
      assert e == name[n - 4..];
      ToLowerAt(e, 0);
      ToLowerAt(e, 1);
      ToLowerAt(e, 2);
      ToLowerAt(e, 3);
      assert ToLower(e) == ".pdf";
    }
  }

  /** The content file name rebuilt from a title is the indexed file's own
      name exactly when that name ends in a lower-case ".pdf": for
      "X.PDF" the title keeps the upper-case extension and the content
      handler asks for "X.PDF.pdf". */
  lemma ContentNameRoundTrip(name: string)
    ensures ContentFileName(Title(name)) == name <==> EndsWith(name, ".pdf")
    ensures !EndsWith(name, ".pdf") ==> ContentFileName(Title(name)) == name + ".pdf"
  {
    TitleIsBaseName(name);
    if !EndsWith(name, ".pdf") {
      assert Title(name) == name;
      assert |ContentFileName(Title(name))| == |name| + 4;
    }
  }

  /** An upper-case extension passes the filter but is not stripped. */
  lemma UpperCaseExtension()
    ensures HasPdfExtension("X.PDF")
    ensures Title("X.PDF") == "X.PDF"
    ensures ContentFileName(Title("X.PDF")) == "X.PDF.pdf"
  {
    PdfNameShape("X.PDF");
    TitleIsBaseName("X.PDF");
    assert !EndsWith("X.PDF", ".pdf") by {
      assert "X.PDF"[1..] != ".pdf" by { assert "X.PDF"[1..][1] == 'P'; }
    }
  }
}
