/** The upload check of the HTTP front end: which file names it lets through to
    classification. */
module Upload {
  import opened Paths

  /** `ALLOWED_EXTENSIONS`. */
  const AllowedExtensions: set<string> := {"pdf", "png", "jpg"}

  /** `s.rsplit(sep, 1)`: the text before and after the last `sep`, or `[s]`
      when `s` has no `sep`. */
  function RSplitOnce(s: string, sep: char): (parts: seq<string>)
    ensures sep !in s ==> parts == [s]
    ensures sep in s ==> |parts| == 2 && s == parts[0] + [sep] + parts[1] && sep !in parts[1]
  {
    var i := RFind(s, sep);
    if i == -1 then [s] else [s[..i], s[i + 1..]]
  }

  /** `allowed_file(filename)`: the name has a '.', and the text after its last
      '.', lower-cased, is an allowed extension. */
  predicate AllowedFile(filename: string) {
    var parts := RSplitOnce(filename, '.');
    '.' in filename && Lower(parts[1]) in AllowedExtensions
  }

  /** A name is accepted exactly when it has a '.' that no other '.' follows and
      the text after that '.', lower-cased, is an allowed extension. */
  lemma AllowedFileMeaning(filename: string)
    ensures AllowedFile(filename) <==>
              exists i :: 0 <= i < |filename| && filename[i] == '.' && '.' !in filename[i + 1..]
                          && Lower(filename[i + 1..]) in AllowedExtensions
  {
    if '.' in filename {
      var j := RFind(filename, '.');
      AllowedFileAt(filename, j);
      if AllowedFile(filename) {
        assert filename[j] == '.';
      }
    }
  }

  /** Once the last '.' of a name is known, the check reads only the text after it. */
  lemma AllowedFileAt(filename: string, i: nat)
    requires i < |filename| && filename[i] == '.' && '.' !in filename[i + 1..]
    ensures AllowedFile(filename) <==> Lower(filename[i + 1..]) in AllowedExtensions
  {
    var j := RFind(filename, '.');
    assert j == i;
  }

  /** The check does not depend on letter case: a name and its lower-case form
      are accepted together. */
  lemma AllowedFileIgnoresCase(filename: string)
    ensures AllowedFile(Lower(filename)) <==> AllowedFile(filename)
  {
    RFindDotLower(filename);
    if '.' in filename {
      var j := RFind(filename, '.');
      assert Lower(filename)[j + 1..] == Lower(filename[j + 1..]);
      LowerIdempotent(filename[j + 1..]);
    }
  }

  /** The accepted names the front end's tests list. */
  lemma AcceptedExamples()
    ensures AllowedFile("file.pdf") && AllowedFile("file.png") && AllowedFile("file.jpg")
  {
    assert RFind("file.pdf", '.') == 4 && "file.pdf"[5..] == "pdf" && Lower("pdf") == "pdf";
    assert RFind("file.png", '.') == 4 && "file.png"[5..] == "png" && Lower("png") == "png";
    assert RFind("file.jpg", '.') == 4 && "file.jpg"[5..] == "jpg" && Lower("jpg") == "jpg";
  }

  /** The rejected names the front end's tests list: a name without a '.', and
      an extension outside the allow-list. */
  lemma RejectedExamples()
    ensures !AllowedFile("file.txt") && !AllowedFile("file")
  {
    assert RFind("file.txt", '.') == 4 && "file.txt"[5..] == "txt" && Lower("txt") == "txt";
  }

  /** Only the text after the last '.' is tested. */
  lemma LastDotExamples()
    ensures AllowedFile("a.txt.pdf") && !AllowedFile("a.pdf.txt")
  {
    assert RFind("a.txt.pdf", '.') == 5 && "a.txt.pdf"[6..] == "pdf" && Lower("pdf") == "pdf";
    assert RFind("a.pdf.txt", '.') == 5 && "a.pdf.txt"[6..] == "txt" && Lower("txt") == "txt";
  }

  /** A name ending in '.' has an empty extension and is refused. */
  lemma TrailingDotExample()
    ensures !AllowedFile("a.")
  {
    assert RFind("a.", '.') == 1 && "a."[2..] == "";
  }

  /** The extension is compared case-insensitively. */
  lemma CaseInsensitiveExample()
    ensures AllowedFile("FILE.PDF")
  {
    assert RFind("FILE.PDF", '.') == 4 && "FILE.PDF"[5..] == "PDF" && Lower("PDF") == "pdf";
  }
}
