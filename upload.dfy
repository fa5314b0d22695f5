/**
 * The upload-name validator: an uploaded archive is accepted only when the
 * text after the last dot of its file name, lower-cased, is an allowed
 * extension. The only allowed extension is "zip".
 */
module Upload {
  import opened Wrappers

  /** The set of accepted file extensions. */
  const ALLOWED_EXTENSIONS: set<string> := {"zip"}

  /** ASCII lower-casing of one character. */
  function LowerChar(c: char): char
  {
    if 'A' <= c <= 'Z' then (c as int + 32) as char else c
  }

  /** Lower-cases every character of `s`. */
  function Lower(s: string): string
  {
    seq(|s|, i requires 0 <= i < |s| => LowerChar(s[i]))
  }

  /** The position of the last occurrence of `c` in `s`, if any. */
  function LastIndexOf(s: string, c: char): (r: Option<nat>)
    ensures r.None? <==> c !in s
    ensures r.Some? ==> r.value < |s| && s[r.value] == c && c !in s[r.value + 1..]
    decreases |s|
  {
    if |s| == 0 then None
    else if s[|s| - 1] == c then Some(|s| - 1)
    else
      assert s == s[..|s| - 1] + [s[|s| - 1]];
      LastIndexOf(s[..|s| - 1], c)
  }

  /**
   * The second part of `filename.rsplit('.', 1)`: the text after the last
   * dot. It is a suffix of the name, preceded by a dot, and holds no dot.
   */
  function Extension(filename: string): (ext: string)
    requires '.' in filename
    ensures |ext| < |filename|
    ensures filename[|filename| - |ext| - 1] == '.'
    ensures ext == filename[|filename| - |ext|..]
    ensures '.' !in ext
  {
    var k := LastIndexOf(filename, '.').value;
    filename[k + 1..]
  }

  /** Whether an uploaded file name is accepted. */
  function AllowedFile(filename: string): bool
  {
    '.' in filename && Lower(Extension(filename)) in ALLOWED_EXTENSIONS
  }

  /** The extension of a name ending in a dot followed by three non-dot characters is those three characters. */
  lemma ExtensionOfDotSuffix(filename: string)
    requires |filename| >= 4 && filename[|filename| - 4] == '.'
    requires '.' !in filename[|filename| - 3..]
    ensures '.' in filename
    ensures Extension(filename) == filename[|filename| - 3..]
  {
    var n := |filename|;
    assert filename[n - 4] in filename;
    var ext := Extension(filename);
  }

  /**
   * A name is accepted exactly when it ends in a dot followed by three
   * characters that lower-case to "zip".
   */
  lemma AllowedFileIff(filename: string)
    ensures AllowedFile(filename) <==>
      |filename| >= 4 && filename[|filename| - 4] == '.' && Lower(filename[|filename| - 3..]) == "zip"
  {
    var n := |filename|;
    if AllowedFile(filename) {
      var ext := Extension(filename);
      assert Lower(ext) == "zip";
      assert |ext| == 3;
    }
    if n >= 4 && filename[n - 4] == '.' && Lower(filename[n - 3..]) == "zip" {
      var tail := filename[n - 3..];
      forall i | 0 <= i < 3 ensures tail[i] != '.' {
        assert Lower(tail)[i] == LowerChar(tail[i]);
      }
      ExtensionOfDotSuffix(filename);
    }
  }

  /** Three letters that are each "z", "i", "p" in either case lower-case to "zip". */
  lemma LowerZip(s: string)
    requires |s| == 3 && s[0] in "zZ" && s[1] in "iI" && s[2] in "pP"
    ensures Lower(s) == "zip"
  {
    assert Lower(s)[0] == 'z' && Lower(s)[1] == 'i' && Lower(s)[2] == 'p';
  }

  /** Upper-case and multi-dot names are accepted; a trailing other extension or a missing dot is rejected. */
  lemma {:induction false} AllowedFileExamples()
    ensures AllowedFile("a.ZIP")
    ensures AllowedFile("x.tar.zip")
    ensures !AllowedFile("a.zip.txt")
    ensures !AllowedFile("zip")
  {
    LowerZip("ZIP");
    AllowedFileIff("a.ZIP");
    LowerZip("zip");
    AllowedFileIff("x.tar.zip");
    AllowedFileIff("a.zip.txt");
    assert Lower("txt")[0] == 't';
  }
}
