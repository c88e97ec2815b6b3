/** The two filename helpers of the upload endpoint: the extension allow-list
    (`allowed_file`) and the character-wise sanitiser (`secure_filename`),
    together with the "text after the last separator" that both rely on
    (Python's `s.rsplit(sep, 1)`). */
module Filenames {
  import opened Common

  /** ALLOWED_EXTENSIONS: suffixes accepted, compared after lower-casing. */
  const AllowedExtensions: set<string> := {"jpg", "jpeg", "png"}

  /** `str.lower()` restricted to ASCII capitals. No character outside ASCII
      lower-cases to a string made only of the letters of "jpg", "jpeg" and
      "png", so the allow-list decision is the same as with full Unicode. */
  function LowerChar(c: char): char {
    if 'A' <= c <= 'Z' then (c as int + 32) as char else c
  }

  function Lower(s: string): string {
    seq(|s|, i requires 0 <= i < |s| => LowerChar(s[i]))
  }

  /** Lower-casing keeps the length, leaves no ASCII capital, turns each
      capital into its small letter and keeps every other character. */
  lemma {:induction false} LowerCharacters(s: string)
    ensures |Lower(s)| == |s|
    ensures forall i :: 0 <= i < |s| ==> !('A' <= Lower(s)[i] <= 'Z')
    ensures forall i :: 0 <= i < |s| && 'A' <= s[i] <= 'Z' ==> Lower(s)[i] as int == s[i] as int + 32
    ensures forall i :: 0 <= i < |s| && !('A' <= s[i] <= 'Z') ==> Lower(s)[i] == s[i]
  {
  }

  /** Position of the last occurrence of `c` in `s` (what `str.rfind` finds). */
  function LastIndex(s: string, c: char): (r: Option<nat>)
    ensures r.None? <==> c !in s
    ensures r.Some? ==> r.value < |s| && s[r.value] == c
    ensures r.Some? ==> forall k :: r.value < k < |s| ==> s[k] != c
  {
    if s == [] then None
    else if s[|s| - 1] == c then Some(|s| - 1)
    else
      var r := LastIndex(s[..|s| - 1], c);
      assert s == s[..|s| - 1] + [s[|s| - 1]];
      r
  }

  /** The last field of `s.rsplit(sep, 1)`: the text after the last `sep`,
      or all of `s` when `sep` does not occur. */
  function LastPart(s: string, sep: char): (r: string)
    ensures sep !in r
    ensures sep !in s ==> r == s
    ensures sep in s ==> |r| < |s| && s[|s| - |r| - 1] == sep && r == s[|s| - |r|..]
  {
    match LastIndex(s, sep)
    case None => s
    case Some(i) => s[i + 1..]
  }

  /** Whatever precedes the last `sep`, the last part is what follows it. */
  lemma {:induction false} LastPartAfter(p: string, sep: char, e: string)
    requires sep !in e
    ensures LastPart(p + [sep] + e, sep) == e
  {
    var s := p + [sep] + e;
    var r := LastPart(s, sep);
    assert s[|p|] == sep;
    assert r == s[|s| - |r|..] == e;
  }

  /** allowed_file: the name contains a dot and its lower-cased suffix after
      the last dot is an allowed extension. */
  function AllowedFile(filename: string): (r: bool)
    ensures r ==> '.' in filename && 3 <= |LastPart(filename, '.')| <= 4
  {
    '.' in filename && Lower(LastPart(filename, '.')) in AllowedExtensions
  }

  /** An independent description of `allowed_file`: some dot of the name has
      no dot after it, and the text after it, lower-cased, is allowed. */
  lemma {:induction false} AllowedFileSpec(f: string)
    ensures AllowedFile(f) <==>
      exists i :: 0 <= i < |f| && f[i] == '.' && Lower(f[i + 1..]) in AllowedExtensions &&
                  (forall k :: i < k < |f| ==> f[k] != '.')
  {
    var e := LastPart(f, '.');
    if AllowedFile(f) {
      var i := |f| - |e| - 1;
      assert f[i + 1..] == e;
      forall k | i < k < |f| ensures f[k] != '.' {
        assert f[k] == e[k - i - 1];
      }
    }
    if i :| 0 <= i < |f| && f[i] == '.' && Lower(f[i + 1..]) in AllowedExtensions &&
            (forall k :: i < k < |f| ==> f[k] != '.') {
      var j := |f| - |e| - 1;
      assert f[j] == '.';
      assert i == j;
      assert f[i + 1..] == e;
    }
  }

  /** Once the text after the last dot is fixed, it alone decides. */
  lemma {:induction false} AllowedFileByLastSuffix(p: string, e: string)
    requires '.' !in e
    ensures AllowedFile(p + "." + e) <==> Lower(e) in AllowedExtensions
  {
    LastPartAfter(p, '.', e);
    assert (p + "." + e)[|p|] == '.';
  }

  /** A name is accepted when a dot is followed, up to the end and with no
      further dot, by an allowed extension. */
  lemma {:induction false} AllowedFileAt(f: string, i: nat)
    requires i < |f| && f[i] == '.' && '.' !in f[i + 1..]
    requires Lower(f[i + 1..]) in AllowedExtensions
    ensures AllowedFile(f)
  {
    assert '.' in f;
    assert LastPart(f, '.') == f[i + 1..];
  }

  /** Names the allow-list accepts: the last suffix decides, in any case. */
  lemma {:induction false} AllowedFileAcceptsExamples(f: string, g: string)
    requires f == "a.exe.png" && g == "X.JPG"
    ensures AllowedFile(f) && AllowedFile(g)
  {
    assert f[6..] == "png" && Lower("png") == "png";
    AllowedFileAt(f, 5);
    assert g[2..] == "JPG" && Lower("JPG") == "jpg";
    AllowedFileAt(g, 1);
  }

  /** Names the allow-list refuses: a disallowed last suffix, or no dot. */
  lemma {:induction false} AllowedFileRefusesExamples()
    ensures !AllowedFile("a.png.exe") && !AllowedFile("png") && !AllowedFile("a.")
  {
    LastPartAfter("a.png", '.', "exe");
    assert "a.png.exe" == "a.png" + ['.'] + "exe";
    assert Lower("exe") == "exe";
    assert "png"[0] != '.' && "png"[1] != '.' && "png"[2] != '.';
    LastPartAfter("a", '.', "");
    assert "a." == "a" + ['.'] + "";
  }

  /** The characters `secure_filename` lets through: `[a-zA-Z0-9_.-]`. */
  predicate IsSafeChar(c: char) {
    ('a' <= c <= 'z') || ('A' <= c <= 'Z') || ('0' <= c <= '9') || c == '_' || c == '.' || c == '-'
  }

  /** What the regular expression `[^a-zA-Z0-9_.-]` -> `_` does to one character. */
  function SafeChar(c: char): char {
    if IsSafeChar(c) then c else '_'
  }

  /** secure_filename: every character outside the safe set becomes `_`. */
  function SecureFilename(s: string): (r: string)
    ensures |r| == |s|
    ensures forall i :: 0 <= i < |s| ==> r[i] == SafeChar(s[i])
  {
    if s == [] then [] else [SafeChar(s[0])] + SecureFilename(s[1..])
  }

  /** Every character of a sanitised name is in the safe set, so in
      particular none is a path separator. */
  lemma {:induction false} SecureFilenameAlphabet(s: string)
    ensures forall i :: 0 <= i < |SecureFilename(s)| ==> IsSafeChar(SecureFilename(s)[i])
    ensures '/' !in SecureFilename(s) && '\\' !in SecureFilename(s)
  {
  }

  /** A name made only of safe characters is left as it is. */
  lemma {:induction false} SecureFilenameFixes(s: string)
    requires forall i :: 0 <= i < |s| ==> IsSafeChar(s[i])
    ensures SecureFilename(s) == s
  {
    if s != [] {
      SecureFilenameFixes(s[1..]);
      assert s == [s[0]] + s[1..];
    }
  }

  /** Sanitising twice is sanitising once. */
  lemma {:induction false} SecureFilenameIdempotent(s: string)
    ensures SecureFilename(SecureFilename(s)) == SecureFilename(s)
  {
    SecureFilenameFixes(SecureFilename(s));
  }

  /** The dots of the sanitised name sit exactly where those of the input do. */
  lemma {:induction false} SecureFilenameKeepsDots(s: string, i: int)
    requires 0 <= i < |s|
    ensures SecureFilename(s)[i] == '.' <==> s[i] == '.'
  {
  }

  /** Two strings with `c` at the same positions have their last `c` at the
      same place. */
  lemma {:induction false} LastIndexSamePositions(s: string, t: string, c: char)
    requires |s| == |t|
    requires forall k :: 0 <= k < |s| ==> (s[k] == c <==> t[k] == c)
    ensures LastIndex(s, c) == LastIndex(t, c)
  {
    if s != [] && s[|s| - 1] != c {
      LastIndexSamePositions(s[..|s| - 1], t[..|t| - 1], c);
    }
  }

  /** The sanitised name has its last dot where the input has it. */
  lemma {:induction false} SecureFilenameLastDot(s: string)
    ensures LastIndex(SecureFilename(s), '.') == LastIndex(s, '.')
  {
    LastIndexSamePositions(SecureFilename(s), s, '.');
  }

  /** Sanitising commutes with dropping a prefix. */
  lemma {:induction false} SecureFilenameSuffix(s: string, i: nat)
    requires i <= |s|
    ensures SecureFilename(s)[i..] == SecureFilename(s[i..])
  {
    var t, u := SecureFilename(s), SecureFilename(s[i..]);
    assert |t[i..]| == |u|;
    forall k | 0 <= k < |u| ensures t[i..][k] == u[k] {
      assert t[i..][k] == t[i + k] == SafeChar(s[i + k]);
      assert u[k] == SafeChar(s[i..][k]);
    }
  }

  /** Sanitising commutes with taking the text after the last dot. */
  lemma {:induction false} SecureFilenameLastPart(s: string)
    ensures LastPart(SecureFilename(s), '.') == SecureFilename(LastPart(s, '.'))
  {
    SecureFilenameLastDot(s);
    match LastIndex(s, '.')
    case None =>
    case Some(i) =>
      var t := SecureFilename(s);
      assert LastPart(t, '.') == t[i + 1..];
      assert LastPart(s, '.') == s[i + 1..];
      SecureFilenameSuffix(s, i + 1);
  }

  /** An allowed extension is made of ASCII letters only. */
  lemma {:induction false} AllowedExtensionIsLetters(e: string)
    requires Lower(e) in AllowedExtensions
    ensures forall k :: 0 <= k < |e| ==> ('a' <= e[k] <= 'z') || ('A' <= e[k] <= 'Z')
  {
    var l := Lower(e);
    forall k | 0 <= k < |e| ensures ('a' <= e[k] <= 'z') || ('A' <= e[k] <= 'Z') {
      assert l[k] == LowerChar(e[k]);
      if l == "jpg" {
        assert l[k] in "jpg";
      } else if l == "jpeg" {
        assert l[k] in "jpeg";
      } else {
        assert l[k] in "png";
      }
    }
  }

  /** For a file that passes the allow-list, the extension taken from the
      sanitised name is the original extension, case preserved. */
  lemma {:induction false} AcceptedExtensionKept(f: string)
    requires AllowedFile(f)
    ensures LastPart(SecureFilename(f), '.') == LastPart(f, '.')
    ensures '.' in SecureFilename(f)
  {
    var e := LastPart(f, '.');
    AllowedExtensionIsLetters(e);
    SecureFilenameFixes(e);
    SecureFilenameLastPart(f);
    SecureFilenameLastDot(f);
  }

  /** Sanitising works character by character, so it distributes over
      concatenation. */
  lemma {:induction false} SecureFilenameAppend(a: string, b: string)
    ensures SecureFilename(a + b) == SecureFilename(a) + SecureFilename(b)
  {
    if a != [] {
      SecureFilenameAppend(a[1..], b);
      assert (a + b)[1..] == a[1..] + b;
    }
  }

  /** The path-traversal example: separators become `_`, dots stay. */
  lemma {:induction false} SecureFilenameExample(s: string)
    requires s == "../../etc/passwd.png"
    ensures SecureFilename(s) == ".._.._etc_passwd.png"
  {
    var r, t := SecureFilename(s), ".._.._etc_passwd.png";
    forall i | 0 <= i < 5 ensures r[i] == t[i] {
      assert r[i] == SafeChar(s[i]);
    }
    forall i | 5 <= i < 10 ensures r[i] == t[i] {
      assert r[i] == SafeChar(s[i]);
    }
    forall i | 10 <= i < 15 ensures r[i] == t[i] {
      assert r[i] == SafeChar(s[i]);
    }
    forall i | 15 <= i < |s| ensures r[i] == t[i] {
      assert r[i] == SafeChar(s[i]);
    }
  }
}
