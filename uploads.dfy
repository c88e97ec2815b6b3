/** The upload endpoint `classify_image`: validate the file name and size,
    store the original under a fresh name, try the letterbox transform, and
    store its result under a derived name. The `uploads` directory is an
    `UploadStore` whose `files` map takes file names to contents; the random
    identifier, the decoder and the encoder are parameters. */
module Uploads {
  import opened Common
  import opened Filenames
  import opened Letterbox

  /** MAX_FILE_SIZE: 5 MiB. */
  const MaxFileSize: nat := 5 * 1024 * 1024

  /** The prefix that turns a stored name into the name of its resized copy. */
  const ResizedPrefix := "resized_"

  const InvalidTypeMessage := "Invalid file type. Only JPG, JPEG, PNG allowed."
  const TooLargeMessage := "File too large. Limit: 5MB."
  const SuccessMessage := "File uploaded and resized successfully. ML prediction pending."
  const PartialMessage := "File uploaded but image resizing failed."

  /** The JSON answers of the endpoint. `filename` is the name the client
      sent, unsanitised; sizes are in bytes. */
  datatype Response =
    | Success(filename: string, resizedFilename: string, resizedDimensions: string,
              originalSize: nat, resizedSize: nat, message: string)
    | PartialSuccess(filename: string, message: string)
    | ClientError(statusCode: nat, message: string)
  {
    /** The "status" field of the body: one value per kind of answer. */
    function Status(): (r: string)
      ensures r == "success" <==> Success?
      ensures r == "partial_success" <==> PartialSuccess?
      ensures r == "error" <==> ClientError?
    {
      match this
      case Success(_, _, _, _, _, _) => "success"
      case PartialSuccess(_, _) => "partial_success"
      case ClientError(_, _) => "error"
    }

    /** The HTTP status of the answer: 200 for every answer but an error,
        which carries its own code. */
    function HttpStatus(): (r: nat)
      ensures !ClientError? ==> r == 200
      ensures ClientError? ==> r == statusCode
    {
      if ClientError? then statusCode else 200
    }
  }

  /** The decimal text of a natural number, as `str(n)` writes it. */
  function Decimal(n: nat): (s: string)
    ensures |s| >= 1
    ensures forall i :: 0 <= i < |s| ==> '0' <= s[i] <= '9'
  {
    (if n < 10 then "" else Decimal(n / 10)) + [('0' as int + n % 10) as char]
  }

  /** Like `str(n)`, the text has no leading zero, except "0" itself. */
  lemma {:induction false} DecimalNoLeadingZero(n: nat)
    ensures Decimal(n)[0] == '0' <==> n == 0
  {
    if n >= 10 {
      DecimalNoLeadingZero(n / 10);
      assert Decimal(n)[0] == Decimal(n / 10)[0];
    }
  }

  /** The number a string of decimal digits denotes. */
  function DecimalValue(s: string): nat
    requires forall i :: 0 <= i < |s| ==> '0' <= s[i] <= '9'
  {
    if s == [] then 0 else DecimalValue(s[..|s| - 1]) * 10 + (s[|s| - 1] as int - '0' as int)
  }

  /** Reading back the decimal text of `n` gives `n`. */
  lemma {:induction false} DecimalRoundTrip(n: nat)
    ensures DecimalValue(Decimal(n)) == n
  {
    var p := if n < 10 then "" else Decimal(n / 10);
    var d := ('0' as int + n % 10) as char;
    var s := Decimal(n);
    assert s == p + [d];
    assert s[..|s| - 1] == p;
    assert s[|s| - 1] == d;
    assert d as int - '0' as int == n % 10;
    assert DecimalValue(s) == DecimalValue(p) * 10 + n % 10;
    if n >= 10 {
      DecimalRoundTrip(n / 10);
    }
  }

  /** "<width>x<height>", the "resized_dimensions" field. */
  function DimensionsText(s: Size): string {
    Decimal(s.width) + "x" + Decimal(s.height)
  }

  /** The dimensions text splits at an "x" into the decimal texts of the
      width and of the height, which read back to them. */
  lemma {:induction false} DimensionsTextParses(s: Size)
    ensures var r, k := DimensionsText(s), |Decimal(s.width)|;
      && k < |r| && r[k] == 'x'
      && r[..k] == Decimal(s.width) && r[k + 1..] == Decimal(s.height)
      && DecimalValue(r[..k]) == s.width && DecimalValue(r[k + 1..]) == s.height
  {
    DecimalRoundTrip(s.width);
    DecimalRoundTrip(s.height);
    JoinedParts(Decimal(s.width), Decimal(s.height));
  }

  /** Two strings joined by "x" are found again on either side of it. */
  lemma {:induction false} JoinedParts(a: string, b: string)
    ensures var r := a + "x" + b;
      && |a| < |r| && r[|a|] == 'x' && r[..|a|] == a && r[|a| + 1..] == b
  {
  }

  /** The dimensions reported for the fixed canvas. */
  lemma {:induction false} TargetDimensionsText()
    ensures DimensionsText(TargetSize) == "640x640"
  {
    assert Decimal(6) == "6";
    assert Decimal(64) == "64";
    assert Decimal(640) == "640";
  }

  /** The stored name of an original: the identifier, a dot, and the
      extension of the sanitised client name. The identifier is a prefix, and
      no dot follows the one right after it. */
  function StoredName(id: string, filename: string): (r: string)
    ensures |r| > |id| && r[..|id|] == id && r[|id|] == '.'
    ensures '.' !in r[|id| + 1..]
  {
    var e := LastPart(SecureFilename(filename), '.');
    LastPartAfter(id, '.', e);
    id + "." + e
  }

  /** The name of the resized copy: the prefix, then the stored name, which
      can be read back from it. */
  function ResizedName(name: string): (r: string)
    ensures |r| == |ResizedPrefix| + |name|
    ensures r[..|ResizedPrefix|] == ResizedPrefix && r[|ResizedPrefix|..] == name
  {
    ResizedPrefix + name
  }

  predicate IsHexDigit(c: char) {
    ('0' <= c <= '9') || ('a' <= c <= 'f')
  }

  /** The text of a version-4 UUID: 32 lower-case hex digits in groups of
      8, 4, 4, 4 and 12, separated by hyphens, with version digit 4 and a
      variant digit among 8, 9, a and b. */
  predicate IsUuidText(id: string) {
    && |id| == 36
    && (forall k :: 0 <= k < 36 ==>
         if k == 8 || k == 13 || k == 18 || k == 23 then id[k] == '-' else IsHexDigit(id[k]))
    && id[14] == '4'
    && (id[19] == '8' || id[19] == '9' || id[19] == 'a' || id[19] == 'b')
  }

  /** Every character of a UUID text is a safe character other than a dot. */
  lemma {:induction false} UuidTextIsSafe(id: string)
    requires IsUuidText(id)
    ensures forall k :: 0 <= k < |id| ==> IsSafeChar(id[k]) && id[k] != '.'
  {
  }

  /** The extension of a sanitised name is made of safe characters other
      than a dot. */
  lemma {:induction false} SanitisedExtensionIsSafe(filename: string)
    ensures var e := LastPart(SecureFilename(filename), '.');
      forall k :: 0 <= k < |e| ==> IsSafeChar(e[k]) && e[k] != '.'
  {
    var t := SecureFilename(filename);
    var e := LastPart(t, '.');
    SecureFilenameAlphabet(filename);
    forall k | 0 <= k < |e| ensures IsSafeChar(e[k]) {
      if '.' in t {
        assert e[k] == t[|t| - |e| + k];
      }
    }
  }

  /** A stored name is one path component inside the upload directory: only
      safe characters, no separator, exactly one dot (right after the
      identifier), so never "." or "..". The name of its resized copy is
      also made of safe characters only, with no separator. */
  lemma {:induction false} StoredNameStaysInFolder(id: string, filename: string)
    requires IsUuidText(id)
    ensures var n := StoredName(id, filename);
      && (forall k :: 0 <= k < |n| ==> IsSafeChar(n[k]))
      && '/' !in n
      && (forall k :: 0 <= k < |n| && n[k] == '.' ==> k == 36)
      && n != "." && n != ".."
    ensures var m := ResizedName(StoredName(id, filename));
      && (forall k :: 0 <= k < |m| ==> IsSafeChar(m[k]))
      && '/' !in m
  {
    var e := LastPart(SecureFilename(filename), '.');
    var n := StoredName(id, filename);
    assert n == id + "." + e;
    UuidTextIsSafe(id);
    SanitisedExtensionIsSafe(filename);
    forall k | 0 <= k < |n| ensures IsSafeChar(n[k]) && (n[k] == '.' ==> k == 36) {
      if k < 36 {
        assert n[k] == id[k];
      } else if k > 36 {
        assert n[k] == e[k - 37];
      }
    }
    ResizedNameIsSafe(n);
  }

  /** Prefixing a name of safe characters with `resized_` keeps it safe. */
  lemma {:induction false} ResizedNameIsSafe(n: string)
    requires forall k :: 0 <= k < |n| ==> IsSafeChar(n[k])
    ensures var m := ResizedName(n);
      && (forall k :: 0 <= k < |m| ==> IsSafeChar(m[k]))
      && '/' !in m
  {
    var m := ResizedName(n);
    forall k | 0 <= k < |m| ensures IsSafeChar(m[k]) {
      if k < |ResizedPrefix| {
        assert m[k] == ResizedPrefix[k];
      } else {
        assert m[k] == n[k - |ResizedPrefix|];
      }
    }
  }

  /** An accepted file is stored with its own extension, case preserved. */
  lemma {:induction false} StoredNameKeepsExtension(id: string, filename: string)
    requires AllowedFile(filename)
    ensures StoredName(id, filename) == id + "." + LastPart(filename, '.')
    ensures LastPart(StoredName(id, filename), '.') == LastPart(filename, '.')
    ensures Lower(LastPart(StoredName(id, filename), '.')) in AllowedExtensions
  {
    AcceptedExtensionKept(filename);
    LastPartAfter(id, '.', LastPart(filename, '.'));
  }

  /** Different identifiers never give the same stored name, whatever the
      client names are. */
  lemma {:induction false} StoredNamesDistinct(a: string, b: string, f: string, g: string)
    requires IsUuidText(a) && IsUuidText(b) && a != b
    ensures StoredName(a, f) != StoredName(b, g)
    ensures ResizedName(StoredName(a, f)) != ResizedName(StoredName(b, g))
  {
    var x, y := StoredName(a, f), StoredName(b, g);
    assert x[..36] == a && y[..36] == b;
    var rx, ry := ResizedName(x), ResizedName(y);
    assert rx[8..] == x && ry[8..] == y;
  }

  /** No resized name is ever the stored name of an original. */
  lemma {:induction false} ResizedNamesNeverOriginal(a: string, b: string, f: string, g: string)
    requires IsUuidText(b)
    ensures ResizedName(StoredName(a, f)) != StoredName(b, g)
  {
    assert ResizedName(StoredName(a, f))[0] == 'r';
    assert StoredName(b, g)[0] == b[0];
  }

  /** The `uploads` directory. `written` records the names written, in
      order. */
  class UploadStore {
    var files: map<string, seq<byte>>
    ghost var written: seq<string>

    /** The directory as `os.makedirs(..., exist_ok=True)` leaves it: the
        files already there are kept, and nothing has been written yet. */
    constructor (existing: map<string, seq<byte>>)
      ensures files == existing && written == []
    {
      files := existing;
      written := [];
    }

    /** `open(path, "wb").write(data)`: creates or replaces one file. */
    method Write(name: string, data: seq<byte>)
      modifies this
      ensures files == old(files)[name := data]
      ensures written == old(written) + [name]
    {
      files := files[name := data];
      written := written + [name];
    }

    /** `classify_image`, from the client's file name and bytes; `id` is the
        text of the fresh UUID. */
    method ClassifyImage(filename: string, contents: seq<byte>, id: string,
                         decode: seq<byte> -> Option<Image>, encode: Canvas -> seq<byte>)
      returns (resp: Response)
      modifies this
      ensures resp.Status() == "error" <==> !AllowedFile(filename) || |contents| > MaxFileSize
      ensures resp.HttpStatus() == if resp.Status() == "error" then 400 else 200
      ensures !AllowedFile(filename) ==>
        && resp == ClientError(400, InvalidTypeMessage)
        && files == old(files) && written == old(written)
      ensures AllowedFile(filename) && |contents| > MaxFileSize ==>
        && resp == ClientError(400, TooLargeMessage)
        && files == old(files) && written == old(written)
      ensures AllowedFile(filename) && |contents| <= MaxFileSize ==>
        var name := StoredName(id, filename);
        && name in files && files[name] == contents
        && match ResizeImage(contents, TargetSize, decode, encode)
           case Ok(data) =>
             && files == old(files)[name := contents][ResizedName(name) := data]
             && written == old(written) + [name, ResizedName(name)]
             && resp == Success(filename, ResizedName(name), DimensionsText(TargetSize),
                                |contents|, |data|, SuccessMessage)
           case Err(_) =>
             && files == old(files)[name := contents]
             && written == old(written) + [name]
             && resp == PartialSuccess(filename, PartialMessage)
    {
      if !AllowedFile(filename) {
        return ClientError(400, InvalidTypeMessage);
      }
      if |contents| > MaxFileSize {
        return ClientError(400, TooLargeMessage);
      }
      var safeName := SecureFilename(filename);
      var fileExt := LastPart(safeName, '.');
      var uniqueName := id + "." + fileExt;
      assert uniqueName == StoredName(id, filename);
      Write(uniqueName, contents);
      match ResizeImage(contents, TargetSize, decode, encode)
      case Ok(resized) =>
        var resizedName := ResizedPrefix + uniqueName;
        assert resizedName == ResizedName(uniqueName);
        assert |resizedName| != |uniqueName|;
        ghost var before := written;
        Write(resizedName, resized);
        assert written == old(written) + [uniqueName, resizedName] by {
          assert before == old(written) + [uniqueName];
        }
        resp := Success(filename, resizedName, DimensionsText(TargetSize),
                        |contents|, |resized|, SuccessMessage);
      case Err(_) =>
        resp := PartialSuccess(filename, PartialMessage);
    }
  }
}
