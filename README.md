# Upload validation and letterbox resize of the smart-waste image service

This project models the core of a small image-upload service written in Python
(`main.py`). The service does three things:

- It checks a client file name against an extension allow-list (`allowed_file`).
- It sanitises the name character by character (`secure_filename`).
- It runs one POST endpoint, `classify_image`. The endpoint checks the name and the
  upload size, stores the original under `<uuid>.<ext>`, letterboxes the picture onto
  a white 640×640 canvas (`resize_image`) and stores that under `resized_<uuid>.<ext>`.
  If the transform fails, the endpoint reports partial success.

Files:

- `common.dfy`: `Option` and `Result` types, and `byte`.
- `filenames.dfy` (module `Filenames`): the allow-list, the sanitiser, and Python's
  `rsplit(".", 1)` tail as `LastPart`.
- `letterbox.dfy` (module `Letterbox`): the geometry of `resize_image` as exact integer
  arithmetic. This covers the aspect-ratio branch, the scaled size, the fixed canvas and
  the centred paste offset. It also models the ways the transform can fail.
- `uploads.dfy` (module `Uploads`): the upload directory as the class `UploadStore`. Its
  field `files: map<string, seq<byte>>` is replaced on each write. The ghost field
  `written` logs the names in the order they were written. `ClassifyImage` is the
  endpoint's decision sequence, in the source's order:
  1. name check (400)
  2. size check (400)
  3. write the original
  4. attempt the resize
  5. write the resized copy and answer `success`, or answer `partial_success`

Abstractions:

- The UUID is a parameter. The naming lemmas assume the canonical lower-case
  8-4-4-4-12 text that `str(uuid.uuid4())` produces, with version digit 4 and
  variant digit 8, 9, a or b.
- Decoding is a parameter `decode: seq<byte> -> Option<Image>`. `None` stands for
  the bytes not decoding, whether `Image.open` raises or the pixels fail to load
  later (at the conversion or the resize).
- JPEG encoding at quality 90 is a parameter `encode: Canvas -> seq<byte>`.
- `Canvas` is the composed picture handed to the encoder. It records the canvas size,
  mode and fill colour, the (RGBA-flattened) picture, the size it is resampled to, and
  the paste position.

Modelling choices:

- `str.lower()` is modelled on ASCII capitals only. This decides the allow-list exactly,
  because no non-ASCII character lower-cases to a string made only of the letters of
  `jpg`, `jpeg` and `png`.
- Dafny's `/` by a positive divisor rounds down, as Python's `//` does. So the paste
  offset is written as in the source.
- The aspect ratio is computed exactly: `new_h = floor(Tw*H/W)` when `W > H`, else
  `new_w = floor(Th*W/H)`. The source uses a float and `int()` instead.

## Behaviour worth knowing

- An accepted name keeps the case of its extension. `"X.JPG"` is stored as
  `<uuid>.JPG`, not with a lower-cased extension (main.py:85-87).
- `"../../etc/passwd.png"` sanitises to `".._.._etc_passwd.png"`. Dots are kept and
  only `/` becomes `_` (main.py:42).
- Very thin pictures are not resized. A 1000×1 picture gives `new_h = int(640/1000) = 0`.
  The resampler refuses a zero-sized target, so the request ends in `partial_success`
  (main.py:51-58; `Letterbox.ThinStripExample`).
- A zero height raises in the aspect-ratio division, which also gives `partial_success`
  (main.py:50).

## Model

| member | source | states |
|---|---|---|
| Filenames.Lower | main.py:39 | `str.lower()` on ASCII capitals; specified by `Filenames.LowerCharacters` |
| Filenames.LowerCharacters | main.py:39 | lower-casing keeps the length, leaves no ASCII capital, maps each capital to its small letter and keeps every other character |
| Filenames.LastIndex | main.py:39 | the result is absent exactly when the character does not occur; otherwise it is an occurrence with no occurrence after it (the last one) |
| Filenames.LastPart | main.py:86 | the last field of `rsplit(sep, 1)` has no separator; it is the whole string when there is no separator, and otherwise the text right after a separator, up to the end |
| Filenames.LastPartAfter | main.py:86 | whatever comes before the last separator, the last part is the text after it |
| Filenames.AllowedFile | main.py:38-39 | an accepted name has a dot, and its suffix after the last dot has three or four characters; the full characterisation, both directions, is `Filenames.AllowedFileSpec` |
| Filenames.AllowedFileSpec | main.py:38-39 | `allowed_file` is true exactly when some dot has no dot after it and the lower-cased text after it is jpg, jpeg or png (both directions) |
| Filenames.AllowedFileByLastSuffix | main.py:38-39 | for `p + "." + e` with no dot in `e`, acceptance is decided by `e` alone, whatever `p` holds |
| Filenames.AllowedFileAcceptsExamples | main.py:31-39 | `"a.exe.png"` and `"X.JPG"` pass |
| Filenames.AllowedFileRefusesExamples | main.py:38-39 | `"a.png.exe"`, `"png"` (no dot) and `"a."` (empty suffix) fail |
| Filenames.SafeChar | main.py:42 | the per-character replacement of `[^a-zA-Z0-9_.-]` by `_`; specified through `Filenames.SecureFilename` and `Filenames.SecureFilenameAlphabet` |
| Filenames.SecureFilename | main.py:41-42 | the output has the input's length, and each character is the input's character when it is in `[A-Za-z0-9_.-]` and `_` otherwise |
| Filenames.SecureFilenameAlphabet | main.py:42 | every output character is in `[A-Za-z0-9_.-]`, so neither `/` nor `\` occurs |
| Filenames.SecureFilenameFixes | main.py:42 | a name made only of allowed characters is unchanged |
| Filenames.SecureFilenameIdempotent | main.py:42 | sanitising twice equals sanitising once |
| Filenames.SecureFilenameKeepsDots | main.py:42 | the output has a dot at exactly the positions where the input has one |
| Filenames.SecureFilenameLastDot | main.py:42 | the last dot of the sanitised name is at the position of the input's last dot |
| Filenames.SecureFilenameLastPart | main.py:85-86 | the extension of the sanitised name is the sanitised extension of the input |
| Filenames.SecureFilenameSuffix | main.py:42 | sanitising a suffix gives the same suffix of the sanitised name |
| Filenames.SecureFilenameAppend | main.py:42 | sanitising distributes over concatenation (a character-wise replacement) |
| Filenames.SecureFilenameExample | main.py:42 | `"../../etc/passwd.png"` becomes `".._.._etc_passwd.png"` |
| Filenames.AllowedExtensionIsLetters | main.py:31-39 | a suffix that passes the allow-list is made only of ASCII letters |
| Filenames.AcceptedExtensionKept | main.py:85-86 | for an accepted name, `file_ext` (the suffix of the sanitised name) equals the original suffix with its case kept, and the sanitised name still has a dot |
| Letterbox.Flatten | main.py:47-48 | an RGBA picture becomes RGB and keeps its size; any other picture is unchanged |
| Letterbox.ScaledSize | main.py:50-56 | a wider picture takes the target width, and its height is the largest whose ratio to the width does not exceed H/W; any other picture, a square one included, takes the target height, and its width is the largest whose ratio to the height does not exceed W/H |
| Letterbox.PasteOffset | main.py:60 | on each axis the margin before the picture is at most the margin after it, and smaller by at most one pixel |
| Letterbox.Compose | main.py:50-60 | a zero height fails; a success is a canvas of exactly the requested size, in RGB, filled white, holding the flattened picture resampled to `ScaledSize` (non-empty on both sides) and pasted at the `PasteOffset` of that size |
| Letterbox.ResizeImage | main.py:44-68 | bytes that do not decode fail; a zero height fails; otherwise the transform succeeds exactly when both scaled sides are non-zero (else it fails with an empty scaled image), and a success is the encoding of a white RGB canvas of exactly the requested size holding the flattened decoded picture at its scaled size, pasted at the centring offset |
| Letterbox.ScaledSizeFitsSquare | main.py:50-56 | on an n×n canvas the scaled size never exceeds n on either side and equals n on at least one |
| Letterbox.SquareCanvasContainsPicture | main.py:59-60 | on an n×n canvas the pasted rectangle lies inside the canvas at non-negative offsets and fills one axis; left/right and top/bottom margins differ by at most one pixel |
| Letterbox.ComposeOutcome | main.py:50-58 | the transform fails exactly when the height is zero or a scaled side is zero; on success the branch's axis matches the target and the other side keeps the input's proportions to within one pixel |
| Letterbox.LandscapeExample | main.py:33-60 | 1920×1080 becomes 640×360, pasted at (0, 140) on the 640×640 canvas |
| Letterbox.SquareExample | main.py:47-60 | an 800×800 RGBA picture takes the height branch, is converted to RGB and fills the canvas at (0, 0) |
| Letterbox.ThinStripExample | main.py:51-58 | a 1000×1 picture scales to a zero height, so the transform fails |
| Uploads.Decimal | main.py:109 | `str(n)` for a natural number: at least one character, all decimal digits |
| Uploads.DecimalNoLeadingZero | main.py:109 | the text starts with `0` exactly when the number is 0, so there are no leading zeros |
| Uploads.DecimalRoundTrip | main.py:109 | reading back the decimal text of n gives n |
| Uploads.DimensionsText | main.py:109 | `"<width>x<height>"`; specified by `Uploads.DimensionsTextParses` and `Uploads.TargetDimensionsText` |
| Uploads.DimensionsTextParses | main.py:109 | the text splits at an `x` into the decimal text of the width and that of the height, and each reads back to its dimension |
| Uploads.TargetDimensionsText | main.py:109 | the reported dimensions of the target canvas are `"640x640"` |
| Uploads.StoredName | main.py:85-87 | the identifier is a prefix of the stored name, followed by a dot, and no dot comes after that one |
| Uploads.ResizedName | main.py:95 | the resized name is `resized_` followed by the stored name, which can be read back from it |
| Uploads.StoredNameStaysInFolder | main.py:85-96 | with a UUID identifier, the stored name has only safe characters, no `/`, and a single dot (right after the identifier), so it is never `.` or `..` and stays inside the upload directory; the resized name joined at main.py:96 also has only safe characters and no `/` |
| Uploads.StoredNameKeepsExtension | main.py:85-87 | an accepted file is stored as `uuid + "." + ` its original suffix (case kept), and that suffix is still on the allow-list |
| Uploads.StoredNamesDistinct | main.py:87 | different UUIDs give different stored names and different resized names, whatever the client names are |
| Uploads.ResizedNamesNeverOriginal | main.py:87-95 | no `resized_` name equals the stored name of any original |
| Uploads.Response.Status | main.py:105-124 | the `status` field is `success`, `partial_success` or `error`, each exactly for its kind of answer |
| Uploads.Response.HttpStatus | main.py:105-124 | every answer but an error has HTTP 200; an error carries its own code |
| Uploads.UploadStore.constructor | main.py:35 | `os.makedirs(..., exist_ok=True)`: the directory keeps the files it already holds, and nothing has been written yet |
| Uploads.UploadStore.Write | main.py:90-91 | a write creates or replaces exactly one entry, and appends its name to the write log |
| Uploads.UploadStore.ClassifyImage | main.py:76-124 | type check, then size check (> 5 MiB), each a 400 that leaves the directory unchanged; otherwise the original is stored under `uuid.ext` first, then either the resized copy is added and the answer is `success`, or nothing more is written and the answer is `partial_success` (details below) |

`Uploads.UploadStore.ClassifyImage` states the following:

- A name that fails the allow-list gets 400 with the invalid-type message, before any
  size check. The directory is unchanged.
- An allowed name with more than `5*1024*1024` bytes gets 400 with the too-large
  message. The directory is unchanged. Exactly 5 MiB passes.
- Otherwise the original is stored under `uuid + "." + file_ext` and stays there.
- If the resize then succeeds, `resized_` + that name is written next. The answer is
  `success` with `"640x640"` and both byte sizes.
- If the resize fails, nothing else is written and the answer is `partial_success`.
- The status is `error` with HTTP 400 exactly on a rejection, and 200 otherwise.

## Left out

- FastAPI routing, `read_root`, the CORS middleware and the construction of
  `JSONResponse`: this is framework plumbing. Answers are the `Response` datatype.
- The asynchronous `file.read()`: the bytes are a parameter.
- The 500 "Internal server error." path: it is reached only through I/O faults or a
  missing client file name. Writes into the map cannot fail.
- Pillow: decoding, RGBA to RGB pixel conversion, Lanczos resampling, pixel-level paste
  and JPEG encoding at quality 90 are foreign library calls. Decoding and encoding are
  function parameters. `Canvas` records the size requested from the resampler and the
  paste position, not pixels.
- Other exceptions raised inside the imaging library: the model has three causes of
  failure (no decode, zero height, a zero scaled side). Any other library failure is
  covered only through the decoder returning `None`.
- The floating-point aspect ratio and `int()` truncation: the model uses exact
  rationals, which can differ from the float result by one pixel in rare cases.
- `W > H` decided exactly: the float test `aspect_ratio > 1` could disagree with it for
  astronomically large sizes.
- `uuid.uuid4()` randomness: the identifier is a parameter. Distinct identifiers give
  distinct names (`Uploads.StoredNamesDistinct`); how likely a collision is falls
  outside the model.
- `os.makedirs` and `os.path.join`: filesystem glue. The directory is the map, whose
  keys are the file names.
- `os.path.getsize` and `round(size/1024, 2)`: the reported sizes are byte counts, and
  the float KB values are not modelled.
- Logging.
- Determinism of `resize_image`: it is immediate in the model, since `ResizeImage` is a
  function of its inputs.
- Letterbox.SquareCanvasContainsPicture: the fit-inside property is stated for square
  canvases only. With `Tw > Th`, the wide branch can exceed `Th`; the service uses only
  the square `TARGET_SIZE`.
