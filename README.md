# OG image generator — a Dafny model of its logic

The program builds a 1200×630 "Open Graph" share image from a tag, a title, an
author name and a local picture. It has three pieces of logic, and each is
modelled here:

- **Command-line parsing** (`parseArguments`). The tokens after the program
  name are scanned left to right. A value flag (`--tag`, `--title`,
  `--author`, `--picture`) stores the next token in its slot and skips over it.
  `--help`/`-h` ends the run with "show usage, exit 0". Any other token at a
  flag position ends it with "unknown argument, exit 1". At the end, all four
  slots must be set and non-empty.
- **Picture validation and embedding** (the first half of `generateOGImage`).
  The existence check comes first. Next is the case-insensitive extension
  check against `.png .jpg .jpeg .gif .bmp .webp .svg`. Last comes the MIME
  type (`image/<ext>`, with `jpg` spelled `jpeg`) and the
  `data:<mime>;base64,<payload>` URL.
- **The HTML document**. A fixed HTML/CSS template has four interpolation
  points: the data URL, the tag, the title and the author. The values are
  spliced in verbatim, with no escaping.

Modules, one per component:

- `Wrappers` (wrappers.dfy): `Option` and `Result`.
- `Args` (args.dfy): the parser. `ParseArguments` is a loop method, as in the
  source. It is proved equal to the recursive function `Parse`, and
  `Parse` is characterised by lemmas over well-formed `(flag, value)` pair
  lists.
- `Picture` (picture.dfy): `path.extname`, lower-casing, validation, the MIME
  type, the data URL, and a reader for data URLs that serves as the URL's
  inverse.
- `Template` (template.dfy): the exact template text as five constants,
  `Fill`/`Html`, and `Extract`, which reads the four values back out of a
  document.
- `OgImage` (og_image.dfy): `BuildHtml`, which is `generateOGImage` up to the
  point where it hands the document to the rendering engine.

Inputs that come from outside the program are parameters:

- `fs.existsSync(path)` is the boolean `fileExists`.
- The base64 text of the file is the opaque string `payload`.
- `process.argv.slice(2)` is the token list `args`.
- The `process.exit` calls are the `ParseResult` values: `Help` means exit 0;
  `Unknown` and `Missing` mean exit 1.
- A thrown `Error` is a `Failure` value.

Three behaviours of the code that are easy to miss, and that the model
reproduces:

- `generateOGImage` (generateOgImage.js:60-79) validates only the picture, so
  `BuildHtml` accepts empty texts.
- Any token at a flag position other than the six flags, including a bare
  value such as `foo`, ends in `Unknown argument` (generateOgImage.js:44-47).
- A value flag in last position reads `undefined` past the end of the list.
  This overwrites any value the flag had before, so `--tag a --tag` ends in
  `Missing` (`Args.TrailingFlagMissing`).

## Model

| member | source | states |
|---|---|---|
| `Args.ScanFrom` | generateOgImage.js:14-49 | The scan from one flag position. An `Unknown` stop names a token of the command line that is neither a value flag nor a help flag. A help stop happens only when `--help` or `-h` is on the command line. Every slot the scan fills holds a token of the command line, or the value it had before. |
| `Args.Parse` | generateOgImage.js:6-58 | `parseArguments` as a function. An `Unknown` result names an offending token of the command line. `Help` requires `--help` or `-h` on it. An `Ok` record holds four non-empty tokens of the command line. |
| `Args.ParseArguments` | generateOgImage.js:6-58 | The loop, with its index advanced inside the body by `++i` and its early exits, returns exactly `Parse(args)`. |
| `Args.TokenAt` | generateOgImage.js:17 | `args[++i]` reads the next token when there is one, and `undefined` (None) past the end. |
| `Args.Assign` | generateOgImage.js:16-27 | A value flag stores its value in its own slot. The other three slots are unchanged. |
| `Args.Decide` | generateOgImage.js:51-57 | After the scan, the result is `Ok` iff all four slots are set and non-empty, and its fields are those slots. Any slot that is unset or `""` gives `Missing`. `Help` and `Unknown` pass through unchanged. |
| `Args.ScanPairs` | generateOgImage.js:14-27 | Each value flag consumes the next token verbatim, even one that looks like a flag. Scanning a list of pairs and then `rest` is the same as scanning `rest` from the slots the pairs leave behind. |
| `Args.LastOccurrenceWins` | generateOgImage.js:17-26 | When a flag repeats, the value of its last occurrence wins. |
| `Args.AbsentFlagUnchanged` | generateOgImage.js:17-26 | A slot that no pair names keeps its value. |
| `Args.ParsePairs` | generateOgImage.js:14-57 | A well-formed invocation parses to the required-field decision on the slots its pairs leave behind. |
| `Args.FirstStopDecides` | generateOgImage.js:28-48 | The first token at a flag position that is not a value flag decides the outcome, whatever follows it: `--help` or `-h` gives `Help`, anything else gives `Unknown` of that token. |
| `Args.StopIgnoresLaterTokens` | generateOgImage.js:14-48 | Once the result is `Help` or `Unknown`, appending tokens does not change it. Later tokens are never examined. |
| `Args.TrailingFlagMissing` | generateOgImage.js:16-55 | A value flag in last position reads `undefined`, which erases any earlier value for that flag, so the parse ends in `Missing`. |
| `Args.TagSwallowsHelp` | generateOgImage.js:16-18 | `--tag --help` sets the tag to `"--help"`, and parsing continues with the tokens after it. No help is shown. |
| `Args.UnknownBeforeHelp` | generateOgImage.js:44-47 | An unknown token before `--help` gives `Unknown` (exit 1), not help. |
| `Picture.Extname` | generateOgImage.js:66 | `path.extname` returns either `""` or a `.` followed by characters that are neither `.` nor `/`. It is a suffix of the path without trailing slashes, and a non-`/` character stands before it. |
| `Picture.ExtnameOfName` | generateOgImage.js:66 | `stem.x` has the extension `.x`, whatever directories the stem contains. |
| `Picture.ExtnameOfDotFile` | generateOgImage.js:66 | A segment `.x` whose only dot is its first character has no extension, so a file named `.png` is rejected. |
| `Picture.ToLower` | generateOgImage.js:66 | `toLowerCase` keeps the length of the string and lower-cases each character. |
| `Picture.LowerOfUpper` | generateOgImage.js:66 | Lower-casing an upper-cased string that has no capitals gives it back. |
| `Picture.ValidatePicture` | generateOgImage.js:62-73 | A missing file gives "does not exist". For an existing file the result is success iff the lower-cased extension is on the allow-list, and the result is that extension. Any other extension gives the format error. |
| `Picture.MissingBeforeFormat` | generateOgImage.js:62-64 | When the file is missing, the error is "does not exist" whatever the extension. |
| `Picture.AcceptedIff` | generateOgImage.js:66-73 | An existing `stem.x` is accepted iff `.x`, lower-cased, is one of the seven extensions. The validated extension is `.x` lower-cased. |
| `Picture.UpperCaseAccepted` | generateOgImage.js:66-69 | An upper-cased supported extension, such as `photo.JPG`, validates to its lower-case form. |
| `Picture.Join` | generateOgImage.js:71 | `Array.prototype.join`: the empty list gives `""`, and a non-empty list's text begins with its first element. |
| `Picture.Message` | generateOgImage.js:62-72 | The texts of the two thrown errors. The "does not exist" text ends with the path it names. |
| `Picture.MessageDeterminesError` | generateOgImage.js:62-72 | Equal texts come from equal errors: the two kinds of error have different texts, and the "does not exist" text determines the path. |
| `Picture.FormatMessageListsAll` | generateOgImage.js:70-72 | The unsupported-format error message contains every supported extension. |
| `Picture.Slice1` | generateOgImage.js:78 | `ext.slice(1)`: `""` for the empty string, otherwise the string without its first character. |
| `Picture.MimeType` | generateOgImage.js:78 | Every MIME type begins with `image/`. |
| `Picture.MimeTable` | generateOgImage.js:78 | The MIME type of each of the seven extensions. `.jpg` and `.jpeg` give `image/jpeg`; `.svg` gives `image/svg`, not `image/svg+xml`. |
| `Picture.MimeOfAccepted` | generateOgImage.js:67-78 | A supported `.x` gives `image/x`, except `.jpg`, which gives `image/jpeg`. None of these contains `;`. |
| `Picture.DataUrl` | generateOgImage.js:79 | The URL's length is that of `data:`, the MIME type, `;base64,` and the payload together. |
| `Picture.DataUrlRoundTrip` | generateOgImage.js:79 | For a MIME type without `;`, the data URL reads back as exactly that MIME type and payload. |
| `Picture.ParseDataUrlSound` | generateOgImage.js:79 | Every URL the reader accepts is the data URL of the MIME type and payload it reads. |
| `Template.Fill` | generateOgImage.js:87-175 | A template filled with four values: its length is the fixed text's length plus the values' lengths, it begins with the head text and it ends with the tail text. |
| `Template.Html` | generateOgImage.js:87-175 | The document's length is the length of the program's fixed template text plus the lengths of the URL, tag, title and author. |
| `Template.ExtractFill` | generateOgImage.js:87-175 | The filled template holds each value unmodified at its interpolation point, and the fixed text everywhere else. |
| `Template.ExtractSound` | generateOgImage.js:87-175 | Any text that `Extract` accepts is the filled template of the values it reads. |
| `Template.HtmlLayout` | generateOgImage.js:152-171 | The document has the data URL at the `url(...)` of the avatar rule (:152), and the tag, title and author in their elements (:167, :168, :171), all unmodified. `Extract` checks the fixed text at every other position, so outside the slots nothing depends on the inputs. |
| `Template.HtmlInjective` | generateOgImage.js:152-171 | Equal documents built from values of the same lengths come from equal values. |
| `Template.NoEscaping` | generateOgImage.js:167-168 | Nothing is escaped: a tag that contains the markup between tag and title yields the same document as a shorter tag with a longer title. |
| `OgImage.BuildHtml` | generateOgImage.js:62-175 | A missing file gives "does not exist". `BuildHtml` succeeds iff the file exists and its lower-cased extension is supported. Otherwise the result is the format error. |
| `OgImage.HtmlCarriesRequest` | generateOgImage.js:76-171 | A built document carries its request: the tag, title and author stand unmodified in their slots, and the URL slot reads back as the MIME type of the validated extension and the payload. |
| `OgImage.UpperCaseJpgIsJpeg` | generateOgImage.js:66-79 | An existing `stem.JPG` is accepted and embedded as `image/jpeg`. |

## Left out

- Rendering (generateOgImage.js:81-85, 177-181): launching the browser, the 1200×630 viewport, `setContent`, the PNG screenshot and `browser.close` are external and asynchronous. This also leaves out the 1200×630 size and the determinism of the image.
- File I/O: `fs.existsSync` is the `fileExists` parameter. `fs.readFileSync` (:76) and `fs.writeFileSync` (:192) are omitted.
- OgImage.BuildHtml: a failure of `fs.readFileSync` (:76) is not modelled. `fs.existsSync` is also true for a directory or an unreadable file; for a directory named `photo.png` the program throws at :76, where `BuildHtml` returns `Success`.
- Base64 (:77): `Buffer.toString("base64")` is a library call, so its result is the opaque `payload`.
- Console output and `process.exit`: usage and error texts printed by the CLI are not modelled, only the outcome values. The two thrown picture errors do have their texts (`Picture.Message`).
- The entry-point dispatch and promise chain (:185-206): glue that calls the parser, then the renderer, then writes `og-image.png`.
- script.js: a driver with fixed sample data and no logic.
- CSS layout semantics: the template text is reproduced exactly, but only as data.
- Programmatic calls with non-string fields: JavaScript would interpolate `undefined` as the text "undefined". The model's request fields are strings.
- Picture.Extname: this is an assumption about Node's POSIX `path.extname`, a library call whose code is not part of this model. The model drops trailing `/` characters and takes the last segment. It returns `""` when that segment has no `.`, when its last `.` is its first character, or when the segment is exactly `..`; otherwise it returns the text from the last `.`. The Windows variant, where `\` is also a separator, is not modelled.
- Picture.ToLower: lower-cases only `A`–`Z`, where JavaScript applies full Unicode case mapping. Acceptance is still decided exactly as the source decides it, because an accepted extension must lower-case to one of the seven ASCII strings. Only two non-ASCII characters lower-case to text with an ASCII letter in it. U+212A KELVIN SIGN becomes `k`, and `k` occurs in none of the seven. U+0130 (capital I with dot above) becomes `i` followed by U+0307 COMBINING DOT ABOVE, so `.GİF` becomes `.gi̇f`. That still contains the non-ASCII U+0307, so it is rejected like every other result with a non-ASCII character. The model keeps U+0130 as it is, which also rejects the extension.
- Strings are sequences of Unicode scalar values, not UTF-16 code units. Lengths passed to `Template.Extract` count characters; this only matters for characters outside the Basic Multilingual Plane.
