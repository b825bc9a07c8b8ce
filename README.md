# Palette extractor: a Dafny model

The application takes an uploaded image and proposes a colour palette for it.
A Flask service (`app.py`) accepts the upload, checks its extension and hands
it to the colour engine (`color_engine.py`). The engine clusters the pixels,
scores each cluster centre by saturation and brightness, sorts the centres by
score and keeps up to five distinct ones in two greedy passes. It then formats
them as `#rrggbb`, suggests a usage (from the image's aspect ratio and the
palette's "vibe") and a text contrast (from the average colour). The same
service lists and renders blog posts stored as text files. The browser script
(`static/js/script.js`) shows the palette and its percentages, draws the
gradient, exports the colours as CSS, Tailwind or JSON, converts hex codes to
`r, g, b` text and downloads the palette as an image.

The model has six modules:

- `Strings` (`strings.dfy`) models the Python and JavaScript string built-ins
  the code relies on: `find`/`split(sep, 1)`, `rsplit`, `split`, `strip`,
  `lstrip`, `lower`, `replace`, `sorted` on strings, decimal and hex digits.
- `ColorEngine` (`color_engine.dfy`) covers `rgb_to_hex`, `hex_to_rgb`,
  saturation and brightness, `get_smart_usage`, the contrast rule and the
  scoring loop of `process_image`.
- `Selection` (`selection.dfy`) covers the descending sort, the two selection
  passes and the assembly of the analysis result.
- `App` (`app.dfy`) covers `allowed_file`, `/analyze`, the blog id guard, the
  post parser and `get_all_posts`.
- `Json` (`json.dfy`) covers `JSON.stringify(list, null, 2)` for a list of
  strings, with an independent decoder as its partner.
- `Client` (`client.dfy`) covers the browser script: `hexToRgb`,
  `generateCode`, and a `ViewState` class whose fields are the script's
  variables and the texts of the page elements it writes. Its methods are
  `updateUI`, `switchTab`, the reset handler, the upload start, the preview
  step and `downloadPaletteImage`.

Exceptions become `None` or an error value. The file system is a map from
file names to what reading them gives. KMeans, the image decoder and the
average colour are inputs.

## Model

| member | source | states |
|---|---|---|
| Strings.NatToHex | color_engine.py:8 | The hex digits of a number are lower-case, read back as that number, and there is exactly one digit below 16 |
| Strings.SkipForward | color_engine.py:11 | `lstrip` stops at the first character it does not strip: every character it passes is stripped, and the one it stops at is not |
| Strings.SkipBackward | app.py:67 | The trailing half of `strip` stops at the last character it does not strip: every character it passes is stripped, and the one before it is not |
| Strings.LastIndexOf | app.py:15 | `rsplit('.', 1)` finds no dot exactly when the name has none; otherwise it finds a dot with no dot after it |
| Strings.Lower | app.py:15 | Lower-casing keeps the length and maps each character on its own |
| Strings.RemoveAllSuffix | app.py:27 | Removing every `.txt` from `stem.txt` gives the stem back when the stem holds no `.` |
| Strings.RemoveAll | app.py:27 | `replace(pat, '')` never lengthens a text and adds no character that was not there |
| Strings.LexLeTotal | app.py:23 | The code-point order used by `sorted` is total |
| Strings.Find | app.py:66 | `split('---', 1)` fails exactly when the marker does not occur; otherwise the marker stands at the index found |
| Strings.ContainsAt | app.py:59 | `pat in s` holds whenever `pat` occurs at some index of `s` (with Find, the converse) |
| Strings.FindFirst | app.py:66 | The marker does not occur before the index found, so the split happens at the first `---` |
| Strings.SplitJoin | app.py:67 | Joining the pieces of `split('\n')` with newlines gives back the text |
| Strings.SplitPieces | app.py:67 | No piece of `split('\n')` holds a newline |
| Strings.Split | app.py:67 | `split('\n')` always gives at least one piece |
| Strings.SplitAround | app.py:67 | Splitting `a + sep + b` gives the pieces of `a` followed by the pieces of `b` |
| Strings.StripSlice | app.py:67 | `strip()` removes exactly the leading and trailing whitespace runs: the result is a slice of the text with only whitespace outside it |
| Strings.Strip | app.py:67 | `strip()` never lengthens a text, and its result neither starts nor ends with a stripped character |
| Strings.NatToDec | static/js/script.js:175 | A number is written in decimal digits that read back as it, with no leading zero |
| ColorEngine.Trunc | color_engine.py:8 | `int()` of a float truncates toward zero |
| ColorEngine.Hex02 | color_engine.py:8 | The `02x` format has at least two characters and starts with `-` exactly for a negative number |
| ColorEngine.Hex02Byte | color_engine.py:8 | For 0..255 the `02x` format is exactly the high digit then the low digit |
| ColorEngine.RgbToHex | color_engine.py:7-8 | The result starts with `#` and has at least seven characters |
| ColorEngine.RgbToHexShape | color_engine.py:7-8 | For channels in 0..255 the result is `#` followed by six lower-case hex digits, two per channel in r, g, b order |
| ColorEngine.Slice2 | color_engine.py:12 | A clamped slice `h[i:i+2]` has at most two characters |
| ColorEngine.ParseHexSlice | color_engine.py:12 | `int('', 16)` raises, and any value `int()` reads from at most two characters lies strictly between -16 and 256 |
| ColorEngine.SeparatorNotSkipped | color_engine.py:12 | `int()` rejects an information separator (U+001C to U+001F) beside a hex digit, although `strip()` would remove it |
| ColorEngine.ParseHexPair | color_engine.py:12 | Two hex digits read as 16 times the first plus the second |
| ColorEngine.HexToRgb | color_engine.py:10-12 | Fewer than five characters after the leading `#`s raise |
| ColorEngine.HexRoundTrip | color_engine.py:7-12 | `hex_to_rgb(rgb_to_hex(c))` returns `c` for every integer colour in 0..255 |
| ColorEngine.DropHash | color_engine.py:11 | `lstrip('#')` of a text with a single leading `#` drops exactly that character |
| ColorEngine.ByteDigits | color_engine.py:8-12 | The two `02x` digits of a byte parse back to that byte |
| ColorEngine.Max3 | color_engine.py:28 | `max(r, g, b)` is one of the three and at least each of them |
| ColorEngine.Min3 | color_engine.py:28 | `min(r, g, b)` is one of the three and at most each of them |
| ColorEngine.Saturation | color_engine.py:29 | For non-negative channels the saturation lies in 0..100 |
| ColorEngine.Brightness | color_engine.py:30 | For channels in 0..255 the brightness lies in 0..100 |
| ColorEngine.VibeOf | color_engine.py:37-40 | Each vibe holds exactly under its own condition; darkness is tested first, so a dark palette is Moody whatever its saturation |
| ColorEngine.Leading | color_engine.py:26 | `[:3]` is a prefix of length min(3, n) |
| ColorEngine.SmartUsage | color_engine.py:22-56 | The loop-and-branch method returns the usage defined by the vibe and ratio tables; zero height is the division error |
| ColorEngine.UsageForRatio | color_engine.py:42-56 | The three ratio bands cover every ratio, so the "General Usage" fallback is never returned |
| ColorEngine.Usage | color_engine.py:22-56 | A zero height raises and nothing else does; "General Usage" is never the answer |
| ColorEngine.EmptyPaletteIsMoody | color_engine.py:34-54 | With no colours both averages are 0, so the answer is album cover, wallpaper or YouTube thumbnail by ratio alone |
| ColorEngine.Contrast | color_engine.py:129-131 | White text exactly when 299 r + 587 g + 114 b < 128000; black text otherwise |
| ColorEngine.ContrastMonotone | color_engine.py:130-131 | Raising any channel never turns black text into white text |
| ColorEngine.Score | color_engine.py:86-91 | The score never exceeds 2.5 × saturation + brightness, and falls below it exactly for a near-grey mid-tone (saturation below 5, brightness strictly between 20 and 90) |
| ColorEngine.ScoreBounds | color_engine.py:86-91 | For channels in 0..255 every score lies in 0..350: the grey penalty never makes a score negative |
| ColorEngine.Count | color_engine.py:79 | A label count never exceeds the number of pixels |
| ColorEngine.Percent | color_engine.py:93 | A centre's share of the pixels lies in 0..100 |
| ColorEngine.Scored | color_engine.py:84-99 | One candidate per centre, in order, carrying its colour and score; it fails exactly when there are centres but no pixels |
| ColorEngine.ScoreCandidates | color_engine.py:84-99 | The scoring loop builds exactly that candidate list, or stops on the division error |
| ColorEngine.PercentsSumTo100 | color_engine.py:78-99 | When every pixel carries the label of a centre, the candidates' percentages add up to 100 |
| Selection.InsertByScore | color_engine.py:101 | Insertion adds exactly the one candidate |
| Selection.InsertSorted | color_engine.py:101 | Insertion into a list sorted by descending score keeps it sorted |
| Selection.SortByScore | color_engine.py:101 | The sort yields descending scores and is a permutation of its input |
| Selection.SqDist | color_engine.py:19-20 | The squared distance is non-negative and zero from a colour to itself |
| Selection.SelectDistinct | color_engine.py:103-121 | The two loops, with the first pass's early `break` and the second pass's full scan, compute the two-pass greedy selection |
| Selection.PassBound | color_engine.py:105-116 | A pass that starts full adds nothing, and a pass never grows the list beyond k |
| Selection.SelectAtMostK | color_engine.py:103-121 | At most k colours are chosen, and none when k ≤ 0 |
| Selection.PassKeepsSeparated | color_engine.py:108-121 | A pass keeps every pair of kept colours at least the threshold apart |
| Selection.FirstPassSeparated | color_engine.py:103-112 | The first pass's colours are pairwise at distance ≥ 35 |
| Selection.SelectSeparated | color_engine.py:103-121 | All chosen colours are pairwise at distance ≥ 10 |
| Selection.SelectNoRepeats | color_engine.py:103-121 | No colour is chosen twice |
| Selection.PassAppends | color_engine.py:104-112 | A pass only appends candidates, in input order, so a sorted input gives sorted additions |
| Selection.SelectOrder | color_engine.py:101-121 | The result is the first pass's colours followed by the second pass's colours, each part in descending score, all drawn from the candidates |
| Selection.SelectCoversCandidates | color_engine.py:114-121 | If fewer than k are chosen, every candidate lies within distance 10 of some chosen colour |
| Selection.PassCovers | color_engine.py:115-121 | A pass that ends short of k has rejected or taken every candidate |
| Selection.ProcessImage | color_engine.py:84-139 | Score, sort, select, format, usage and contrast compose into the result object, or the first exception |
| Selection.Process | color_engine.py:84-139 | A result is produced exactly when the scoring has pixels to divide by, the height is non-zero and the average colour's hex code parses back |
| Selection.ProcessAligned | color_engine.py:123-124 | Colours and percentages are index-aligned with the selection, and there are at most k of them |
| Selection.ProcessSucceeds | color_engine.py:42-131 | A non-zero height, an average in 0..255 and at least one pixel rule out every exception |
| App.AllowedFile | app.py:13-15 | A name without a dot is rejected |
| App.AllowedFileExtension | app.py:11-15 | Only the text after the last dot decides, compared case-insensitively with png, jpg, jpeg, webp |
| App.AcceptsLastExtension | app.py:13-15 | `a.b.PNG` is accepted |
| App.RejectsBareExtension | app.py:13-15 | `png` with no dot is rejected |
| App.Analyze | app.py:84-102 | Status 200 exactly for a success body; every status is 200, 400 or 500 |
| App.AnalyzeDecision | app.py:86-102 | The checks run in order: missing field, then empty name, then bad extension, each giving 400 with its own message; an allowed upload gives its analysis with 200 or the exception text with 500 |
| App.ParsePost | app.py:66-75 | Content with no `---` fails |
| App.ParseParts | app.py:67-75 | The header parses exactly when its stripped text has at least three lines |
| App.BlogPost | app.py:55-82 | Every status is 200, 404 or 500, and 200 exactly when a post is rendered. An unsafe id gets 404; for a safe id, 404 means exactly that the file is missing. A readable file is rendered exactly when it parses, and an unreadable one gets 500 |
| App.SafeIdChars | app.py:59 | An id passes the guard exactly when it holds no `/` and no two dots in a row |
| App.UnsafeIdIgnoresFiles | app.py:59-60 | An id containing `..` or `/` gets 404 whatever the directory holds |
| App.NoSeparatorIs500 | app.py:66-82 | A readable post file without `---` gives 500 |
| App.ShortHeaderIs500 | app.py:66-82 | A readable file whose stripped header, before the first `---`, has fewer than three lines gets 500 |
| App.ParsePostFile | app.py:63-75 | A file written as three clean header lines, `---` and a body parses back to those fields and the stripped body |
| App.ParsePostFileHeader | app.py:66 | Parsing such a file splits it at the marker that follows the header |
| App.FindMarker | app.py:66 | The first `---` of such a file stands right after the three header lines |
| App.ParseAtMarker | app.py:66-75 | When the first `---` of a text follows a prefix, the prefix is the header and everything after the marker is the body |
| App.ParseHeader | app.py:67-72 | The header lines parse back to title, tag and gradient |
| App.InsertName | app.py:23 | Insertion adds exactly the one name, at the front or after the old first name |
| App.InsertNameSorted | app.py:23 | Inserting into a sorted list keeps it sorted |
| App.SortNames | app.py:23 | `sorted` yields a sorted permutation of the names |
| App.GetAllPosts | app.py:18-42 | The loop builds the listing of the sorted names: one entry per readable `.txt` file, with its id and first three stripped lines |
| App.ListingFromTxtFiles | app.py:25-41 | Every entry comes from a readable `.txt` name and carries the id derived from that name |
| App.ListingEntries | app.py:23-41 | Conversely, the listing holds exactly one entry per readable `.txt` name, each the entry of that name, in the order of the names (sorted, by GetAllPosts) |
| App.Entry | app.py:25-39 | A name gives an entry exactly when it ends in `.txt` and reading it succeeds; the entry carries the name's post id |
| App.Listing | app.py:25-41 | There are never more entries than names |
| App.StrippedLine | app.py:30-32 | A stripped `readline()` holds no newline and neither starts nor ends with whitespace |
| App.PostId | app.py:27 | The id is never longer than the file name; `stem.txt` with no dot in the stem gives `stem` |
| App.ListedIdLinksBack | app.py:26-64 | A listed `stem.txt` with no `.` or `/` in the stem gets the id `stem`, passes the blog guard and is served from the same file |
| Json.EscapeChar | static/js/script.js:206 | A character stands for itself exactly when it is not a quote, not a backslash and not a control character; escapes start with a backslash and hold no control character |
| Json.Escape | static/js/script.js:206 | An escaped string holds no control character |
| Json.Quote | static/js/script.js:206 | A literal is delimited by quotes and never spans lines |
| Json.UnescapeChar | static/js/script.js:206 | Decoding the escape of one character, followed by any text, gives that character before the decoding of the text |
| Json.UnescapeEscape | static/js/script.js:206 | Decoding undoes escaping for every string |
| Json.StringifyList | static/js/script.js:206 | The text starts with `[`, and it is `[]` exactly for the empty list |
| Json.StringifyLines | static/js/script.js:206 | A non-empty list prints as a `[` line, one indented literal per line with commas between, and a `]` line |
| Json.DecodeStringify | static/js/script.js:206 | Decoding the printed list gives the list back |
| Client.NumberText | static/js/script.js:175 | A number prints as decimal digits of its value, and NaN as `NaN` |
| Client.ChannelValue | static/js/script.js:173-175 | `+("0x"+a+b)` is a number exactly when `a` is a hex digit and `b` is a hex digit or whitespace; the value is the base-16 byte or the single digit, and always below 256 |
| Client.HexToRgbText | static/js/script.js:171-176 | Any length other than 4 or 7 gives `0, 0, 0` |
| Client.ShortForm | static/js/script.js:173-175 | `#xyz` reads as 17x, 17y, 17z |
| Client.ShortWhite | static/js/script.js:173-175 | `#fff` reads as `255, 255, 255` |
| Client.LongForm | static/js/script.js:174-175 | `#rrggbb` of hex digits reads pair by pair as 16 × first digit + second |
| Client.ReadsServerHex | static/js/script.js:171-176 | What the server's rgb_to_hex writes for a byte triple reads back as the same three numbers |
| Client.DoubledDigit | static/js/script.js:173-174 | A short-form digit, doubled, reads as 17 times its value |
| Client.ReadsByte | static/js/script.js:174-175 | Two `02x` digits of a byte read back as that byte |
| Client.StyleLines | static/js/script.js:200-204 | Line i holds colour i, numbered from 1 |
| Client.BlockLines | static/js/script.js:198-205 | A CSS or Tailwind block reads line by line as its header, one line per colour in order, then `}` |
| Client.CodeText | static/js/script.js:197-206 | Every format other than `css` and `tailwind` gives the JSON list, which decodes back to the colours |
| Client.BuildBlock | static/js/script.js:197-205 | The `+=` loop builds exactly that block |
| Client.Swatches | static/js/script.js:61-77 | There is one swatch per colour |
| Client.BuildSwatches | static/js/script.js:61-77 | The grid loop builds exactly one swatch per colour, in order |
| Client.SwatchesAligned | static/js/script.js:61-72 | Swatch i shows colour i and is annotated, with `%` and the percentage, exactly when percentage i exists |
| Client.OneColourGradient | static/js/script.js:93-99 | A one-colour palette's gradient has `undefined` as its second stop |
| Client.BandLabels | static/js/script.js:124-138 | Band i is labelled with colour i, and with percentage i followed by `%` exactly when that exists |
| Client.ViewState.constructor | static/js/script.js:9-11 | The page starts with no colours and no percentages, the `css` format, no panel texts and the upload panel shown |
| Client.ViewState.GenerateCode | static/js/script.js:195-208 | The code text becomes the export text of the current colours in the current format; nothing else changes |
| Client.ViewState.SwitchTab | static/js/script.js:209-214 | The format is always updated; the code is regenerated only when there is a palette, otherwise it is left as it was |
| Client.ViewState.Reset | static/js/script.js:220-227 | Reset shows the upload panel, empties the colours and shows the upload prompt; the format and percentages are kept |
| Client.ViewState.BeginUpload | static/js/script.js:43-45 | Five placeholders and "Generating palette..." are shown; the palette is kept |
| Client.ViewState.PreviewLoaded | static/js/script.js:26-29 | The preview panel replaces the upload panel |
| Client.ViewState.UpdateUI | static/js/script.js:55-102 | The page shows the reply: the palette and percentages (a missing list becomes empty), one swatch per colour, the panels, gradient and code; the format and the panel shown are kept |
| Client.ViewState.ReceiveReply | static/js/script.js:47-53 | A successful reply with data is shown in full (palette, percentages, grid, panels, gradient, code); any other reply changes nothing |
| Client.ViewState.DownloadPaletteImage | static/js/script.js:105-146 | With no colours there is only the "No palette generated yet!" toast. Otherwise it produces `my-palette.png` with one labelled band per colour, plus the download toast |
| Client.TabBeforePalette | static/js/script.js:209-214 | Choosing a tab before any palette changes no text, and the first palette is then shown in that format |

## Left out

- Image decoding, resizing, KMeans clustering and `np.average` (color_engine.py:58-82, 14-17, 126) are outside the model. The cluster centres, pixel labels, average colour and image size are inputs to `Selection.Process`.
- Colour values are exact reals, not IEEE doubles. Rounding at a threshold (a luminance of exactly 128, a distance of exactly 35) is not modelled.
- `calculate_color_distance` is compared squared: `sqrt(d) < t` is `d < t*t` for non-negative `d`, so the comparison itself is exact.
- Selection.ProcessImage: the percentages are not rounded to one decimal (`round(p, 1)`, color_engine.py:124). The result holds the exact shares.
- Selection.SortByScore: the definition is stable, as Python's sort is, but stability is not stated as a proved property.
- Strings.Lower lower-cases only ASCII letters. No non-ASCII character lower-cases into a letter of png, jpg, jpeg or webp, so the extension check gives the same verdict.
- ColorEngine.ParseHexSlice: Python `int(s, 16)` also accepts non-ASCII decimal digits and `_` separators. An `_` cannot form a valid literal in two characters. Non-ASCII digits are not modelled.
- Client.HexNumber trims only trailing whitespace. Its text always starts with `0x`, so leading whitespace cannot occur.
- JavaScript string lengths count UTF-16 code units; the model counts code points. They differ only for characters outside the Basic Multilingual Plane.
- Percentages reach the browser as numbers, and the model holds them as the text JavaScript prints for them. Number-to-string conversion is not modelled.
- The page markup's initial grid and code text are constructor parameters of Client.ViewState.
- Some page behaviour is not modelled:
  - the DOM itself, CSS classes and the popover position;
  - the canvas drawing geometry and the image's pixel data;
  - the toast timers, the clipboard and the modals;
  - drag and drop, and the image-size display.
- Client.ViewState.ReceiveReply applies replies as they arrive. The interleaving of several pending uploads is not modelled, and neither are network errors (only logged by the script).
- File reading is a map to `Missing`, `Unreadable` or the decoded text. Universal-newline translation is assumed to have happened. Any read or decode error is `Unreadable`.
- App.GetAllPosts: creating a missing `posts` directory and printing the skip message are not modelled.
- App.Entry: a file counts as readable only when the whole file decodes. `get_all_posts` reads just the first three lines, so it still lists a file whose undecodable bytes come later, while `blog_post` answers 500 for it. The model skips such a file, so it does not capture that disagreement between the listing and the post page.
- The Flask routing, template rendering, secret key, upload size limit and the robots/sitemap routes are outside the model.
