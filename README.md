# omspdf: the rules of the PDF server and the upload page, in Dafny

omspdf is a small web tool. An Express server (`build/server.js`) turns Word
files and images into PDFs, and splits, watermarks and password-protects
PDFs. A browser page (`js/app.js`) collects the files to upload. This project
models the logic these two files hold, apart from the libraries they call:

- **`JsText`**: the ECMAScript string built-ins the core uses.
  - `trim`, `includes` and `startsWith`.
  - `split`, `join` and `split(...).pop()`.
  - `lastIndexOf` and ASCII `toLowerCase`.
  - `parseInt` with radix 10 and 16, as in section 19.2.5 of ECMA-262: leading white space, an optional sign, the longest digit prefix, NaN as `None`.
- **`NodePath`**: Node's POSIX `path.basename` and `path.extname`.
- **`Uploads`**: the multer `fileFilter` shared by every upload route, and the PDF check that opens the split, watermark and protect handlers.
- **`OutputNames`**: the names of the PDFs the handlers write: Word output, image output (sanitised, extension stripped), combined output and the `<base>_<tag>_<timestamp>.pdf` names of the PDF tools.
- **`Layout`**: the page-size resolver and the contain / cover / stretch placement of an image on its page, over exact reals.
- **`ImageBatch`**: the image handler's choice between one document and one document per image, its success and failure counters, its zero-success error, its result list and summary message, and the 800 × 600 size given to SVG images.
- **`PageRanges`**: the page-range parser of the split handler, both as a specification function and as the handler's loops.
- **`Watermark`**: the watermark form defaults and the placement grid, both as functions and as the handler's nested loops.
- **`WatermarkColor`**: the `#RRGGBB` colour parse.
- **`TextPdf`**: the greedy 60-character wrap and the line placement of the debug text endpoint.
- **`PdfTools`**: the split, watermark and protect handlers put together: the gate, the form fields, the permission mapping and the output names.
- **`UploadList`**: the upload area of `setupFileUpload` as a class.
  - Its accepted-file list and convert button, with `handleFiles` and the delete button as methods.
  - Also `formatFileSize`.
- **`ClientUrls`**: the URL normalisation of `downloadPdf` and `openPdfPreview`.

Outside the model, as parameters:

- Whether an image converts, and the page count of a document.
- The timestamps (`Date.now`).
- The text width and height the font reports.
- `encodeURIComponent`.

Where the code and its own comments or messages disagree, the model follows
the code. The one case that looks unintended is listed under "## Findings".

## Model

| member | source | states |
|---|---|---|
| JsText.IsSpace | build/server.js:1135 | the ECMAScript white space and line terminators that `trim` and `parseInt` skip (a definition) |
| JsText.TrimStart | build/server.js:1135 | dropping the leading white space leaves a suffix that does not start with white space, and everything dropped is white space |
| JsText.TrimEnd | build/server.js:1135 | dropping the trailing white space leaves a prefix that does not end with white space, and everything dropped is white space |
| JsText.Trim | build/server.js:1135 | the trimmed text occurs in the original and neither starts nor ends with white space |
| JsText.TrimOnlySpace | build/server.js:1135 | the trimmed text occurs in the original with nothing but white space before and after it |
| JsText.TrimNoSpace | build/server.js:1138 | a text without white space is its own trim |
| JsText.ContainsIff | build/server.js:84-87 | `includes` holds exactly when the text occurs at some offset |
| JsText.Split | build/server.js:1134 | `split` gives at least one piece and no piece holds the separator |
| JsText.Join | build/server.js:1134 | `join` with a one-character separator, the inverse of `split` (JoinSplit and SplitJoin prove both directions) |
| JsText.JoinSplit | build/server.js:1134 | joining the pieces of a split with the separator gives the text back |
| JsText.SplitJoin | build/server.js:1134 | splitting a join of separator-free pieces gives the pieces back |
| JsText.LastPart | js/app.js:259 | `split(sep).pop()` is a suffix of the text that holds no separator and is preceded by one whenever it is shorter than the text |
| JsText.LastPartSuffix | js/app.js:259 | the last piece of a split is a suffix of the text that holds no separator; it is the whole text exactly when there is one piece |
| JsText.LastIndexOf | build/server.js:79 | the result is -1 exactly when the character is absent, else an index holding it with none after it |
| JsText.ToLower | build/server.js:79 | lower-casing keeps the length, leaves no upper-case ASCII letter, and changes exactly the upper-case letters |
| JsText.ToLowerIdempotent | build/server.js:79 | lower-casing twice is lower-casing once, and leaves no upper-case ASCII letter |
| JsText.ParseInt | build/server.js:1138 | `parseInt` skips leading white space and reads the rest as ParseSigned does (its properties are the ParseInt lemmas below) |
| JsText.ParseSigned | build/server.js:1147 | an optional sign, for radix 16 an optional "0x", then the longest digit run; no digit at all is NaN (a definition, proved against NatToString below) |
| JsText.DigitRun | build/server.js:1138 | the digit run is the longest prefix of digits of the radix |
| JsText.NatToString | build/server.js:1188 | a number is rendered as a non-empty string of decimal digits |
| JsText.NatToStringValue | build/server.js:1188 | the digits a number is rendered as have that number as their value |
| JsText.ParseIntNatToString | build/server.js:1147 | `parseInt` reads a rendered number back, whatever non-digit text follows it (so "5abc" reads as 5) |
| JsText.ParseIntSkipsSpace | build/server.js:1138 | leading white space does not change what `parseInt` reads |
| JsText.ParseIntNoDigits | build/server.js:1147 | a text with no digit of the radix reads as NaN |
| JsText.TrimStartSpaces | build/server.js:1138 | leading white space is dropped by the trim of the start whatever follows it |
| NodePath.BaseName | build/server.js:1175 | the base name is the suffix after the last '/', and holds no '/' |
| NodePath.ExtName | build/server.js:79 | `path.extname` is the extension of the base name (its properties are ExtOfBase's) |
| NodePath.ExtOfBase | build/server.js:79 | the extension is empty or a suffix of the base name that starts with its only '.', and is never the whole name |
| NodePath.StemName | build/server.js:230 | the stem followed by the extension is the base name; a file with an extension has a non-empty stem |
| NodePath.ExtNameOf | build/server.js:79 | for "stem.ext" the extension is ".ext" and the stem is the base name of "stem" |
| NodePath.BaseNameAppend | build/server.js:1175 | appending a text without '/' appends it to the base name |
| Uploads.UploadExt | build/server.js:79 | the lower-cased extension is empty or starts with '.' |
| Uploads.RejectMessage | build/server.js:92 | the rejection names the extension and lists the Word types when the URL holds "word", the image types otherwise (MergeRejectsPdf proves one case) |
| Uploads.FileFilter | build/server.js:76-94 | a file is accepted exactly on a Word route with .doc/.docx or on an image route with one of six image types; every rejection message starts with the extension |
| Uploads.RouteAccepts | build/server.js:84-89 | each conversion route accepts its own file types, whatever else its URL holds |
| Uploads.UploadExtOf | build/server.js:79 | a name "stem.ext" has the lower-cased ".ext" as its upload extension |
| Uploads.PdfRoutesAreNotConversions | build/server.js:1007 | none of the merge, split, watermark and protect URLs holds a conversion route |
| Uploads.PdfRoutesRejectEverything | build/server.js:1094 | the filter, as written, rejects every file sent to the merge, split, watermark and protect routes |
| Uploads.MergeRejectsPdf | build/server.js:92 | a .pdf sent to the merge route is rejected, and the message lists the image types because the URL does not hold "word" |
| Uploads.ExtensionCaseIgnored | build/server.js:79 | the filter's verdict does not depend on the case of the extension |
| Uploads.DotNameRejected | build/server.js:79 | ".png" has no extension, so the image route rejects it |
| Uploads.FileFilterIntended | build/server.js:76-94 | the corrected filter accepts what the original accepts, plus .pdf files on the PDF tool routes |
| Uploads.IntendedFilterRoutes | build/server.js:1209 | on a PDF tool route the corrected filter takes exactly the .pdf files; on a conversion route it is the original |
| Uploads.PdfGate | build/server.js:1096-1109 | a file passes the PDF check exactly when it is present and its lower-cased extension is ".pdf" |
| Uploads.IntendedFilterFeedsGate | build/server.js:1344 | each file the corrected filter takes on a PDF route passes the handler's check, while the original filter takes none |
| OutputNames.BaseNameWithout | build/server.js:1175 | `basename(p, suffix)` is the base name, with the suffix removed when it ends the base name and is shorter |
| OutputNames.BaseNameWithoutExt | build/server.js:230 | removing the file's own extension from its base name gives its stem |
| OutputNames.WordPdfName | build/server.js:230 | the Word output name is the base name without its extension, then ".pdf" (WordPdfNameReplacesExt proves what it reads back as) |
| OutputNames.WordPdfNameReplacesExt | build/server.js:230 | the Word output name has no directory, has extension ".pdf" and keeps the stem of the upload |
| OutputNames.StemPdf | build/server.js:230 | "stem.pdf" has no directory, has extension ".pdf" and has the stem "stem" |
| OutputNames.Sanitize | build/server.js:660 | sanitising keeps the length, keeps exactly the letters, digits, dots and underscores, and replaces every other character with '_' |
| OutputNames.SanitizeIdempotent | build/server.js:517 | sanitising twice is sanitising once |
| OutputNames.StripFinalExt | build/server.js:661 | the stripped name is a prefix; what goes is a '.' followed by at least one character and no further '.' or '/' |
| OutputNames.StripFinalExtMatches | build/server.js:517 | the name changes exactly when it ends in a '.' followed by one or more characters other than '.' and '/' |
| OutputNames.ImagePdfName | build/server.js:660-661 | the image output name is the sanitised name without its final extension, '_', the timestamp and ".pdf" (ImagePdfNameSafe and ImagePdfNameOf prove its shape) |
| OutputNames.ImagePdfNameSafe | build/server.js:516-517 | the image output name holds only safe characters and has extension ".pdf" |
| OutputNames.ImagePdfNameOf | build/server.js:660-661 | for "stem.ext" the output name is the sanitised stem, '_', the timestamp and ".pdf" |
| OutputNames.LeadingDotStripped | build/server.js:661 | ".png" is stripped to "" although `path.extname` sees no extension in it |
| OutputNames.CombinedPdfName | build/server.js:516 | the combined output name has no directory and ends in ".pdf" |
| OutputNames.ToolPdfName | build/server.js:1175-1176 | the tool output name is the base name without ".pdf", the tag, the timestamp and ".pdf" (ToolPdfNameOf and UpperCasePdfKept prove both cases) |
| OutputNames.ToolPdfNameOf | build/server.js:1175-1176 | for "stem.pdf" the tool output name is "stem_tag_timestamp.pdf" |
| OutputNames.UpperCasePdfKept | build/server.js:1400-1401 | "stem.PDF" passes the PDF check, but the upper-case ".PDF" stays inside the output name |
| Layout.NamedSize | build/server.js:349-363 | the named page size is always A4, Letter or Legal |
| Layout.ResolvePageSize | build/server.js:349-369 | the page has positive sides; it is wider than tall exactly for "landscape"; it is the named size or that size turned |
| Layout.PageSizeTable | build/server.js:352-363 | "letter" gives 612 × 792, "legal" 612 × 1008, and anything else (a missing value and "a4" included) 595 × 842 |
| Layout.LandscapeSwaps | build/server.js:366-369 | "landscape" swaps width and height; any other orientation leaves them |
| Layout.ParseFit | build/server.js:456 | only a non-empty fit other than contain, cover and stretch leaves the placement undefined |
| Layout.Centered | build/server.js:466-467 | the rectangle keeps its size and its centre is the page centre |
| Layout.AspectRatio | build/server.js:454 | the aspect ratio of an image with positive sides is positive |
| Layout.ContainRect | build/server.js:457-468 | the contain rectangle: the page less 40 points on the axis the aspect comparison picks, the other side from the ratio, centred (ContainFits proves it fits) |
| Layout.CoverRect | build/server.js:470-481 | the cover rectangle: one side of the page exactly, the other from the ratio, centred (CoverFills proves it covers) |
| Layout.Place | build/server.js:452-490 | a placement exists exactly when the fit value is known |
| Layout.PlaceNamed | build/server.js:611-648 | contain and cover place by the two rectangles, whichever copy of the switch runs |
| Layout.DefaultFitIsContain | build/server.js:614 | a missing or empty fit acts as contain |
| Layout.StretchFillsPage | build/server.js:483-488 | stretch covers the page exactly, whatever the image |
| Layout.ContainFits | build/server.js:457-468 | contain keeps the aspect ratio, centres the image, keeps it inside the page, and leaves a 40-point margin on the axis its comparison picks |
| Layout.CoverFills | build/server.js:470-481 | cover keeps the aspect ratio, centres the image, and fills one side exactly while the other reaches at least the page edge |
| Layout.ContainOtherAxisMargin | build/server.js:459-465 | a 566 × 802 image on A4 gets a 20-point margin at top and bottom but only 14.5 at the sides |
| ImageBatch.SingleDocument | build/server.js:372-378 | one document is made when "combine" is asked for or exactly one image was sent |
| ImageBatch.Summary | build/server.js:698-700 | the summary counts the successes, and the failures only when there are some |
| ImageBatch.ResultOf | build/server.js:681-689 | a separately converted image's result carries its upload name and its own output name |
| ImageBatch.SeparateResults | build/server.js:552-695 | one result per converted image, in upload order (SeparateResultsInOrder proves it) |
| ImageBatch.ConvertImages | build/server.js:333-710 | the batch reply (BatchOutcome proves when it fails and what it returns) |
| ImageBatch.CountConverted | build/server.js:375-376 | no more images succeed than were sent |
| ImageBatch.CountImages | build/server.js:375-510 | the counters count the images that convert, and together they count every image |
| ImageBatch.ConvertSeparately | build/server.js:552-695 | the separate-document loop gives one result per converted image, in order, and counters that add up to the batch |
| ImageBatch.HandleImages | build/server.js:333-710 | the handler's reply is the batch function's reply |
| ImageBatch.SeparateResultsCount | build/server.js:681-689 | the separate path gives one result per converted image |
| ImageBatch.SeparateResultsFrom | build/server.js:681-689 | every separate result is named after an uploaded image and its own timestamp |
| ImageBatch.ConvertedPositionsExact | build/server.js:552-695 | the positions of the converting images ascend strictly and are exactly those of the images that convert |
| ImageBatch.SeparateResultsInOrder | build/server.js:552-695 | the j-th separate result is the result of the j-th converting image, so each converting image has exactly one result, in upload order, and no other image has one |
| ImageBatch.BatchOutcome | build/server.js:378-512 | the batch fails exactly when nothing was sent, or when one document was asked for and no image converted; otherwise it returns one result, or one per converted image |
| ImageBatch.NothingConvertedSeparately | build/server.js:698-700 | with two or more images sent separately and none converting, the reply is still a success with no results |
| ImageBatch.CombinedResult | build/server.js:516-547 | a combined batch returns one result named after the image count and the timestamp |
| ImageBatch.SvgOnA4 | build/server.js:444-446 | an SVG is placed as 800 × 600: on portrait A4 it fills the width less 40 points |
| PageRanges.ReadPart | build/server.js:1135-1151 | a part is trimmed, read as a range when it holds '-' (both sides trimmed and read with `parseInt`), and as a page otherwise |
| PageRanges.ReadParts | build/server.js:1134 | there is one part per comma-separated piece |
| PageRanges.TokenValid | build/server.js:1139-1151 | a page is valid when it is a number within 1..totalPages; a range when both ends are numbers, start at least 1, end at most totalPages and start at most end |
| PageRanges.ErrorMessage | build/server.js:1140-1150 | the error names the trimmed part, as a range or as a page number |
| PageRanges.TokenPages | build/server.js:1139-1153 | the pages of a valid token lie within 1..totalPages |
| PageRanges.Interval | build/server.js:1142-1144 | a range has one page per number from its start to its end, the i-th being start + i |
| PageRanges.IntervalPages | build/server.js:1142-1144 | a range holds exactly the pages from its start to its end, each once, strictly ascending |
| PageRanges.InsertSorted | build/server.js:1162 | inserting into an ascending list keeps it ascending and adds the element |
| PageRanges.SortedUnique | build/server.js:1162 | deduplicating and sorting gives a strictly ascending list with the same elements |
| PageRanges.TokenPagesNames | build/server.js:1137-1153 | a valid token gives exactly the pages it names |
| PageRanges.CollectPages | build/server.js:1134-1158 | the parts' pages in order, or the first bad part's error (CollectOk and CollectErr prove both cases) |
| PageRanges.CollectOk | build/server.js:1134-1158 | if collecting succeeds, every part is valid, every page is in range, and the pages are exactly those the parts name |
| PageRanges.CollectErr | build/server.js:1139-1150 | collecting fails exactly when some part is invalid, and its message names the first invalid part |
| PageRanges.ParsePageRanges | build/server.js:1112-1162 | the split handler's page list, or its error (ParseOk and ParseErr prove both cases) |
| PageRanges.ParseOk | build/server.js:1132-1162 | a successful parse is strictly ascending, within 1..totalPages, and holds exactly the pages the parts name |
| PageRanges.ParseErr | build/server.js:1112-1158 | the parse fails exactly for empty input or an invalid part; the message names the first invalid part, or says that ranges must be given |
| PageRanges.IncreasingUnique | build/server.js:1162 | two strictly ascending lists with the same elements are equal |
| PageRanges.ReadRenderedPage | build/server.js:1147 | a rendered number reads back as a single page |
| PageRanges.ReadRenderedRange | build/server.js:1138 | "a-b" with rendered numbers reads back as the range a..b |
| PageRanges.ReadPlainRange | build/server.js:1138 | a range token without spaces reads its two sides with `parseInt` |
| PageRanges.PageRoundTrip | build/server.js:1145-1152 | a rendered page within the document parses to just that page |
| PageRanges.RangeRoundTrip | build/server.js:1137-1144 | a rendered range within the document parses to all of its pages |
| PageRanges.ReversedRangeFails | build/server.js:1139-1141 | a range whose start exceeds its end fails with a message naming it |
| PageRanges.PushRange | build/server.js:1142-1144 | the inner loop appends the range's pages to the list |
| PageRanges.PushToken | build/server.js:1136-1153 | one step of the forEach appends the token's pages to the list |
| PageRanges.CollectStep | build/server.js:1134 | after a valid part, the rest of the parse starts from the list with that part's pages added |
| PageRanges.ExtractPageNumbers | build/server.js:1112-1162 | the handler's loops compute exactly the parser function's result, error included |
| Watermark.ReadOptions | build/server.js:1227-1233 | each field takes its default when missing or empty; diagonal and repeat hold only for "true" (DefaultOptions and FontSizePrefix prove the cases) |
| Watermark.DefaultOptions | build/server.js:1227-1233 | an empty form gives "CONFIDENTIAL", red, size 50, neither diagonal nor repeated |
| Watermark.FontSizePrefix | build/server.js:1231 | the font size reads the leading number of its field, whatever unit follows |
| Watermark.CellDraw | build/server.js:1284-1295 | the draw of one grid cell (CellCentre proves where it is centred) |
| Watermark.SingleDraw | build/server.js:1297-1306 | the draw of the single watermark (SinglePlacement proves it is centred) |
| Watermark.PageDraws | build/server.js:1279-1306 | the draws on one page (RepeatedGrid, SinglePlacement and GridInsidePage prove their layout) |
| Watermark.CellCentre | build/server.js:1284-1295 | the cell at row r and column c is centred at ((2c+1)·w/4, (2r+1)·h/6), turned 45° exactly when diagonal |
| Watermark.RepeatedGrid | build/server.js:1279-1296 | repeat gives six placements in row-major order, each the cell of its row and column |
| Watermark.SinglePlacement | build/server.js:1297-1306 | without repeat there is one placement, centred on the page |
| Watermark.GridInsidePage | build/server.js:1279-1296 | every grid centre lies inside the page, and the grid is symmetric about the page centre |
| Watermark.DiagonalShiftsAnchor | build/server.js:1289-1293 | diagonal moves every anchor by half the text size and turns it 45° |
| Watermark.LoopCell | build/server.js:1286-1293 | the draw made at row r, column c of the loops is that cell's placement |
| Watermark.DrawPage | build/server.js:1279-1306 | the nested loops draw exactly the page's placements |
| Watermark.DrawDocument | build/server.js:1258-1307 | every page gets the same placements, computed from its own size |
| WatermarkColor.Substring | build/server.js:1250-1252 | `substring` is the slice when it fits, and empty past the end |
| WatermarkColor.ParseTwoHex | build/server.js:1250 | two hex digits read as their value |
| WatermarkColor.Channel | build/server.js:1250-1252 | a channel is `parseInt(text, 16) / 255`, NaN staying NaN (ChannelOf and TwoHexChannel prove it) |
| WatermarkColor.TwoHexChannel | build/server.js:1250-1252 | a channel of two hex digits is its value over 255, between 0 and 1 |
| WatermarkColor.ChannelOf | build/server.js:1250-1252 | a channel is whatever `parseInt` reads, over 255 |
| WatermarkColor.ParseColor | build/server.js:1249-1253 | the colour is three channels read from characters 1-2, 3-4 and 5-6 (ColorRoundTrip proves it inverts "#RRGGBB") |
| WatermarkColor.ParseColorSlices | build/server.js:1249-1253 | the three channels come from characters 1-2, 3-4 and 5-6 |
| WatermarkColor.WellFormedChannels | build/server.js:1249-1253 | a well-formed "#RRGGBB" gives three channels between 0 and 1 |
| WatermarkColor.HexDigit | build/server.js:1250 | the digit written for a value reads back as that value |
| WatermarkColor.Hex2 | build/server.js:1250 | the two digits written for a byte read back as that byte |
| WatermarkColor.ColorRoundTrip | build/server.js:1249-1253 | any colour written as "#RRGGBB" parses back to its three channels over 255 |
| WatermarkColor.DefaultColorIsRed | build/server.js:1228 | the default "#FF0000" is pure red |
| WatermarkColor.SignedChannel | build/server.js:1250 | "#-F0000" gives a negative red channel, because `parseInt` accepts a sign |
| TextPdf.TextContent | build/server.js:949 | the text is the field when it is non-empty, "Test PDF document" otherwise |
| TextPdf.WrapFrom | build/server.js:963-974 | the lines the wrap loop makes from the words still to come (WrapFromFits, WrapFromGreedy and ConcatWrap prove its properties) |
| TextPdf.Wrap | build/server.js:959-974 | the lines of the text (WrapShape, WrapGreedy and WrapRoundTrip prove its properties) |
| TextPdf.WrapLines | build/server.js:959-974 | the wrap loop computes the wrap function |
| TextPdf.ConcatWrap | build/server.js:963-974 | the lines, put together, are the starting line followed by every word with its space |
| TextPdf.SpacedJoin | build/server.js:959 | the words each with a space are the text joined back, plus one space |
| TextPdf.WrapRoundTrip | build/server.js:959-974 | the lines put together give the text back, plus one trailing space |
| TextPdf.WrapFromFits | build/server.js:964-969 | every line holds one word or stays within 60 characters before its last word's space |
| TextPdf.NoEmptyLine | build/server.js:964-974 | once the line under construction is non-empty, no empty line is made |
| TextPdf.WrapShape | build/server.js:959-974 | every line fits, and the only empty line is the first one, made when the first word is longer than 60 characters |
| TextPdf.FirstWord | build/server.js:959 | the first word of a line is its longest prefix without a space |
| TextPdf.WrapFromGreedy | build/server.js:964-969 | from any line under construction, each line but the last, with the next line's first word added, is longer than 60 characters |
| TextPdf.WrapGreedy | build/server.js:964-969 | the wrap is greedy: a line is closed only when the word that opens the next line would take it past 60 characters |
| TextPdf.DrawLines | build/server.js:977-984 | line i is drawn at x = 50 and y = 750 - 20i |
| TextPdf.LinesLeaveThePage | build/server.js:980 | lines go down the page, and only the first 38 start on it |
| TextPdf.TextPdfName | build/server.js:950 | the output name starts with "text_" and ends with ".pdf" |
| PdfTools.SplitPdf | build/server.js:1094-1188 | the split handler's outcome (SplitOutcome and SplitOk prove it) |
| PdfTools.SplitOutcome | build/server.js:1094-1162 | the split succeeds exactly when a PDF arrived and the ranges parse; the PDF check's message comes first, then the missing-ranges one |
| PdfTools.SplitOk | build/server.js:1162-1188 | a successful split copies distinct ascending pages of the document, and its message counts them |
| PdfTools.CopyIndices | build/server.js:1167-1171 | each 1-based page becomes the 0-based index copied, in order |
| PdfTools.SplitCopies | build/server.js:1167-1171 | the indices copied are distinct, ascending and within the document |
| PdfTools.WatermarkPdf | build/server.js:1209-1339 | the watermark handler's outcome, including the catch block's reply when drawing fails (WatermarkOutcome proves it) |
| PdfTools.WatermarkOutcome | build/server.js:1209-1339 | the watermark fails at the PDF check with its message, or when drawing fails with "Error adding watermark to PDF", and succeeds otherwise; on success the output is named after the upload and drawn with the options read from the form |
| PdfTools.WatermarkEmptyForm | build/server.js:1227-1253 | with an empty form and no drawing failure, a PDF is watermarked in exact red with "CONFIDENTIAL" |
| PdfTools.ProtectPdf | build/server.js:1344-1401 | the protect handler's outcome (ProtectOutcome proves it) |
| PdfTools.ReadPermissions | build/server.js:1387-1395 | five permissions need the text "true"; form filling and accessibility hold unless the text is "false" |
| PdfTools.ProtectOutcome | build/server.js:1344-1371 | protection succeeds exactly when a PDF and a non-empty user password arrive; the owner password falls back to the user password |
| PdfTools.CheckboxRoundTrip | build/server.js:1387-1395 | permissions sent as "true"/"false" are read back unchanged |
| PdfTools.DefaultPermissions | build/server.js:1387-1395 | missing fields grant only form filling and accessibility |
| PdfTools.SplitOutputName | build/server.js:1175-1176 | a split of "stem.pdf" writes "stem_extracted_timestamp.pdf" |
| PdfTools.WatermarkOutputName | build/server.js:1311-1312 | "stem.pdf" is watermarked, unless drawing fails, into "stem_watermarked_timestamp.pdf" |
| PdfTools.ProtectOutputName | build/server.js:1400-1401 | "stem.pdf" is protected, given a user password, into "stem_protected_timestamp.pdf" |
| UploadList.ClientExt | js/app.js:259 | the page's extension is '.' and the lower-cased text after the last dot (UndottedName and DottedName prove both cases) |
| UploadList.ExtensionValid | js/app.js:258-261 | the files with an allowed extension, in order (ExtensionValidIff proves it) |
| UploadList.SizeValid | js/app.js:270-278 | the files within the limit, in order (SizeValidIff proves it) |
| UploadList.SizeAlert | js/app.js:273 | the alert names the file and the limit in MB |
| UploadList.CountAlert | js/app.js:265 | the alert names the file limit |
| UploadList.FormatFileSize | js/app.js:872-880 | the size in bytes below 1 KB, in MB from 1 MB, in KB between (FileSizeUnits proves it) |
| UploadList.ExtensionValidIff | js/app.js:258-261 | the extension filter keeps exactly the files whose extension is allowed |
| UploadList.SizeValidIff | js/app.js:270-278 | the size filter keeps exactly the files within the limit |
| UploadList.SizeAlertsCount | js/app.js:270-278 | each file is either kept or alerted about, never both |
| UploadList.FiltersKeep | js/app.js:258-278 | every file passing both filters has an allowed extension and is within the limit |
| UploadList.FilterExtensions | js/app.js:258-261 | the filter loop computes the extension-valid files in order |
| UploadList.FilterSizes | js/app.js:270-278 | the filter loop keeps the files within the limit and alerts once per dropped file, in order |
| UploadList.UploadArea.constructor | js/app.js:253 | an upload area starts with no files; its button starts disabled, as the page markup has it |
| UploadList.UploadArea.HandleFiles | js/app.js:256-291 | too many extension-valid files (oversized ones included) refuse the batch and change nothing; otherwise the files within the limit are appended in order, one alert per oversized file, and the button is disabled exactly when the list is empty |
| UploadList.UploadArea.Delete | js/app.js:333-342 | delete removes exactly the clicked entry, keeps the others in order, and disables the button exactly when the list is empty |
| UploadList.UndottedName | js/app.js:259 | a name without a dot has the whole lower-cased name as its extension |
| UploadList.DottedName | js/app.js:259 | a name "stem.ext" has the lower-cased ".ext" as its extension |
| UploadList.BareNameAcceptedThenRejected | js/app.js:259-260 | a file named "png" is accepted by the image area but rejected by the server |
| UploadList.ClientAgreesWithServer | js/app.js:58-66 | every "stem.ext" file with a non-empty stem and no '/' that either upload area takes is taken by the matching server route |
| UploadList.FileSizeUnits | js/app.js:872-880 | the value times its unit is the size; the unit is bytes below 1024, MB from 1024·1024, and KB between |
| ClientUrls.NormalizeUrl | js/app.js:809-820 | the normalised URL is always under "/output/" or "/api/download/" |
| ClientUrls.ServedUnchanged | js/app.js:816-820 | a URL already under either prefix is left unchanged |
| ClientUrls.NormalizeIdempotent | js/app.js:809-820 | normalising twice is normalising once |
| ClientUrls.RelativeOutputPath | js/app.js:811-814 | a relative "output/..." path becomes a path served directly under "/output/" |
| ClientUrls.AbsoluteUrlDownloaded | js/app.js:811-820 | an "http" URL becomes a download request for the encoded URL |
| ClientUrls.PreviewUrl | js/app.js:702-719 | the preview URL is always under one of the two prefixes |
| ClientUrls.DownloadUrl | js/app.js:784-820 | the download URL is always under one of the two prefixes |
| ClientUrls.TestOutputFixed | js/app.js:789-791 | any URL that mentions test_output.pdf goes to "/output/test_output.pdf", in both preview and download |
| ClientUrls.PreviewDownloadAgree | js/app.js:774-779 | the preview's download button reaches the URL the preview shows |

## Left out

- Express routing, middleware, static serving, the 404 and error handlers, and multer's storage and size limits: web plumbing. Multer's 20 MB limit is not modelled.
- The merge handler (build/server.js:1007-1090) is left out beyond its upload filter, whose verdict on every file is proved. The filter rejects every file, so the handler's own logic is never reached.
- The Word handler is modelled only through its output name. LibreOffice detection and its `exec` are subprocess I/O.
- The file system: reads, writes, `chmod`, directory creation, the hourly `cleanupTempFiles` timer and the download endpoints' file lookup. `build.js` only copies files and is not part of this model.
- These calls are left out. Whether an image converts, the page count and the text size the font reports are parameters instead:
  - pdf-lib's `embedPng`, `addPage`, `copyPages`, `drawText`, `drawImage`, `rgb`, `encrypt` and `save`;
  - sharp's decoding, resizing and quality settings;
  - `widthOfTextAtSize` and `heightAtSize`.
- `uuidv4` ids are left out. `Date.now` timestamps are natural-number parameters.
- `JSON.parse` of the conversion options: the parsed values are the input.
- Floating point is left out:
  - Placement, colour channels and file sizes are exact reals, so IEEE rounding is not modelled.
  - `formatFileSize`'s `toFixed(1)` is not modelled; `UploadList.FormatFileSize` returns the unrounded value and its unit.
  - `parseInt` reads unbounded integers, so very long digit runs are not rounded to a double.
- `parseFloat` of the watermark opacity and the opacity itself are left out: they only reach the drawing call.
- `encodeURIComponent` is a function parameter of `ClientUrls`. Only the prefix rules depend on it.
- The DOM (file list rendering, icons, toasts, modals, tabs, drag and drop), `fetch` calls and the pdf.js preview are UI and network work.
- Strings are sequences of Unicode characters, where JavaScript counts UTF-16 code units. A character outside the Basic Multilingual Plane is one element here and two in JavaScript. Two members differ for such text:
- OutputNames.Sanitize: replaces a character outside the Basic Multilingual Plane with one '_', where JavaScript's regular expression replaces each of its two code units, so "😀.png" becomes "_.png" here and "__.png" in JavaScript.
- TextPdf.WrapFrom: counts a character outside the Basic Multilingual Plane as one towards the 60-character limit, where JavaScript counts two, so such text can wrap later here than in JavaScript (thirty-one "😀" and " x" fit on one line here but not in JavaScript).
- UploadList.UploadArea.constructor: the disabled button at the start comes from the page's HTML, which is not part of this model; the constructor takes it as given and Valid relies on it.
- ClientUrls.DownloadUrl: when the HEAD check of the download fails, `downloadPdf` falls back to `/output/<pdfName>` (js/app.js:850-866). That fallback depends on a network response and is not modelled.
- PdfTools.WatermarkPdf: whether drawing fails is a parameter, because the failures happen inside the PDF library. Two of them follow from the form: `rgb` rejects a channel outside 0..1, such as the red of "#-F0000" (WatermarkColor.SignedChannel), and Helvetica cannot measure text outside its encoding, such as "机密". Both happen only for a document with at least one page.
- PdfTools.SplitPdf and PdfTools.ProtectPdf: the catch block's 500 reply when the PDF library throws, for example on a damaged PDF, is not modelled.
- `openPdfPreview` adds a new click listener to the same download button each time a preview opens (js/app.js:778) and never removes one, so after several previews one click downloads each earlier preview as well. DOM listeners are not modelled; ClientUrls.PreviewDownloadAgree is about the listener of the current preview.
- JsText.ToLower: lower-cases ASCII letters only. No character outside ASCII lower-cases into one of the extensions the filters list.
- NodePath.BaseName: POSIX rules only. Trailing slashes are not stripped; uploaded file names do not end in '/'.
- Uploads.MergeRejectsPdf: states the listed types as the join of the image type list with ", ", not as the literal text.
- ImageBatch.HandleImages: whether each image converts is decided up front. The per-image errors and their logging are left out.
- PdfTools.SplitCopies: proves what is copied, not the copy itself, which belongs to pdf-lib.

## Findings

| source | as written | input that shows it | evidently intended | confidence | as-written member | corrected member |
|---|---|---|---|---|---|---|
| build/server.js:76-94 | the upload filter accepts only Word files on the Word route and images on the image route. The merge, split, watermark and protect routes (build/server.js:1007, 1094, 1209, 1344) use the same filter, so it rejects every file they are sent. | "report.pdf" sent to "/api/merge-pdfs" is rejected with "Invalid file type: .pdf. Allowed types for this conversion: .jpg, ..." | each PDF tool route accepts .pdf files, which its handler then checks again | high, not executed | Uploads.PdfRoutesRejectEverything | Uploads.FileFilterIntended |
