# Caliburn.Micro manifest visual elements, modelled in Dafny

Caliburn.Micro's WinRT/UWP extensions read the application's own
`AppxManifest.xml`. They take the first `VisualElements` element (in the
schema namespace chosen at build time) and copy its display name,
description, two logo paths and background colour into a `VisualElement`
record. The record's `BackgroundColor` property decodes the colour text
into alpha, red, green and blue bytes every time it is read.

The project has three modules:

- `Wrappers` (`wrappers.dfy`): `Option` and `Result`. A `Result` failure
  stands for a thrown exception.
- `HexColor` (`hex_color.dfy`): `VisualElement.ToColor`. It has a
  specification function `Decode`, an imperative method `ToColor` that uses
  the same locals as the source (`a`, `r`, `g`, `b`, `startPosition`) and is
  proved equal to `Decode`, and the properties of decoding. These cover `#`
  removal, the length error, the channel layout for 8 digits and for other
  lengths, ignored trailing characters, case-insensitivity, and round trips
  through a hexadecimal formatter in both directions.
- `AppManifestHelper` (`app_manifest_helper.dfy`): the projection step of
  `GetManifestVisualElementsAsync`. It works on an already parsed document,
  given as a sequence of elements in document order, each with a qualified
  name and an attribute map. The `#if WINDOWS_UAP` choice becomes the
  parameter `Schema = Uap | Windows81`. The `VisualElement` record is a
  datatype, and its `BackgroundColor` getter calls `HexColor.Decode`.

A hex colour is usually written as 6 or 8 digits after one leading `#`.
The source's own comment at
src/Caliburn.Micro.Extensions.WIN8/AppManifestHelper.cs:92 calls its check
"loose validation". The model follows what the code actually does:

- Every `#` is removed, not only a leading one (`Replace("#", "")`).
- Only lengths below 6 are rejected. A `#`-free length of 7, or of 9 and
  more, is accepted, and only the first six characters are read. Length 8
  is the only case that reads an alpha pair
  (`HexColor.DecodeExampleSevenDigits`).
- `new ArgumentNullException(string)` takes its one argument as the
  *parameter name*, not as the message. The not-found error is therefore
  `ArgumentNull(paramName)`, holding "Could not parse the VisualElements from
  the app manifest.".
- A missing attribute fails through a null dereference (a
  `NullReferenceException`). The model names the first missing attribute in
  the order the object initializer reads them: DisplayName, Description,
  Square150x150Logo, the small logo, BackgroundColor.
- The LINQ query is lazy and `FirstOrDefault` stops at the first match. So
  only the first `VisualElements` element is ever projected, even when it
  fails and a later one would not.

## Model

| member | source | states |
|---|---|---|
| HexColor.RemoveHashes | src/Caliburn.Micro.Extensions.WIN8/AppManifestHelper.cs:90 | no `#` is left in the result; a string without `#` comes back unchanged |
| HexColor.RemoveHashesAppend | src/Caliburn.Micro.Extensions.WIN8/AppManifestHelper.cs:90 | `#` removal distributes over concatenation, so the kept characters stay in their original order |
| HexColor.RemoveHashesCounts | src/Caliburn.Micro.Extensions.WIN8/AppManifestHelper.cs:90 | the result is shorter by exactly the number of `#`, and every other character keeps its count |
| HexColor.ParseHexByte | src/Caliburn.Micro.Extensions.WIN8/AppManifestHelper.cs:108 | a pair parses exactly when both characters are hex digits |
| HexColor.ParseHexByteNibbles | src/Caliburn.Micro.Extensions.WIN8/AppManifestHelper.cs:108 | the parsed byte's high nibble is the first digit's value and its low nibble the second's |
| HexColor.HexDigitValue | src/Caliburn.Micro.Extensions.WIN8/AppManifestHelper.cs:108 | a hex digit's value is below 16 |
| HexColor.ToColor | src/Caliburn.Micro.Extensions.WIN8/AppManifestHelper.cs:88-117 | the imperative decoder (overwritten parameter, defaults of 255, moving start position, early failure on each parse) computes exactly `Decode` |
| HexColor.DecodeIgnoresHashes | src/Caliburn.Micro.Extensions.WIN8/AppManifestHelper.cs:90 | inserting a `#` anywhere in the input does not change the decoded result |
| HexColor.DecodeLeadingHash | src/Caliburn.Micro.Extensions.WIN8/AppManifestHelper.cs:90 | with no other `#`, a leading `#` is skipped and the rest is decoded |
| HexColor.DecodeLengthError | src/Caliburn.Micro.Extensions.WIN8/AppManifestHelper.cs:93-96 | decoding fails with the length error, with its fixed message, exactly when fewer than 6 characters remain after `#` removal |
| HexColor.DecodeDigitsWithAlpha | src/Caliburn.Micro.Extensions.WIN8/AppManifestHelper.cs:106-116 | with exactly 8 digits, decoding succeeds iff all 8 are hex; then a, r, g, b are the pairs at 0, 2, 4, 6; otherwise it fails with a format error |
| HexColor.DecodeDigitsWithoutAlpha | src/Caliburn.Micro.Extensions.WIN8/AppManifestHelper.cs:98-116 | with 6, 7 or 9+ digits, decoding succeeds iff the first 6 are hex; then a = 255 and r, g, b are the pairs at 0, 2, 4; otherwise it fails with a format error |
| HexColor.DecodeIgnoresTail | src/Caliburn.Micro.Extensions.WIN8/AppManifestHelper.cs:103-114 | two non-8-digit inputs that agree on their first 6 `#`-free characters decode identically |
| HexColor.DecodeDigitsByPairs | src/Caliburn.Micro.Extensions.WIN8/AppManifestHelper.cs:93-116 | the result depends only on the length and on what each consumed pair parses to |
| HexColor.ParseHexByteUpper | src/Caliburn.Micro.Extensions.WIN8/AppManifestHelper.cs:108 | upper-casing a pair does not change its parsed byte |
| HexColor.RemoveHashesUpper | src/Caliburn.Micro.Extensions.WIN8/AppManifestHelper.cs:90 | `#` removal commutes with upper-casing |
| HexColor.DecodeDigitsUpper | src/Caliburn.Micro.Extensions.WIN8/AppManifestHelper.cs:106-114 | upper-casing the digits does not change the decoded result |
| HexColor.DecodeCaseInsensitive | src/Caliburn.Micro.Extensions.WIN8/AppManifestHelper.cs:88-117 | upper-casing any input does not change the decoded result |
| HexColor.FormatHexByte | src/Caliburn.Micro.Extensions.WIN8/AppManifestHelper.cs:108 | the two-digit formatting of a byte parses back to that byte |
| HexColor.FormatParseHexByte | src/Caliburn.Micro.Extensions.WIN8/AppManifestHelper.cs:108 | a pair that parses is, up to case, the formatting of its byte |
| HexColor.DecodeFormat6 | src/Caliburn.Micro.Extensions.WIN8/AppManifestHelper.cs:98-116 | `RRGGBB`, with or without `#`, in either case, decodes to (255, r, g, b) |
| HexColor.DecodeFormat8 | src/Caliburn.Micro.Extensions.WIN8/AppManifestHelper.cs:106-116 | `AARRGGBB`, with or without `#`, in either case, decodes to (a, r, g, b) |
| HexColor.FormatDecode6 | src/Caliburn.Micro.Extensions.WIN8/AppManifestHelper.cs:98-116 | any 6 hex digits decode to an opaque colour whose re-formatting equals the digits up to case |
| HexColor.FormatDecode8 | src/Caliburn.Micro.Extensions.WIN8/AppManifestHelper.cs:106-116 | any 8 hex digits decode to a colour whose re-formatting equals the digits up to case |
| HexColor.DecodeExampleOpaque | src/Caliburn.Micro.Extensions.WIN8/AppManifestHelper.cs:98-116 | "FF8040" decodes to (255, 255, 128, 64) |
| HexColor.DecodeExampleAlpha | src/Caliburn.Micro.Extensions.WIN8/AppManifestHelper.cs:106-116 | "#80FF8040" decodes to (128, 255, 128, 64) |
| HexColor.DecodeExampleTooShort | src/Caliburn.Micro.Extensions.WIN8/AppManifestHelper.cs:93-96 | "#123" fails with the length error |
| HexColor.DecodeExampleNotHex | src/Caliburn.Micro.Extensions.WIN8/AppManifestHelper.cs:112 | "ZZFFFF" fails with a format error |
| HexColor.DecodeExampleSevenDigits | src/Caliburn.Micro.Extensions.WIN8/AppManifestHelper.cs:93-114 | "#1234567" is accepted and decodes to (255, 0x12, 0x34, 0x56) |
| HexColor.DecodeExampleInnerHashes | src/Caliburn.Micro.Extensions.WIN8/AppManifestHelper.cs:90 | "12#34#56" decodes as "123456" |
| AppManifestHelper.VisualElement.BackgroundColor | src/Caliburn.Micro.Extensions.WIN8/AppManifestHelper.cs:80-86 | the getter is the decoding of the stored colour text, with the same colour or the same length or format error |
| AppManifestHelper.ReplaceBackslashes | src/Caliburn.Micro.Extensions.WIN8/AppManifestHelper.cs:60-61 | same length, no `\` left, every `\` becomes `/`, every other character is kept in place |
| AppManifestHelper.AppxUri | src/Caliburn.Micro.Extensions.WIN8/AppManifestHelper.cs:60-61 | the locator starts with `ms-appx:///`; after the prefix it has the path's length, no `\`, and the path with each `\` turned into `/` |
| AppManifestHelper.AppxUriExample | src/Caliburn.Micro.Extensions.WIN8/AppManifestHelper.cs:60 | `img\a.png` becomes `ms-appx:///img/a.png` |
| AppManifestHelper.ReplaceBackslashesIdempotent | src/Caliburn.Micro.Extensions.WIN8/AppManifestHelper.cs:60-61 | normalising an already normalised path changes nothing |
| AppManifestHelper.AttributeValue | src/Caliburn.Micro.Extensions.WIN8/AppManifestHelper.cs:58-62 | reading an attribute succeeds exactly when it is present and yields its text; otherwise it is a null dereference naming it |
| AppManifestHelper.SelectSpec | src/Caliburn.Micro.Extensions.WIN8/AppManifestHelper.cs:56-62 | projecting an element succeeds iff all five attributes are present, copying DisplayName, Description and BackgroundColor verbatim and turning both logo paths into locators; on failure the error names the first missing attribute in reading order |
| AppManifestHelper.NotFoundIffNoMatch | src/Caliburn.Micro.Extensions.WIN8/AppManifestHelper.cs:65-66 | the not-found error, carrying "Could not parse the VisualElements from the app manifest.", arises exactly when no element has the schema's VisualElements qualified name |
| AppManifestHelper.FirstMatchDecides | src/Caliburn.Micro.Extensions.WIN8/AppManifestHelper.cs:55-63 | the result is the projection of the first matching element, whatever precedes or follows it |
| AppManifestHelper.LaterElementsIgnored | src/Caliburn.Micro.Extensions.WIN8/AppManifestHelper.cs:53-63 | once a match exists, appending elements never changes the result |
| AppManifestHelper.ProjectionSpec | src/Caliburn.Micro.Extensions.WIN8/AppManifestHelper.cs:50-68 | success iff the first matching element exists and has all five attributes; the record's DisplayName, Description and BackgroundColorAsString are its attribute texts and its logo locators come from its paths |
| AppManifestHelper.BackgroundColorOfManifest | src/Caliburn.Micro.Extensions.WIN8/AppManifestHelper.cs:62 | on a complete first match, the projected record's colour is the decoding of that element's BackgroundColor attribute |

The schema constants (`SmallLogoAttributeName`, `VisualElementsNamespaceName`,
`VisualElementsName`) follow src/Caliburn.Micro.Extensions.WIN8/AppManifestHelper.cs:28-38, and
`Select` models the `select new VisualElement { ... }` initializer at lines 56-62,
and `GetManifestVisualElements` models lines 50-66. These functions compute
values; the lemmas above state their properties (`SelectSpec` for `Select`,
`NotFoundIffNoMatch`, `FirstMatchDecides` and `ProjectionSpec` for
`GetManifestVisualElements`).

## Left out

- Reading `AppxManifest.xml` from the package's install location, the `using` disposal of the stream, and `async`/`await`. These are file I/O and ambient OS context. The model starts from the parsed document.
- XML parsing (`XDocument.Load`) and its errors. The tree walk of `Descendants` is not modelled either: the document is the sequence of its elements in document order.
- `System.Uri` construction and its own validation failures (`UriFormatException`). A locator is a plain string.
- `Windows.UI.Color` and `Color.FromArgb`, a foreign platform type. It is replaced by the datatype `HexColor.Color` of four bytes.
- HexColor.ToColor: lengths and pair positions are counted in Unicode scalar values (Dafny's `char`), while .NET's `Length` and `Substring` count UTF-16 code units. An input with a character above U+FFFF counts that character as 2 in the source and 1 here, so it can take another branch or fail differently (for example `"123456\U{1F600}"` decodes here, but in the source it has length 8 and fails to parse its last pair).
- HexColor.ParseHexByte: does not model `byte.Parse` with `NumberStyles.HexNumber` accepting leading or trailing white space inside a pair (for example `" F"`). The model accepts two hexadecimal digits only, so such an input is a format error here and a success in the source.
- HexColor.ParseHexByte: the source's `FormatException` carries a .NET message that the model does not reproduce. It becomes `FormatError`, without saying which pair failed.
- AppManifestHelper.AttributeValue: the null dereference raises a `NullReferenceException` that names nothing. The model's `NullReference(attribute)` adds the name of the attribute whose value was read.
- Localised `ms-resource:` display names. The source marks them as an unimplemented TODO.
