# Template catalogue of the school timetable client

This project models functions, methods and lemmas of the template catalogue in
`client/src/lib/templateManager.ts`. The catalogue keeps a fixed registry of four built-in
spreadsheet templates. It also keeps a list of custom templates in the browser's key/value
store. The catalogue:

- lists the templates,
- upserts and deletes custom templates by id,
- keeps an "active template" pointer that falls back to `template-1`,
- builds a custom record from an uploaded file's name and data URL,
- resolves a template to its file, either by fetching a built-in's URL or by decoding a
  custom template's data URL locally.

Modules, one per component:

- `Wrappers`: `Option` and `Result`.
- `Registry`: the `Template` record, `BuiltIns` (the `BUILT_IN_TEMPLATES` array), the fallback
  id and the spreadsheet content type.
- `Base64`: what `atob` computes. This is the forgiving base64 decode of the browser: ASCII
  whitespace is removed; one or two trailing `=` are stripped when the length is a multiple
  of four; a leftover length of the form `4k + 1` fails; a character outside the alphabet of
  section 4 of RFC 4648 fails; the leftover low bits are dropped. The canonical padded encoder
  is there as the assumed producer of file data, so that the round trip can be stated.
- `TemplateManager`: the list primitives (`findIndex`, `find`, `filter`) and what the two
  store keys read as. The class `TemplateStore` holds those two keys as fields:
  - `customs` is `custom_templates`. It is absent, the empty string, unparsable text, or a
    parsed list.
  - `activeRaw` is `active_template_id`.

  The store's mutators are methods. Its queries `GetCustomTemplates`, `GetAllTemplates`,
  `GetActiveTemplateId` and `GetActiveTemplate` are functions. They compose `CustomsOf`,
  `Catalog`, `ActiveIdOf` and `Find`, and the lemmas below are stated about those.
- `Export`: `String.prototype.split`, the data URL decode, the branch selection of
  `getTemplateFile`, and `GetTemplateFile` itself. That method copies the character codes
  into an array in an index loop (`ToByteArray`). It is proved equal to the specification function
  `ExportedFile`.

The network, the file read and the clock are parameters:

- `fetch: string -> Response` gives what the server answers for a URL.
- `ReadOutcome` is what the file reader delivered.
- `timestamp` is the value of `Date.now()`.

Two behaviours of the code worth stating:

- `deleteCustomTemplate` removes every entry with the id, not exactly one.
- A fetched built-in file keeps the content type of the response, because `response.blob()`
  carries the server's type. Only a locally decoded file is labelled with the spreadsheet
  content type.

## Model

| member | source | states |
|---|---|---|
| `Registry.BuiltInsShape` | client/src/lib/templateManager.ts:10-39 | four built-ins with ids `template-1`..`template-4` in order, each built-in with a non-empty file URL and no file data; the ids are distinct and the fallback id is `template-1` |
| `Base64.AlphabetBijective` | client/src/lib/templateManager.ts:135 | the base64 alphabet maps digits to characters one-to-one, and digit lookup inverts it |
| `Base64.Encode` | client/src/lib/templateManager.ts:122 | the canonical encoding of `n` bytes has `4 * ceil(n / 3)` characters, a multiple of four, each an alphabet character or the padding `=` (the assumed producer of the data URL the file reader yields) |
| `Base64.RemoveWhitespace` | client/src/lib/templateManager.ts:135 | `atob`'s whitespace removal leaves no ASCII whitespace and never lengthens the text; a single whitespace character is dropped and any other single character kept |
| `Base64.RemoveWhitespaceAppend` | client/src/lib/templateManager.ts:135 | whitespace removal distributes over concatenation, so with the single-character cases every non-whitespace character survives, in order |
| `Base64.Digits` | client/src/lib/templateManager.ts:135 | the text has digits exactly when every character is in the alphabet; the digits are one per character and spell the text back |
| `Base64.ForgivingDecode` | client/src/lib/templateManager.ts:135 | with `d` the text after whitespace removal and padding stripping, decoding succeeds exactly when `|d|` is not of the form `4k + 1` and `d` holds only alphabet characters; it then yields `3 * |d| / 4` bytes, rounded down |
| `Base64.FromSextetsLength` | client/src/lib/templateManager.ts:135 | every four digits give three bytes, and a trailing two or three digits give one or two |
| `Base64.BinaryString` | client/src/lib/templateManager.ts:135 | the binary string has one character per byte, and each character's code is its byte |
| `Base64.Atob` | client/src/lib/templateManager.ts:135 | `atob` succeeds exactly when the text left after whitespace removal and padding stripping has a length not of the form `4k + 1` and only alphabet characters; it then returns `3 * |d| / 4` characters, every character code below 256 |
| `Base64.DigitsOfChars` | client/src/lib/templateManager.ts:135 | digits written as alphabet characters read back as the same digits |
| `Base64.DecodeEncode` | client/src/lib/templateManager.ts:134-135 | round trip: decoding the canonical encoding of any bytes, the empty sequence included, gives back exactly those bytes |
| `Base64.AtobEncode` | client/src/lib/templateManager.ts:135 | `atob` of the encoding of `b` is the binary string of `b` |
| `Base64.RejectsLengthOneModFour` | client/src/lib/templateManager.ts:135 | text whose length after whitespace removal is `4k + 1` is always rejected |
| `Base64.UndefinedRejected` | client/src/lib/templateManager.ts:134-135 | `atob("undefined")`, which is what a missing comma leads to, fails because its nine characters leave a remainder of 1 modulo 4 |
| `Base64.RejectsStrayCharacter` | client/src/lib/templateManager.ts:135 | a character outside the alphabet that survives whitespace removal and padding stripping makes the decode fail |
| `TemplateManager.FindIndex` | client/src/lib/templateManager.ts:66 | `findIndex` on the id returns the first index holding the id, and returns nothing exactly when no entry has it |
| `TemplateManager.Find` | client/src/lib/templateManager.ts:97 | `find` on the id returns nothing exactly when no entry has the id; otherwise it returns the entry at the first index holding it |
| `TemplateManager.FindAppend` | client/src/lib/templateManager.ts:95-98 | searching a concatenation looks in the second part only when the first part has no entry with the id |
| `TemplateManager.Upserted` | client/src/lib/templateManager.ts:64-72 | upsert replaces the first entry with the same id at its index, keeping the length; with no such entry it appends, and the length grows by one |
| `TemplateManager.ReplaceInPlace` | client/src/lib/templateManager.ts:66-69 | replacing in place keeps the length, puts the template at the old index and leaves every other entry as it was |
| `TemplateManager.FindUpserted` | client/src/lib/templateManager.ts:64-72 | after an upsert, a search for the template's id finds that template |
| `TemplateManager.UpsertIdempotent` | client/src/lib/templateManager.ts:64-74 | upserting the same template twice gives the same list as upserting it once |
| `TemplateManager.Without` | client/src/lib/templateManager.ts:79 | the filter keeps exactly the entries whose id differs; it changes nothing when the id is absent |
| `TemplateManager.WithoutAppend` | client/src/lib/templateManager.ts:79 | the filter distributes over concatenation, so the kept entries stay in their original order |
| `TemplateManager.FindWithout` | client/src/lib/templateManager.ts:79 | after the filter, a search for the removed id finds nothing |
| `TemplateManager.CustomsOf` | client/src/lib/templateManager.ts:54-62 | the custom list is the stored list; it reads as empty when the key is missing, the string is empty or the text does not parse |
| `TemplateManager.Catalog` | client/src/lib/templateManager.ts:45-48 | `[...BUILT_IN_TEMPLATES, ...customTemplates]`: the built-ins as a prefix, the custom list as the rest, lengths adding up |
| `TemplateManager.CatalogShape` | client/src/lib/templateManager.ts:45-48 | the full list has `4 + |customs|` entries: the built-ins first in registry order, then the custom list in stored order |
| `TemplateManager.BuiltInIdsOnce` | client/src/lib/templateManager.ts:45-48 | when no custom entry reuses a built-in id, each built-in id occurs exactly once in the full list, at its registry position |
| `TemplateManager.ActiveIdOf` | client/src/lib/templateManager.ts:87-89 | the effective active id is the stored pointer when that is a non-empty string, and `template-1` otherwise; it is never empty |
| `TemplateManager.BuiltInShadows` | client/src/lib/templateManager.ts:95-98 | resolving a built-in id always yields the built-in, even when a custom entry has the same id |
| `TemplateManager.StalePointerFindsNothing` | client/src/lib/templateManager.ts:95-98 | a pointer that names no template resolves to nothing, without an error |
| `TemplateManager.DecimalString` | client/src/lib/templateManager.ts:108 | the printed timestamp is a non-empty string of decimal digits |
| `TemplateManager.DecimalValueOfString` | client/src/lib/templateManager.ts:108 | reading the printed digits back as a decimal number gives the timestamp |
| `TemplateManager.DecimalStringInjective` | client/src/lib/templateManager.ts:108 | different numbers print differently |
| `TemplateManager.CustomId` | client/src/lib/templateManager.ts:108 | the id is `custom-` followed by decimal digits that read back as the timestamp |
| `TemplateManager.CustomIdProperties` | client/src/lib/templateManager.ts:108 | an ingested id is never a built-in id, and two ids are equal exactly when their timestamps are |
| `TemplateManager.RemoveFirstAt` | client/src/lib/templateManager.ts:109 | `replace` with a string pattern removes exactly the first occurrence |
| `TemplateManager.RemoveFirstAbsent` | client/src/lib/templateManager.ts:109 | a pattern that does not occur leaves the name unchanged |
| `TemplateManager.RemoveFirstCases` | client/src/lib/templateManager.ts:109 | both cases of `replace` at once: the first occurrence is cut when there is one, the text is unchanged when there is none |
| `TemplateManager.DisplayName` | client/src/lib/templateManager.ts:109 | the display name is the file name with its first `.xlsx` cut out, or the file name itself when `.xlsx` does not occur in it |
| `TemplateManager.DisplayNameOfUpload` | client/src/pages/TemplateSettings.tsx:41 | for a name ending in `.xlsx` with no earlier occurrence, the display name is the stem; for example, `a.xlsx.xlsx` shows as `a.xlsx`, because the earlier occurrence is the one removed |
| `TemplateManager.IngestedRecord` | client/src/lib/templateManager.ts:107-112 | the ingested record has id `custom-<timestamp>` (never a built-in id), the file name without its first `.xlsx`, `isBuiltIn` false, no file or preview URL, and the data URL as file data |
| `TemplateManager.TemplateStore.constructor` | client/src/lib/templateManager.ts:41-42 | the manager starts from the given contents of the two store keys |
| `TemplateManager.TemplateStore.GetCustomTemplates` | client/src/lib/templateManager.ts:54-62 | the stored list when there is one, and the empty list when the key is missing, blank or unparsable |
| `TemplateManager.TemplateStore.GetAllTemplates` | client/src/lib/templateManager.ts:45-48 | four built-ins first, in registry order, then the custom list in stored order; `4 + |customs|` entries |
| `TemplateManager.TemplateStore.GetActiveTemplateId` | client/src/lib/templateManager.ts:87-89 | the stored pointer when it is a non-empty string, `template-1` when it is missing or empty |
| `TemplateManager.TemplateStore.GetActiveTemplate` | client/src/lib/templateManager.ts:95-98 | nothing exactly when no listed template has the active id; otherwise the template at the first index holding it |
| `TemplateManager.TemplateStore.SaveCustomTemplate` | client/src/lib/templateManager.ts:64-75 | the stored list becomes the upsert of the previously read list, and the pointer is untouched |
| `TemplateManager.TemplateStore.DeleteCustomTemplate` | client/src/lib/templateManager.ts:77-85 | the stored list becomes the filtered list; the pointer becomes `template-1` exactly when the effective active id was the deleted id, and is untouched otherwise |
| `TemplateManager.TemplateStore.SetActiveTemplate` | client/src/lib/templateManager.ts:91-93 | the pointer is stored verbatim and unchecked; afterwards the active id is `id` when `id` is non-empty, and `template-1` otherwise |
| `TemplateManager.TemplateStore.AddCustomTemplateFromFile` | client/src/lib/templateManager.ts:100-124 | a successful read returns the built record and upserts it; a failed read fails and leaves the list as it was; the pointer never changes |
| `TemplateManager.IngestThenActivate` | client/src/lib/templateManager.ts:95-98 | after ingesting a file and selecting its id, the active template is exactly the ingested record, whatever list was stored before |
| `TemplateManager.DeleteThenFind` | client/src/lib/templateManager.ts:77-85 | once a custom id is deleted, it no longer resolves in the full list |
| `Export.Split` | client/src/lib/templateManager.ts:134 | `split` yields at least one piece, and no piece contains the separator |
| `Export.JoinSplit` | client/src/lib/templateManager.ts:134 | joining the pieces back with the separator restores the text |
| `Export.SplitNoSeparator` | client/src/lib/templateManager.ts:134 | text without the separator is a single piece |
| `Export.SplitAtFirst` | client/src/lib/templateManager.ts:134 | the text before the first separator is the first piece; the rest is split on |
| `Export.SplitHead` | client/src/lib/templateManager.ts:134 | the first piece is the longest separator-free prefix, followed by a separator or the end of the text |
| `Export.SecondPiece` | client/src/lib/templateManager.ts:134 | a comma-free text splits into one piece; otherwise the second piece is the comma-free run right after the first comma |
| `Export.Base64Field` | client/src/lib/templateManager.ts:134 | `split(',')[1]` is the text after the first comma up to the next comma or the end; with no comma it is "undefined" |
| `Export.CharCodes` | client/src/lib/templateManager.ts:136-139 | one code per character, each code being that character's code |
| `Export.Uint8Array` | client/src/lib/templateManager.ts:140 | one byte per number; a number in 0..255 is kept as it is |
| `Export.ToByteArray` | client/src/lib/templateManager.ts:136-140 | the index loop fills the array with the character codes, so the byte array is the `Uint8Array` of the codes |
| `Export.DecodeFileData` | client/src/lib/templateManager.ts:134-140 | the bytes of the file data are exactly the base64-decoded bytes of its field after the first comma: going through character codes and `Uint8Array` loses nothing |
| `Export.DataUrlRoundTrip` | client/src/lib/templateManager.ts:134-140 | for a comma-free content type, decoding `data:<mime>;base64,<encoding of b>` gives back exactly `b`, the empty sequence included |
| `Export.MissingCommaFails` | client/src/lib/templateManager.ts:134-135 | file data without a comma always fails to decode, because `atob` receives "undefined" |
| `Export.SelectSource` | client/src/lib/templateManager.ts:127-133 | a built-in's non-empty file URL wins over file data; a fetch is only ever of a built-in's own URL; local decoding uses the template's non-empty file data; nothing is available exactly when neither applies |
| `Export.ExportedFile` | client/src/lib/templateManager.ts:126-146 | "not available" exactly when no branch applies; a fetch failure only for a built-in whose response is not ok; an `atob` failure only on the decode branch; a custom template's file is always labelled as a spreadsheet |
| `Export.GetTemplateFile` | client/src/lib/templateManager.ts:126-146 | the resolved file equals `ExportedFile`: a built-in with a file URL is fetched, failing on a non-ok response; otherwise file data is decoded and labelled as a spreadsheet; otherwise the call fails as not available |
| `Export.CustomNeverFetched` | client/src/lib/templateManager.ts:127-133 | a custom template is never fetched, and its outcome does not depend on the network |
| `Export.NothingToResolve` | client/src/lib/templateManager.ts:145 | a template without file data, and without a usable built-in file URL, always fails as not available |
| `Export.BuiltInResolvesToResource` | client/src/lib/templateManager.ts:127-132 | a built-in resolves to exactly the body its URL serves, or fails when the response is not ok |
| `Export.IngestThenExport` | client/src/lib/templateManager.ts:104-143 | a template ingested from the data URL of some bytes resolves to exactly those bytes, labelled as a spreadsheet |

## Left out

- Network: `fetch`, `Response.ok` and `response.blob()` are modelled only by the `fetch` parameter and the `Response` value it returns. There are no retries, timeouts or network errors beyond a non-ok response.
- File reading: `FileReader`, its `onload`/`onerror` callbacks and the promise wrapper are asynchronous browser APIs. `AddCustomTemplateFromFile` receives the finished read as a `ReadOutcome`. What exactly `readAsDataURL` produces is browser behaviour; `DataUrl` is only the assumed producer for the round-trip lemmas.
- Clock: `Date.now()` is the `timestamp` parameter. Nothing is claimed about id uniqueness across uploads in the same millisecond.
- Serialisation: `JSON.stringify`, `JSON.parse` and `localStorage` themselves are not modelled. The store holds the list directly, with distinct states for a missing key, an empty string and unparsable text.
- Store writes: `localStorage.setItem` is assumed to succeed. In the source a failing write throws: `saveCustomTemplate`, `deleteCustomTemplate` (before it can reset the pointer) and `setActiveTemplate` fail, and because the throw happens inside `onload`, the promise of `addCustomTemplateFromFile` is then never settled. `SaveCustomTemplate`, `DeleteCustomTemplate`, `SetActiveTemplate` and `AddCustomTemplateFromFile` do not model that failure.
- Parsed non-lists: text that parses to something other than a list of templates, such as `null`, is not modelled. The source would return that value unchecked.
- Logging: `console.error` is logging only.
- Output object: the `Blob` object is kept only as its bytes and its content type.
- `getBuiltInTemplates` (lines 50-52) returns the registry array itself. In the model that is the constant `BuiltIns`, and it is not a separate member.
- The upload page, the cell and badge components, and the routing carry no catalogue logic. Only the `.xlsx` suffix filter of the upload page appears here, as an assumption of `DisplayNameOfUpload`.
