# PII de-identification service — a Dafny model

This project models the server side of a document de-identification
service for Indian identity documents. It also models the one client
component that turns the stored stage into a progress display. A user
uploads a PDF or an image. The server stores a document record and then
runs a background pipeline:

1. Extract the text.
2. Find Aadhaar numbers, PAN numbers and Indian phone numbers, and mask each one.
3. Draw black boxes and a watermark into a redacted copy.
4. Publish the copy's path and the detection result on the record.

Clients poll the record and can fetch the original or the redacted file,
or delete the document.

The modules follow the program's structure:

- `Wrappers`: `Option`/`Result`, and the `Or` that tries regex alternatives in order.
- `Schema`: the record, the detection result, the six stages and the partial-update (`Patch`) semantics of an object spread.
- `Patterns`: hand-written matchers for the three regular expressions, following JavaScript's backtracking order. Each is proved sound and complete against a declarative description of its pattern's language.
- `Scanner`: the global-flag `exec` loop as a leftmost, non-overlapping scan. It is proved equal to its declarative characterisation.
- `Masking`: the three maskers.
- `Detector`: `detectSensitiveData`, its loops as methods proved against the specification function `Detect`, and the photo-region heuristic.
- `Sanitize`: `sanitizeFilename`, `path.basename` and the redacted-path name.
- `Layout`: the rectangle layout of every PDF page and the clamped image overlays.
- `Renderer`: `createRedactedDocument` with the file system and the original file's content as inputs.
- `Storage`: `MemStorage`, a class with a `map` of records, a logical clock for `new Date()` and a ghost log of every write.
- `Routes`: the upload filter and route, the `processDocumentAsync` stage machine, the file route and the delete route.
- `Progress`: `getStageStatus`, the status header and the `onComplete` trigger of the progress panel.

Three behaviours of the code are reproduced as written:

- **Phone numbers after a space.** The phone pattern begins with `\b`, which cannot sit between a space and `+`. So in `"Phone: +91 9876543210"` the match is `"91 9876543210"`. The match does not contain `+91`, so the mask is `"XXXXX 3210"` (`Detector.PhoneAfterSpace`). A reader might expect the `+91` prefix to be kept in the mask. The `+91 ` prefix survives only when the match itself contains `+91`, which happens only when `+` follows a word character (`Detector.PlusInPhoneMatch`).
- **The type part of the header's file name is not sanitised.** The file route builds `inline; filename="<type>_<name>"`. The name is sanitised, but the `:type` route parameter is copied as it is (`Routes.DispositionCopiesKind`). So a type holding a quote ends the quoted value early.
- **PDFs always fail.** The OCR service throws for every PDF, so every PDF run ends in `error` (`Routes.PdfRunFails`).

## Model

| member | source | states |
|---|---|---|
| `Schema.StageNames` | shared/schema.ts:35-40 | The six stage names are pairwise distinct, and none of them is the column default `pending`. |
| `Schema.ApplyPatch` | server/storage.ts:44-48 | Updating a record with a partial object sets `updatedAt` to the update time. Status, redacted path and detection result are kept when the patch does not supply them. |
| `Schema.PatchesCompose` | server/storage.ts:44-48 | Two successive updates equal one update with the merged patch, where later fields win. |
| `Schema.EmptyPatchOnlyTouches` | server/storage.ts:44-48 | An empty update changes only `updatedAt`. |
| `Schema.PatchIdempotent` | server/storage.ts:44-48 | Applying the same patch twice equals applying it once at the later time. |
| `Schema.StatusPatch` | server/storage.ts:60 | A stage update supplies only `processingStatus`, set to the stage's name. |
| `Storage.NewRecord` | server/storage.ts:20-31 | The created record has the given id, is stamped `createdAt == updatedAt == now`, never has an empty status and never an empty redacted path. |
| `Storage.NewRecordDefaults` | server/storage.ts:20-31 | A created record has the given id and `createdAt == updatedAt`. A missing or empty redactedPath becomes null. A missing or empty status becomes `pending`. All other fields come from the input. |
| `Storage.MemStorage.constructor` | server/storage.ts:16-18 | The store starts empty. |
| `Storage.MemStorage.Now` | server/storage.ts:22 | Each call to `new Date()` yields a later time and touches no record. |
| `Storage.MemStorage.CreateDocument` | server/storage.ts:20-34 | Stores the new record under the fresh id. Returns that stored record. Every other record is unchanged. |
| `Storage.MemStorage.GetDocument` | server/storage.ts:36-38 | Returns the stored record exactly when the id is present. Changes nothing. |
| `Storage.MemStorage.UpdateDocument` | server/storage.ts:40-51 | An unknown id gives undefined and changes nothing. A known id gives the patched record with a fresh `updatedAt`, which replaces only that entry. |
| `Storage.MemStorage.DeleteDocument` | server/storage.ts:53-55 | Returns true exactly when the id was present. Afterwards exactly that id is gone. |
| `Storage.MemStorage.UpdateProcessingStatus` | server/storage.ts:57-62 | Only `status.stage` is stored. Progress, message and error are dropped. An unknown id is a no-op. |
| `Storage.MemStorage.UpdateDetectedData` | server/storage.ts:64-69 | Only `detectedSensitiveData` and `updatedAt` change. An unknown id is a no-op. |
| `Storage.DetectedPatch` | server/storage.ts:67 | The update supplies only the detection result. |
| `Storage.StatusUpdateOnlyStage` | server/storage.ts:57-62 | A stage update changes only the stage name and the timestamp. |
| `Storage.DetectedUpdateOnlyData` | server/storage.ts:64-69 | A detection update changes only the detection result and the timestamp. |
| `Patterns.AadhaarAt` | server/services/redaction-service.ts:19 | An Aadhaar match is 12 to 14 characters long and lies inside the text. |
| `Patterns.AadhaarAtIff` | server/services/redaction-service.ts:19 | The Aadhaar matcher ends at e exactly when `\d{4}[\s-]?\d{4}[\s-]?\d{4}` spans p..e with a word boundary at both ends. |
| `Patterns.AadhaarAtSound` | server/services/redaction-service.ts:19 | Every Aadhaar match is a word of the pattern between word boundaries. |
| `Patterns.AadhaarAtComplete` | server/services/redaction-service.ts:19 | Every word of the pattern between word boundaries is found at its start, with the same end. |
| `Patterns.AadhaarLayoutIff` | server/services/redaction-service.ts:19 | Digit groups and separators placed in the text are exactly the pattern's layout of the slice. |
| `Patterns.PanAt` | server/services/redaction-service.ts:28 | A PAN match is exactly 10 characters long. |
| `Patterns.FiveFive` | server/services/redaction-service.ts:36 | The `\d{5}[\s-]?\d{5}` part ends 10 or 11 characters later. |
| `Patterns.LocalNumber` | server/services/redaction-service.ts:36 | The local-number alternative ends 10 to 12 characters later. |
| `Patterns.AfterCode` | server/services/redaction-service.ts:36 | The optional separator after the country code plus the local number ends 10 to 13 characters later. |
| `Patterns.PhoneAt` | server/services/redaction-service.ts:36 | A phone match is 10 to 16 characters long and lies inside the text. |
| `Patterns.LocalAtIff` | server/services/redaction-service.ts:36 | The local-number layout placed in the text is exactly the language's layout of the slice. |
| `Patterns.CodeAtIff` | server/services/redaction-service.ts:36 | A country code placed in the text is exactly a word of `(\+?91[\s-]?)?`. |
| `Patterns.FiveFiveSound` | server/services/redaction-service.ts:36 | A 5-5 match is five digits, an optional separator and five digits, followed by a word boundary. |
| `Patterns.LocalNumberSound` | server/services/redaction-service.ts:36 | A local-number match has the layout of the local-number language. |
| `Patterns.LocalNumberComplete` | server/services/redaction-service.ts:36 | A local-number layout followed by a word boundary is matched. |
| `Patterns.PhoneAtParts` | server/services/redaction-service.ts:36 | A phone match splits into a country code and a local number, with a word boundary at both ends. |
| `Patterns.PartsArePhoneText` | server/services/redaction-service.ts:36 | A country code followed by a local number is a word of the phone pattern. |
| `Patterns.PhoneTextParts` | server/services/redaction-service.ts:36 | Every word of the phone pattern splits into a country code and a local number. |
| `Patterns.PhoneAtSound` | server/services/redaction-service.ts:36 | Every phone match is a word of the pattern between word boundaries. |
| `Patterns.PhoneAtComplete` | server/services/redaction-service.ts:36 | Wherever a word of the pattern sits between word boundaries, the matcher finds exactly that word: any two readings of the text as a country code and a local number end at the same place. |
| `Patterns.LocalShape` | server/services/redaction-service.ts:36 | In the local number, each optional `[\s-]` is taken exactly when no digit stands at its place. |
| `Patterns.LocalLayoutUnique` | server/services/redaction-service.ts:36 | At a fixed start, the text determines which optional separators the local number takes. |
| `Patterns.CodeChars` | server/services/redaction-service.ts:36 | The optional `\+?91[\s-]?` prefix has length 0, 2, 3 or 4, and each length fixes the characters it covers. |
| `Patterns.PhoneSplitUnique` | server/services/redaction-service.ts:36 | Two readings of the text at one start as a phone word between word boundaries end at the same place. |
| `Patterns.PlusOnlyAfterWordChar` | server/services/redaction-service.ts:36 | A `+` inside a phone match is its first character and follows a word character. So a `+` after a space is never inside a match. |
| `Patterns.PlusOnlyInCode` | server/services/redaction-service.ts:36 | In a country code plus local number, the only place a `+` can be is the start. |
| `Scanner.MatchAt` | server/services/redaction-service.ts:19-41 | A match of any of the three patterns is non-empty and inside the text. |
| `Scanner.MatchAtSound` | server/services/redaction-service.ts:19-41 | A match is a word of its category's language between word boundaries. |
| `Scanner.MatchAtComplete` | server/services/redaction-service.ts:19-41 | A word of the language between word boundaries is matched at its start, with the same end. |
| `Scanner.MatcherFor` | server/services/redaction-service.ts:19-41 | Each category's matcher only moves forward, so the `exec` loop terminates. |
| `Scanner.NextMatch` | server/services/redaction-service.ts:21 | `exec` from `lastIndex` returns the leftmost match at or after it, or null when there is none. |
| `Scanner.Matches` | server/services/redaction-service.ts:19-25 | Every match of the loop lies inside the scanned range. |
| `Scanner.MatchCount` | server/services/redaction-service.ts:21 | Every match takes at least one character, so a scan reports at most one match per character. |
| `Scanner.MatchesIsLeftmostScan` | server/services/redaction-service.ts:19-41 | The loop's matches are exactly the sequence that is leftmost at each step and resumes at the previous end. |
| `Scanner.ScanOrdered` | server/services/redaction-service.ts:19-41 | Matches are non-empty and ordered left to right without overlap. |
| `Scanner.ScanOfText` | server/services/redaction-service.ts:19-41 | Each category's scan of the text is leftmost and non-overlapping. Every match is a word of the language between word boundaries. |
| `Scanner.ScanMatchSound` | server/services/redaction-service.ts:19-41 | The i-th match of a scan is a non-empty word of its language between word boundaries. |
| `Scanner.ScanCovers` | server/services/redaction-service.ts:19-41 | Every position where a match could start lies inside some reported match. |
| `Scanner.SingleMatch` | server/services/redaction-service.ts:19-41 | With exactly one possible match in the text, the scan reports exactly it. |
| `Masking.Cleaned` | server/services/redaction-service.ts:154 | Removing separators never lengthens the text. |
| `Masking.LastFour` | server/services/redaction-service.ts:155 | `slice(-4)` has four characters, or all of them when there are fewer. |
| `Masking.CleanedChars` | server/services/redaction-service.ts:154 | Every character left after removing `[\s-]` (and `+`, for the phone mask) comes from the input and is not a removed one. |
| `Masking.KeptChars` | server/services/redaction-service.ts:152-171 | The four characters a mask keeps come from the masked text and are neither separators nor, for phones, `+`. |
| `Masking.MaskAadhaar` | server/services/redaction-service.ts:152-157 | The mask is `XXXX XXXX ` followed by at most four kept characters: 10 to 14 characters in all. |
| `Masking.MaskPAN` | server/services/redaction-service.ts:159-163 | The mask is `XXXXX` followed by the input's last four characters, or all of a shorter input. |
| `Masking.MaskPhone` | server/services/redaction-service.ts:165-171 | When the input contains `+91` the mask starts `+91 XXXXX ` and has 10 to 14 characters. Otherwise it starts `XXXXX ` and has 6 to 10. |
| `Masking.CleanedAppend` | server/services/redaction-service.ts:167 | Separator removal distributes over concatenation. |
| `Masking.KeepsTrailingDigits` | server/services/redaction-service.ts:154-155 | When a text ends in four digits, the last four characters after separator removal are those digits. |
| `Masking.AadhaarEndsInDigits` | server/services/redaction-service.ts:19 | Every Aadhaar word is at least 12 long and ends in four digits. |
| `Masking.PhoneEndsInDigits` | server/services/redaction-service.ts:36 | Every phone word is at least 10 long and ends in four digits. |
| `Masking.AadhaarMaskShape` | server/services/redaction-service.ts:152-157 | For every Aadhaar word the mask is `XXXX XXXX ` plus its last four digits, whatever separators it used. It is 14 characters in three space-separated groups. |
| `Masking.PanMaskShape` | server/services/redaction-service.ts:159-163 | For every PAN word the mask is `XXXXX` plus its last four characters, 9 in all. |
| `Masking.PanMaskExample` | server/services/redaction-service.ts:159-163 | `ABCDE1234F` is masked `XXXXX234F`. |
| `Masking.PhoneMaskPrefix` | server/services/redaction-service.ts:165-171 | The mask starts with `+91 ` exactly when the text contains `+91`. |
| `Masking.PhoneMaskShape` | server/services/redaction-service.ts:165-171 | For every phone word the mask is the optional `+91 `, then `XXXXX `, then its last four digits. |
| `Masking.PhoneMaskWithoutPlus` | server/services/redaction-service.ts:165-171 | Without a `+`, the mask is `XXXXX ` plus the last four digits. |
| `Detector.Mask` | server/services/redaction-service.ts:23-39 | Each category's masker yields 5 to 14 characters. |
| `Detector.EntryOf` | server/services/redaction-service.ts:22-24 | An entry pushed by the loops carries no position. |
| `Detector.EntriesOf` | server/services/redaction-service.ts:21-24 | Each match yields one entry, in order: the matched text and its mask. |
| `Detector.Found` | server/services/redaction-service.ts:19-41 | A category's scan reports at most one entry per character of the text. |
| `Detector.Detect` | server/services/redaction-service.ts:10-53 | The photo region list is non-empty exactly when an Aadhaar or PAN entry was found. |
| `Detector.ScanEntries` | server/services/redaction-service.ts:21-25 | The `while exec` loop pushes exactly the entries of the scan's matches, in order. |
| `Detector.MatchesStep` | server/services/redaction-service.ts:21 | One `exec` step: no match ends the loop, and a match is followed by the scan from its end. |
| `Detector.DetectSensitiveData` | server/services/redaction-service.ts:10-53 | The three loops and the region rule compute exactly `Detect(text)`. |
| `Detector.AadhaarEntries` | server/services/redaction-service.ts:19-25 | Every reported Aadhaar entry is a word of the pattern with no position. Its mask is 14 characters: `XXXX XXXX ` plus the last four digits. |
| `Detector.PanEntries` | server/services/redaction-service.ts:28-33 | Every reported PAN entry is a word of the pattern. Its mask is 9 characters: `XXXXX` plus the last four characters. |
| `Detector.PhoneEntries` | server/services/redaction-service.ts:36-41 | Every reported phone entry is a word of the pattern. Its mask has the `+91 ` prefix exactly when the word contains `+91`. |
| `Detector.EntryInLanguage` | server/services/redaction-service.ts:19-41 | Every entry of any category is a word of that category's language with that category's mask. |
| `Detector.PlusInPhoneMatch` | server/services/redaction-service.ts:36-41 | A `+` inside a reported phone match is at its start and follows a word character. |
| `Detector.FoundComplete` | server/services/redaction-service.ts:19-41 | Every occurrence of a pattern's word between word boundaries is covered by a reported match. A match that starts there is reported as exactly that word, with its mask. |
| `Detector.BlurRule` | server/services/redaction-service.ts:45-50 | Exactly one photo region at (50,50,120,150) is added exactly when an Aadhaar or PAN number was found. Phone numbers alone add none. |
| `Detector.OnlyMatch` | server/services/redaction-service.ts:19-41 | With exactly one possible match, the category reports exactly that entry. |
| `Detector.NoMatchInsideWord` | server/services/redaction-service.ts:19-41 | No match starts inside a word. |
| `Detector.PhoneAfterSpace` | server/services/redaction-service.ts:36-41 | In `Phone: +91 9876543210` the one phone entry is `91 9876543210`, masked `XXXXX 3210`. |
| `Detector.AadhaarScenario` | server/services/redaction-service.ts:19-25 | In `Aadhaar Number: 1234 5678 9012` the one Aadhaar entry is `1234 5678 9012`, masked `XXXX XXXX 9012`. |
| `Detector.PanScenario` | server/services/redaction-service.ts:28-33 | In `PAN Number: ABCDE1234F` the one PAN entry is `ABCDE1234F`, masked `XXXXX234F`. |
| `Detector.SharedDigits` | server/services/redaction-service.ts:19-50 | The scans are independent. `919876543210` is reported both as an Aadhaar number and as a phone number, and it adds the photo region. |
| `Sanitize.SanitizeFilename` | server/services/redaction-service.ts:238-245 | The result uses only `[A-Za-z0-9._-]`, does not start with `.`, `_` or `-`, and has at most 100 characters. |
| `Sanitize.RedactedPathFor` | server/services/redaction-service.ts:60-62 | The path is `uploads/redacted/redacted_` followed by at most 100 safe characters. |
| `Sanitize.ReplaceUnsafe` | server/services/redaction-service.ts:241 | Every character outside `[A-Za-z0-9._-]` becomes `_`. The length is kept. |
| `Sanitize.CollapseDots` | server/services/redaction-service.ts:242 | Replacing `..` with `_` never lengthens the name, keeps it safe, and introduces no leading dot. |
| `Sanitize.TrimLeadingJunk` | server/services/redaction-service.ts:243 | Removes exactly the longest prefix of `.`, `_` and `-`. |
| `Sanitize.Truncate` | server/services/redaction-service.ts:244 | `substring(0, n)` is the prefix of length at most n. |
| `Sanitize.CollapsedHasNoDoubleDot` | server/services/redaction-service.ts:242 | After the replacement no `..` remains. |
| `Sanitize.CollapseWithoutDoubleDot` | server/services/redaction-service.ts:242 | A name without `..` is left alone by the replacement. |
| `Sanitize.SanitizedIsClean` | server/services/redaction-service.ts:238-245 | A sanitised name uses only `[A-Za-z0-9._-]`, has no `..`, does not start with `.`, `_` or `-`, and has at most 100 characters. |
| `Sanitize.CleanIsFixed` | server/services/redaction-service.ts:238-245 | A name that is already clean is returned unchanged. |
| `Sanitize.SanitizeFixedIff` | server/services/redaction-service.ts:238-245 | Sanitising leaves a name unchanged exactly when it is clean. |
| `Sanitize.SanitizeIdempotent` | server/services/redaction-service.ts:238-245 | Sanitising twice equals sanitising once. |
| `Sanitize.Basename` | server/services/redaction-service.ts:60 | `path.basename` contains no `/`. |
| `Sanitize.StripTrailingSlashes` | server/services/redaction-service.ts:60 | Trailing slashes are removed, leaving a prefix that does not end in `/`. |
| `Sanitize.AfterLastSlash` | server/services/redaction-service.ts:60 | The part after the last `/` is a slash-free suffix. |
| `Sanitize.BasenameOfJoin` | server/services/redaction-service.ts:60 | The basename of `dir/name` is `name`. |
| `Sanitize.RedactedPathShape` | server/services/redaction-service.ts:60-62 | The redacted path is `uploads/redacted/redacted_` followed by a clean, slash-free name of at most 100 characters. |
| `Layout.PageLayout` | server/services/redaction-service.ts:95-139 | A page gets at most five boxes, and the watermark at (50, height-50). |
| `Layout.PhoneBoxes` | server/services/redaction-service.ts:120-131 | The phone loop draws n 120-wide boxes, each 20 below the previous one. |
| `Layout.PdfLayout` | server/services/redaction-service.ts:90-140 | Every page is laid out by its own height with the same rule. |
| `Layout.RedactPdf` | server/services/redaction-service.ts:90-140 | The page loop and its yOffset walk produce exactly `PdfLayout`. |
| `Layout.PagesAlike` | server/services/redaction-service.ts:90-140 | Two pages get the same boxes, shifted by the difference of their heights. |
| `Layout.PageBoxCount` | server/services/redaction-service.ts:95-131 | A page gets one box per non-empty Aadhaar or PAN list, plus `min(#phones, 3)` boxes. |
| `Layout.PageBoxesStacked` | server/services/redaction-service.ts:95-139 | All boxes sit at x=50 with height 15. The first is at height-100, and each next one is at least 20 lower. The watermark is at (50, height-50), above all boxes. |
| `Layout.PageBoxWidths` | server/services/redaction-service.ts:98-131 | A 200-wide box appears exactly when Aadhaar numbers exist, and comes first. A 150-wide box appears exactly when PAN numbers exist. The rest are 120-wide phone boxes. |
| `Layout.Clamp` | server/services/redaction-service.ts:204-205 | `max(0, min(v, extent-size))` is never negative, and is 0, v itself or extent-size. |
| `Layout.OverlayFor` | server/services/redaction-service.ts:202-206 | An overlay keeps its region's width and height, at non-negative coordinates. |
| `Layout.ImageLayout` | server/services/redaction-service.ts:188-207 | One overlay per blurred region. |
| `Layout.RedactImage` | server/services/redaction-service.ts:183-207 | A missing or zero dimension is an error. Otherwise the overlay loop yields exactly `ImageLayout`. |
| `Layout.ClampProperties` | server/services/redaction-service.ts:204-205 | `max(0, min(v, extent-size))` is never negative. It keeps an overlay that fits inside, does not move a coordinate already inside, and pins an oversized overlay to 0. |
| `Layout.OverlaysInside` | server/services/redaction-service.ts:191-207 | Each overlay keeps its region's size, lies inside the image when it fits, and is not moved when the region is already inside. |
| `Renderer.Render` | server/services/redaction-service.ts:55-74 | A failed `mkdir` is exactly the directory error. A success means the write succeeded at the redacted path, with a PDF artifact exactly for `application/pdf`. Any other failure is the PDF or image redaction error, by content type. |
| `Renderer.CreateRedactedDocument` | server/services/redaction-service.ts:55-74 | Naming, `mkdir` and the content-type branch compute exactly `Render`. |
| `Renderer.RenderedArtifact` | server/services/redaction-service.ts:55-74 | A rendered artifact lies at the redacted path. It is a PDF exactly for `application/pdf`, with every page laid out. Otherwise it is an image with one overlay per region and the watermark at (10,10). |
| `Renderer.RenderFails` | server/services/redaction-service.ts:55-74 | Rendering fails exactly when `mkdir` or the write fails, or when the original is not the kind of file its content type says. For images, missing or zero dimensions also fail. |
| `Routes.Admit` | server/routes.ts:14-45 | An upload fails exactly when the file is missing, its type is not one of the four allowed, or it exceeds 10 MiB. A missing file gives "No file uploaded", a bad type the invalid-type error. An admitted file becomes a `pending` record with no redacted path, no detection result and the file's size. |
| `Routes.AdmitIff` | server/routes.ts:14-22 | An upload is admitted exactly for the four allowed types and at most 10 MiB. |
| `Routes.UploadRoute` | server/routes.ts:31-45 | A rejected or missing file leaves the store unchanged. An admitted one adds exactly the new record. |
| `Routes.UploadedRecord` | server/routes.ts:37-45 | A new upload record is `pending`, with null redacted path and null detection result. Its type is allowed and its size within the cap. |
| `Routes.ExtractText` | server/routes.ts:160 | A PDF yields no text. Any other type yields the OCR engine's answer. |
| `Routes.PlanRun` | server/routes.ts:148-207 | A PDF or a failed OCR ends the run at extraction. Otherwise a failed `mkdir` ends it at rendering. A completed run wrote its file at the derived redacted path. |
| `Routes.RunPatches` | server/routes.ts:150-206 | A run issues 2 to 5 updates. The first sets `ocr`. The last sets `complete` for a completed run and `error` otherwise. |
| `Routes.ReplayLastTime` | server/storage.ts:44-48 | Each update takes one clock tick, so the last version is stamped t plus the number of updates. |
| `Routes.Final` | server/routes.ts:148-207 | Without updates the record is unchanged. Otherwise its final version is stamped t plus the number of updates. |
| `Routes.StatusStep` | server/routes.ts:150-154 | A stage update extends the run by exactly one status patch. |
| `Routes.CommitStep` | server/routes.ts:187-191 | The publishing update extends the run by exactly the commit patch. |
| `Routes.RunPatchesInOrder` | server/routes.ts:150-206 | The updates of each kind of run, in the order they are issued. |
| `Routes.PlanRunAfterExtraction` | server/routes.ts:169-184 | After extraction, the run completes with the rendered path and the detection of the text exactly when rendering succeeds. |
| `Routes.ProcessDocument` | server/routes.ts:143-208 | A missing record stops the run without writes. Otherwise the store holds exactly the updates of the planned run, in order, one clock tick each. |
| `Routes.RedactText` | server/routes.ts:162-206 | From extraction on, the run issues exactly the remaining planned updates. |
| `Routes.RunFinal` | server/routes.ts:148-207 | A run changes only stage, redacted path, detection result and timestamp. A completed run ends `complete` with both results. A failed run ends `error` with them untouched. |
| `Routes.FinalExtractionFailed` | server/routes.ts:199-206 | An extraction failure leaves the record at `error` after two updates. |
| `Routes.FinalRenderingFailed` | server/routes.ts:173-206 | A rendering failure leaves the record at `error` after four updates, results untouched. |
| `Routes.FinalCompleted` | server/routes.ts:186-197 | A successful run ends `complete` with the path and the detection result after five updates. |
| `Routes.RunKeepsConsistent` | server/routes.ts:186-191 | Starting from a record without results, every version a run writes has a redacted path and a detection result exactly when its stage is `complete`. |
| `Routes.PlanRunCompletes` | server/routes.ts:156-197 | A run completes exactly for a non-PDF whose text was extracted and whose rendering succeeded. It then publishes the derived redacted path and the detection of that text. |
| `Routes.PdfRunFails` | server/routes.ts:159-160 | Every PDF run fails at extraction and ends at `error`. |
| `Routes.FilePathFor` | server/routes.ts:81 | The path read is the original or the redacted path. Any type other than `redacted` reads the original. |
| `Routes.ServeFile` | server/routes.ts:72-104 | Not-found is reported exactly when the record is missing. A served path exists and is non-empty, with the record's content type. An unavailable file is reported under the requested type. |
| `Routes.Disposition` | server/routes.ts:89-99 | The header is 20 characters plus the type, plus at most 100, and ends in a quote. |
| `Routes.ServeFileIff` | server/routes.ts:72-104 | A file is served exactly when the record exists and the selected path is non-empty and readable. `redacted` selects redactedPath, anything else selects originalPath, and the content type is the record's. |
| `Routes.NoRedactedBeforeComplete` | server/routes.ts:81-85 | A pipeline record that is not `complete` has no redacted file to serve. |
| `Routes.DispositionIsQuoted` | server/routes.ts:89-99 | The Content-Disposition header quotes a clean, quote-free name of at most 100 characters. |
| `Routes.DispositionCopiesKind` | server/routes.ts:99 | The `:type` parameter is copied into the quoted value unchanged, right after `inline; filename="` and before the `_`. |
| `Routes.CleanUp` | server/routes.ts:114-124 | Cleanup only removes files, and only the record's original and redacted files. |
| `Routes.CleanUpRemovesOwnFiles` | server/routes.ts:114-124 | Cleanup removes only the record's own files. If the original is missing, the first unlink throws and nothing is removed. |
| `Routes.DeleteRoute` | server/routes.ts:112-131 | Not-found is reported exactly when the id was absent. The record and its files are removed, and the clock is untouched. |
| `Progress.GetStageStatus` | client/src/components/processing-section.tsx:32-43 | Progress is 0, 75 or 100 for pending, processing and complete. With no record, the stage is pending. |
| `Progress.StatusLabel` | client/src/components/processing-section.tsx:78-83 | The header reads "Processing failed" exactly for `error`, "Processing complete" exactly for `complete`, and otherwise "Analyzing content...". |
| `Progress.ShouldFireOnComplete` | client/src/components/processing-section.tsx:26-30 | `onComplete` fires only for a polled record whose header reads "Processing complete". |
| `Progress.IndexOf` | client/src/components/processing-section.tsx:37-38 | `indexOf` gives the first position of the name, or -1 exactly when it is absent. |
| `Progress.StageOrderPositions` | client/src/components/processing-section.tsx:36 | The five stage names sit at positions 0 to 4. |
| `Progress.OutsideOrder` | client/src/components/processing-section.tsx:36-37 | Any other name, `pending` and `error` included, has index -1. |
| `Progress.StatusPosition` | client/src/components/processing-section.tsx:35-38 | The index of every possible stored status. |
| `Progress.DisplayRule` | client/src/components/processing-section.tsx:32-43 | With no record, all stages are pending/0. Otherwise a stage before the stored one is complete/100, the stored one is processing/75, and later ones are pending/0. |
| `Progress.OutsideOrderAllPending` | client/src/components/processing-section.tsx:32-70 | For stored `pending` or `error`, all four displayed stages, `upload` included, show pending/0. |
| `Progress.CompleteAllDone` | client/src/components/processing-section.tsx:32-70 | For stored `complete`, all four displayed stages show complete/100. |
| `Progress.AtMostOneProcessing` | client/src/components/processing-section.tsx:40-70 | At most one displayed stage is processing: the one the stored status names. |
| `Progress.ForwardNeverRegresses` | client/src/components/processing-section.tsx:40-42 | As the stored status moves forward through the order, no stage's state or progress goes backwards. |
| `Progress.FiresWhenComplete` | client/src/components/processing-section.tsx:26-30 | `onComplete` fires exactly when the header reads "Processing complete", that is, when the polled status is `complete`. |

## Left out

- Text extraction is an input: the OCR engine's answer, or its failure, is a parameter. The OCR service (server/services/ocr-service.ts) is not part of this model beyond its PDF branch, which always throws.
- File-system effects are values. `Disk` is the set of existing paths, `FileSystem` says whether `mkdir` and the write succeed, and `Original` is what a renderer finds at the original path. `readFile` failing on an existing path, and the other 500 responses, are not modelled.
- multer, Express and HTTP status codes are left out. Upload rejections are `UploadError` values, and file-route outcomes are `FileResponse` values. A file multer rejects for size never reaches the handler. The model has it rejected by `Admit`.
- `randomUUID` is replaced by a fresh-id parameter, and `new Date()` by a logical clock that ticks once per call.
- Concurrency is left out. `processDocumentAsync` runs fire-and-forget beside other requests, and a delete arriving between two of its updates is not modelled. One run is modelled sequentially.
- pdf-lib and sharp drawing, SVG construction and colours are left out. Only the integer coordinates passed to them are modelled. Page sizes and overlay sizes are integers rather than floating-point numbers.
- sharp is called twice on the same pipeline: once for the overlays and once for the watermark. Whether the second call replaces the first call's overlays depends on sharp's implementation. The model records both lists as requested.
- JavaScript strings are UTF-16 code units, and here they are Dafny `char`s. `\s` is modelled by a fixed whitespace predicate, not the full Unicode set.
- A `Partial<Document>` whose keys hold an explicit `undefined` is not modelled: a `Patch` field is either absent or a value.
- `Storage.MemStorage.UpdateDocument`: keeps the store's invariant (every record stored under its own id) only when the patch does not change the id. A patch that renames a record is accepted, as in the source, but the invariant is not promised for it.
- `Layout.PagesAlike`: the source draws "the same" rectangles on every page only relative to each page's own height. The lemma states equality up to that vertical shift.
- The separate status route (GET of a record) is `Storage.MemStorage.GetDocument`. It needs no model of its own.
- The message of a failed `mkdir` is the file system's own error text. It is not modelled (`Renderer.ErrorMessage` gives none), and the store drops messages anyway.
- `ProcessingStatus` progress, message and error are carried in the datatype but dropped by the store, as in the source.
