# ZIPboost: a Dafny model of the popup and web-page logic

ZIPboost is a browser extension with a companion web page. It packs files into a ZIP archive and lists, opens and extracts the files of an archive. This project models the logic under its two scripts:

- **The popup (`app.js`).**
  - Helpers: the download-name sanitiser, the extension-to-MIME table, the "can a tab show this type" test, the preset-to-level choice and the archive dispatch by extension.
  - Persistence: the session record kept in the extension store. The open archive's Blob is turned into a plain array of byte values on the way in and back into a Blob on the way out.
  - Restoration: the decision taken at start-up between a live view, a stale "reopen" view and the Compress tab.
  - State: the popup is a class, `Popup.PopupSession`. Its fields are the staged files, the open archive, the form fields, what the view shows, the store and the download sink. It has one method per event handler: staged-list edits, Compress, open, entry Open/Download, Extract all, Clear, and the save on closing.
- **The web page (`public/main.js`).**
  - Pure helpers: its own MIME table, the level `switch` and removal by identity.
  - State: a class, `Viewer.ZBoostPage`, with the files to compress, the listed archive entries and the drop guards.

How the model represents the outside world:

- The ZIP codec (JSZip) is a pair of function parameters. `Decoder` may fail to decode. `Encoder` takes the named files and a level.
- Reading one entry's bytes may fail (`ZipEntry.content == None`).
- The extension store is a map from keys to slots.
- Every storage call succeeds or fails as its `ok` argument says. A nested `activate` gets its own pair of flags (`Popup.Activation`).
- Writing to the store keeps what the extension store keeps of a value: a Blob is stored as an empty object.
- Downloads and new tabs are appended to a `sink` sequence.
- `decode` stands for `JSZip.loadAsync`. When the library did not load (`jszipOk` false), the popup's calls fail on every input (`Web.Loader`).

Modules:

- `Text`: ASCII case folding, the text after the last separator, suffix tests, character replacement, and the default string sort.
- `Web`: JavaScript values, files, archives and byte conversions.
- `Names`: the pure popup helpers.
- `Session`: the persistence transform and the store effects.
- `Restore`: the restoration decision as a value.
- `Popup`: the popup class and the specifications of its lists.
- `Viewer`: the web page.

## Model

| member | source | states |
|---|---|---|
| Text.ToLower | app.js:14 | the result has the input's length and each character folded to lower case |
| Text.ToLowerIdempotent | app.js:14 | folding case twice is the same as folding once |
| Text.AfterLast | app.js:14 | the last element of `split(sep)`: a suffix of the input free of the separator, preceded by the separator when shorter than the input, and the whole input when the separator does not occur |
| Text.ReplaceChar | app.js:557 | `split(a).join(b)`: same length, every `a` replaced, every other character kept |
| Text.CharOrderLeTotal | app.js:454 | the string order used by `sort()` is total |
| Text.InsertPath | app.js:454 | inserting into a sorted list keeps it sorted and adds exactly that element |
| Text.SortPaths | app.js:454 | `keys.sort()`: the result is sorted and a permutation of the input |
| Web.ByteNumbers | app.js:61 | `Array.from(new Uint8Array(...))`: one number per byte, each in 0..255 |
| Web.Uint8Array | app.js:77 | `new Uint8Array(numbers)`: one byte per number |
| Web.BytesRoundTrip | app.js:56-87 | bytes written out as numbers and read back are the same bytes |
| Web.NumbersRoundTrip | app.js:56-87 | numbers in 0..255 read as bytes and written out again are unchanged |
| Web.TextField | app.js:192 | a field is read as text exactly when it is present and a non-empty string, and then its value is that string (so it is truthy) |
| Web.Keys | app.js:454 | `Object.keys(zip.files)`: one name per entry, in entry order |
| Web.Lookup | app.js:110 | `zip.files[path]` finds an entry exactly when the path is one of the keys, and it is that entry |
| Web.Loader | app.js:236-240 | `JSZip.loadAsync` as the popup reaches it: the given decoder when the library loaded, and a call that fails on every input when it did not |
| Web.Members | app.js:355-357 | the codec receives each staged file's name and bytes, in order |
| Web.BrowserFile.constructor | app.js:199-202 | a `File` keeps the name, type and bytes it is built from |
| Names.SanitizeName | app.js:12 | no forbidden character remains; empty input gives `archive.zip`; otherwise same length with exactly the forbidden characters replaced by `_` |
| Names.SanitizeNameIdempotent | app.js:12 | sanitising twice equals sanitising once |
| Names.ExtensionOf | app.js:43 | `(name.split(".").pop() \|\| "").toLowerCase()`: the lower-cased text after the last dot, or the whole name without a dot; characterised by `ExtMimeIgnoresCase`, `ExtMimeDependsOnlyOnExtension` and `AfterLastOfSuffix` |
| Names.MimeOfExt | app.js:15-42 | an extension gets the table's type exactly when the table lists it, and `application/octet-stream` otherwise |
| Names.ExtMime | app.js:13-43 | the table's type exactly for the 37 known extensions, `application/octet-stream` for every other |
| Names.ExtMimeIgnoresCase | app.js:14 | names differing only in letter case get the same type |
| Names.ExtMimeDependsOnlyOnExtension | app.js:14 | the text before the last `.` never changes the type |
| Names.AfterLastOfSuffix | app.js:14 | the extension of `stem.ext` is `ext` when `ext` has no dot |
| Names.CanOpenInBrowser | app.js:44-51 | the type starts with one of the nine listed prefixes; which table types pass is fixed by `ApplicationTypeViewability`, `ShownTypeViewable`, `HiddenTypeNotViewable`, `TableSplitsByViewability` and `ViewableByExtension` |
| Names.ApplicationTypeViewability | app.js:44-51 | an `application/` type is shown exactly when it starts with one of the five `application/` prefixes |
| Names.ApplicationTypeNotViewable | app.js:44-51 | an `application/` type whose subtype starts with `o`, `r` or `z`, or with `x-` not followed by `j`, passes no prefix |
| Names.MediaTypeNotViewable | app.js:44-51 | audio and video types pass no prefix |
| Names.HiddenTypeNotViewable | app.js:44-51 | archive, media, executable and RTF types and the fallback are never opened in a tab |
| Names.OctetStreamNotViewable | app.js:44-51 | `application/octet-stream` is not opened in a tab |
| Names.ShownTypeViewable | app.js:44-51 | every image, text, PDF and JSON type of the table is opened in a tab |
| Names.TableSplitsByViewability | app.js:15-41 | each known extension maps to a shown type exactly when it is a viewable one, and to a hidden type otherwise |
| Names.ViewableByExtension | app.js:44-51 | an entry opens in a tab if and only if its extension is one of the viewable ones |
| Names.LevelFromPreset | app.js:348 | `quick` gives 1, `maximum` gives 9, and any other preset gives 6, each in both directions |
| Names.ArchiveActionFor | app.js:407-419 | `zip` opens, `rar`/`7z`/`tar` pass to download, and everything else is refused, each in both directions |
| Names.HasZipSuffix | app.js:548 | the name ends in `.zip` in any case, the test of `/\.zip$/i`; `ExtractBaseStripsOneSuffix` and `ExtractBaseKeepsOtherNames` show the replace it guards removes exactly that suffix |
| Names.ExtractBase | app.js:548 | the base is a prefix of the archive name |
| Names.ExtractBaseStripsOneSuffix | app.js:548 | exactly one trailing `.zip` of any case is removed |
| Names.ExtractBaseKeepsOtherNames | app.js:548 | a name without that suffix is kept whole |
| Names.SafePath | app.js:557 | every backslash becomes `/`, every other character is kept, the length is kept, so no backslash remains |
| Names.ExtractFilename | app.js:559 | the download name is `base/` followed by `SafePath` of the entry's path, which holds no backslash |
| Names.LookupAsWritten | app.js:42 | the table lookup as written yields an inherited member exactly for the extensions `constructor` and `__proto__` |
| Names.LookupAsWrittenCorrectsOnlyInherited | app.js:42 | on every other extension the written lookup yields the corrected lookup's string |
| Names.ExtMimeAsWritten | app.js:13-43 | `extMime` as written yields an inherited member exactly when the name's extension is `constructor` or `__proto__` |
| Names.ExtMimeAsWrittenReturnsNonString | app.js:42 | any name ending in `.constructor` or `.__proto__`, `notes.constructor` among them, gets an inherited member instead of a MIME string |
| Names.ExtMimeCorrectsOnlyInheritedNames | app.js:42 | the corrected lookup agrees with the written one everywhere else |
| Session.StorableObj | app.js:53 | the store keeps every key, and a Blob value becomes an empty object |
| Session.Serialize | app.js:59-63 | a truthy `currentZipBlob` is replaced by `currentZipData` holding its bytes and other fields pass unchanged; a truthy non-Blob there makes the save throw |
| Session.Deserialize | app.js:75-79 | a truthy `currentZipData` is replaced by a Blob of those bytes; other fields pass unchanged |
| Session.PersistRoundTrip | app.js:56-87 | save then load returns the state: the bytes byte for byte, other fields unchanged, no `currentZipData` |
| Session.SaveStore | app.js:56-70 | a failed save, or a record that cannot be stored, leaves the store as it was; otherwise the session key holds the serialised record; no other key changes |
| Session.LoadRecord | app.js:71-87 | a failed read, a missing record and a null record load as `null`; a record loads deserialised |
| Session.ClearStore | app.js:88-95 | a successful clear makes the next load `null`; a failure changes nothing |
| Session.SaveThenLoad | app.js:56-87 | `loadState` after a successful `saveState(o)` returns `o` |
| Session.FailuresAreSwallowed | app.js:67-69 | failed saves and clears leave the store unchanged, and a failed load reads as `null` |
| Session.StoredRecordSurvivesReload | app.js:181-183 | loading a saved record, merging plain fields into it and saving it stores exactly the record plus those fields |
| Session.ActivatedStore | app.js:175-184 | the store after `activate`: the loaded record (or `{}`) with `activeTab` set, written through `saveState`; `ActivateMerges` and `ActivateAfterFailedReadKeepsOnlyTab` give the resulting store |
| Session.ActivateMerges | app.js:175-184 | `activate` merges `activeTab` into a saved record and keeps its other fields, archive bytes included; with no record it starts one holding only `activeTab` |
| Session.ActivateAfterFailedReadKeepsOnlyTab | app.js:182 | when the read inside `activate` fails, the saved record is replaced by `activeTab` alone |
| Session.CompressSettings | app.js:346 | the record the Compress button builds: the loaded record with `zipName`, `preset` and `activeTab: 'compress'` merged over it |
| Session.CompressSettingsStoreAsWritten | app.js:346 | the code as written: that record written to the store directly, so a Blob in it is stored as `{}`; its effects are `CompressSettingsAsWrittenLosesArchive`, `ActivateStuckAfterCompressAsWritten` and `Restore.ArchiveUnrecoverableAfterCompressAsWritten` |
| Session.CompressSettingsStore | app.js:346 | the corrected write through `saveState`; `CompressSettingsKeepArchive` shows it only merges the three fields into a saved record |
| Session.CompressSettingsAsWrittenLosesArchive | app.js:346 | as written, for every stored record holding archive bytes, the bytes become an empty object under `currentZipBlob`, no `currentZipData` is left, and the next load finds that empty object |
| Session.ActivateStuckAfterCompressAsWritten | app.js:346 | as written, for every stored record holding archive bytes, every later `activate` then leaves the store unchanged |
| Session.CompressSettingsKeepArchive | app.js:346 | corrected, the settings merge into the saved record and the bytes stay |
| Restore.LiveRows | app.js:109-126 | the listing exists exactly when every saved path is in the archive, one row per path with the entry's directory flag |
| Restore.RestoreFromBlob | app.js:98-131 | `restoreZipFromState`: live with the decoded archive, its name and the rows of the saved paths when every guard passes and the bytes are a decodable Blob, else declined; characterised by `RecordWithBytesRestoresLive` and `NonBlobBytesDeclined` |
| Restore.RestoreZipState | app.js:134-170 | `restoreZipState`: declined without a record, a name or an entry list; the blob path when bytes are saved; otherwise a stale view; characterised by `IncompleteRecordDeclined`, `RecordWithBytesRestoresLive`, `NonBlobBytesDeclined`, `SavedBytesNeedLibrary` and `RecordWithoutBytesRestoresStale` |
| Restore.IncompleteRecordDeclined | app.js:134-135 | no record, no archive name or no entry list gives `false` |
| Restore.RecordWithBytesRestoresLive | app.js:98-131 | with bytes, the result is `true` exactly when they decode and every path is in the archive; undecodable bytes give `false` |
| Restore.NonBlobBytesDeclined | app.js:99-136 | a truthy `currentZipBlob` that is not a Blob gives `false`, not even a stale view |
| Restore.SavedBytesNeedLibrary | app.js:98-104 | without the ZIP library a record with saved bytes is declined, since the decoding call throws |
| Restore.RecordWithoutBytesRestoresStale | app.js:141-169 | without bytes, the result is `true` with a stale view in which a path is a folder exactly when it ends in `/` |
| Restore.ArchiveUnrecoverableAfterCompressAsWritten | app.js:346 | as written, for every stored record holding archive bytes, after Compress a restore of the record declines it, and start-up does not even try one: it never takes the view branch, and shows Compress unless the record held staged files |
| Restore.StartBranchFor | app.js:189-208 | the view branch is taken exactly for a `view` record with a truthy name, the compress branch exactly for a `compress` record with truthy staged files, and Compress is shown exactly otherwise, including when there is no record |
| Popup.SpliceOne | app.js:282 | the list `files.splice(idx, 1)` leaves, with the start clamped as JavaScript does; `SpliceRemovesIndex` and `SpliceOtherIndices` give the result for every index |
| Popup.SpliceRemovesIndex | app.js:280-284 | removing an index in range deletes exactly that element and keeps the others in order |
| Popup.SpliceOtherIndices | app.js:280-284 | an index past the end removes nothing; a negative one counts from the end |
| Popup.StoredFileOf | app.js:226 | a stored file keeps the name and type, and its numbers read back as its bytes |
| Popup.ReviveFiles | app.js:199-202 | one file per stored record, in order, with its name, type and bytes |
| Popup.StoredFilesOf | app.js:223-228 | one stored record per staged file, in order |
| Popup.StagedFilesRoundTrip | app.js:199-202 | staged files stored on closing and revived at start-up keep names, types and bytes |
| Popup.ReadableFiles | app.js:551-555 | the entries extract-all writes are entries of the archive that are files and whose read succeeds, at most one per entry |
| Popup.DeliveriesFor | app.js:555-559 | one download per readable entry, in order |
| Popup.ExtractDeliveries | app.js:551-566 | the downloads of the Extract loop over the entries in order, none for a directory or a failed read; `ExtractDeliveriesAppend`, `ExtractStep` and `ExtractDeliversReadableFiles` tie it to the readable files |
| Popup.ExtractDeliveriesAppend | app.js:551-566 | the loop handles entries one by one: a failed read in one part never stops the next |
| Popup.ExtractStep | app.js:551-566 | one more entry adds its download, if any |
| Popup.ReadableFilesAppend | app.js:551-566 | readable files of a concatenation are the readable files of the parts |
| Popup.ReadableStep | app.js:563 | one more entry adds one to the count exactly when it is readable |
| Popup.ExtractDeliversReadableFiles | app.js:551-566 | the downloads are exactly one per readable file, in archive order, named `base/path` |
| Popup.SortedKeysListed | app.js:454-456 | the sorted entry names are all found in the archive, so the listing never throws |
| Popup.PopupSession.constructor | app.js:392-393 | the popup starts with nothing staged, no archive open and the name `archive.zip` |
| Popup.PopupSession.SaveState | app.js:56-70 | the store becomes `SaveStore` of the old store |
| Popup.PopupSession.LoadState | app.js:71-87 | returns `LoadRecord` of the store and changes nothing |
| Popup.PopupSession.ClearState | app.js:88-95 | the store becomes `ClearStore` of the old store |
| Popup.PopupSession.Activate | app.js:175-184 | shows the section and leaves the store as `ActivatedStore` |
| Popup.PopupSession.ShowsDecision | app.js:134-170 | the popup after a restore decision: a declined record changes nothing; otherwise View is activated and the restored rows are listed; live opens the archive; stale shows Reopen and hides Extract |
| Popup.PopupSession.RestoreZipState | app.js:134-170 | returns the decision's result, and the popup shows the decision (`ShowsDecision`): declining touches nothing; otherwise View is activated and the restored rows are listed; live sets the open archive; stale shows Reopen and hides Extract |
| Popup.PopupSession.RestoreSettings | app.js:258-262 | name and preset come from the record, else `archive.zip` and `optimal` |
| Popup.PopupSession.Start | app.js:189-208 | the view branch leaves the popup as `restoreZipState` of the record does and keeps the staged files and settings; the compress branch takes the saved name and preset when set and revives exactly the stored files, showing Compress (staged files that are not an array stop it there); the default branch shows Compress and changes nothing else; outside the view branch the View tab is untouched |
| Popup.PopupSession.RestoreStaged | app.js:196-204 | the saved name and preset replace the fields when set; stored staged files are revived one for one and Compress is shown; staged files that are not an array change nothing more |
| Popup.PopupSession.SaveOnUnload | app.js:211-232 | an open archive is saved re-encoded with its sorted entries; otherwise staged files are stored with the form fields |
| Popup.PopupSession.RemoveStagedAt | app.js:279-285 | the list after `splice(idx, 1)`; a NaN index changes nothing |
| Popup.PopupSession.DropOnCompress | app.js:297-321 | dropped files are appended; else a fetched link's file is appended; else nothing changes |
| Popup.PopupSession.ChooseFiles | app.js:326-333 | a non-empty selection replaces the list |
| Popup.PopupSession.Compress | app.js:336-380 | no library or no files: nothing happens; otherwise the settings are merged into the record through `saveState` (the store becomes `CompressSettingsStore`, unchanged when the write fails), and, when the codec returns bytes, the archive at the preset's level is downloaded under the sanitised name; a failed settings write does not stop the packing |
| Popup.PopupSession.OpensZip | app.js:442-482 | the popup after `openZip`: nothing changes without the library; the session is cleared; undecodable bytes change nothing else; a decoded archive is opened, listed sorted, saved with its bytes and shown |
| Popup.PopupSession.DispatchesArchive | app.js:402-440 | the popup after an archive is dispatched: a ZIP as `OpensZip` with no download; RAR/7Z/TAR as one download; anything else refused; only the ZIP touches the store and the View tab |
| Popup.PopupSession.OpenZip | app.js:442-540 | without the ZIP library nothing changes; otherwise the saved session is cleared first; undecodable bytes change nothing else; otherwise the archive becomes open, is listed sorted, is saved with its bytes, and View is shown (`OpensZip`) |
| Popup.PopupSession.ShowArchive | app.js:448-482 | after decoding: open archive, listing, saved record, View shown, Reopen hidden, Extract shown |
| Popup.PopupSession.DispatchArchive | app.js:423-440 | a ZIP is opened exactly as `OpensZip` says and sends nothing; RAR/7Z/TAR are passed to the download sink; anything else is refused; neither of the latter touches the store or the View tab (`DispatchesArchive`) |
| Popup.PopupSession.DropArchive | app.js:402-421 | an empty drop changes nothing; otherwise the first dropped file is dispatched with the whole outcome of `DispatchArchive` |
| Popup.PopupSession.EntryAction | app.js:486-534 | Open saves the session and shows the file in a tab when its type allows, else downloads it; Download downloads it; a directory, missing entry or failed read changes nothing |
| Popup.PopupSession.ExtractAll | app.js:543-568 | the sink receives exactly the extraction downloads of the open archive, typed by `extMime`, and the count is the number of readable files; without an open archive nothing happens |
| Popup.PopupSession.ExtractEntries | app.js:551-566 | the loop appends exactly one download per readable entry, in order, and counts them |
| Popup.PopupSession.Clear | app.js:574-583 | no archive is open, the listing is empty, Compress is shown, and the record holds only `activeTab: compress` when the writes succeed |
| Viewer.PageMimeOfExt | public/main.js:31-44 | an extension gets the page table's type exactly when that table lists it, and `application/octet-stream` otherwise |
| Viewer.GetMimeType | public/main.js:29-45 | the page table's type exactly for its 10 extensions, `application/octet-stream` otherwise |
| Viewer.PageTableWithinPopupTable | public/main.js:31-43 | each extension of the page's table has the same type in the popup's table |
| Viewer.GetMimeTypeAgreesWithPopup | public/main.js:29-45 | every name gets the popup's type or the generic one |
| Viewer.PageLookupAsWritten | public/main.js:44 | the table lookup as written yields an inherited member exactly for `constructor` and `__proto__` |
| Viewer.PageLookupAsWrittenCorrectsOnlyInherited | public/main.js:44 | on every other extension the written lookup yields the corrected lookup's string |
| Viewer.GetMimeTypeAsWritten | public/main.js:29-45 | `getMimeType` as written yields an inherited member exactly when the name's extension is `constructor` or `__proto__` |
| Viewer.GetMimeTypeAsWrittenReturnsNonString | public/main.js:44 | any name ending in `.__proto__` or `.constructor`, `readme.__proto__` among them, gets no MIME string |
| Viewer.GetMimeTypeCorrectsOnlyInheritedNames | public/main.js:44 | the corrected lookup agrees with the written one everywhere else |
| Viewer.LevelFor | public/main.js:119-125 | `quick` gives 1, `maximum` gives 9, and everything else gives 6, each in both directions |
| Viewer.LevelForAgreesWithPopup | public/main.js:119-125 | the page and the popup map every preset to the same level |
| Viewer.Without | public/main.js:100 | the filtered list is no longer and no longer holds the file |
| Viewer.WithoutRemovesEveryCopy | public/main.js:100 | the filter removes every occurrence of the file and nothing else (as multisets) |
| Viewer.WithoutAppend | public/main.js:100 | the filter works piece by piece, so relative order is kept |
| Viewer.WithoutRemovesOnlyThatFile | public/main.js:100 | a file listed once is removed from its place, with the others in order |
| Viewer.WithoutAbsent | public/main.js:100 | removing a file that is not listed changes nothing |
| Viewer.EntryOf | public/main.js:196-197 | an entry records the name, the content and a size equal to its length |
| Viewer.Collect | public/main.js:191-199 | the loop collects at most one element per entry |
| Viewer.NonDirs | public/main.js:193 | the files of an archive are non-directory entries of it |
| Viewer.ListedEntries | public/main.js:197 | one element per file, each with the file's name and content length |
| Viewer.CollectStep | public/main.js:191-199 | one loop step: a directory is skipped, a failed read stops, and a file is pushed |
| Viewer.CollectListsEveryFile | public/main.js:187-199 | when every file reads, the entries are exactly the non-directory entries in key order |
| Viewer.CollectStopsAtFailedRead | public/main.js:195 | a failed read ends the listing with an error |
| Viewer.AcceptsDrop | public/main.js:176 | `name.toLowerCase().endsWith('.zip')`; `AcceptsDropIffZipSuffix` states it for every name |
| Viewer.AcceptsDropIffZipSuffix | public/main.js:176 | the drop guard accepts a name exactly when it ends in `.zip` in any case |
| Viewer.ZBoostPage.constructor | public/main.js:17-18 | the page starts with no files and no entries |
| Viewer.ZBoostPage.ChooseFiles | public/main.js:61-66 | a non-empty selection or drop replaces the list |
| Viewer.ZBoostPage.RemoveFile | public/main.js:98-102 | the list becomes the filter of the old list |
| Viewer.ZBoostPage.Compress | public/main.js:113-153 | an empty list produces no archive; otherwise the archive at the chosen level is downloaded as `ZBoost_archive.zip` |
| Viewer.ZBoostPage.ShowsArchive | public/main.js:185-230 | the page after loading bytes: no entries and the error when they do not decode; otherwise the files collected in key order until a read fails, and the error, empty or listed table |
| Viewer.ZBoostPage.LoadZipFile | public/main.js:185-230 | the page shows the archive (`ShowsArchive`): an undecodable archive leaves no entries and the error; otherwise the entries are the collected files and the table shows the error, empty or listed state accordingly |
| Viewer.ZBoostPage.CollectEntries | public/main.js:187-229 | the loop leaves exactly the collected files in `zipEntries`, shows the error after a failed read, and otherwise the empty or listed state |
| Viewer.ZBoostPage.DropZip | public/main.js:171-182 | a first dropped file ending in `.zip` in any case is loaded with the whole outcome of `LoadZipFile`; otherwise nothing changes |

## Left out

- DOM rendering is not modelled: markup, class toggles, meta texts, progress text, alerts and `renderCompressList`. Only the listing rows and the Reopen and Extract buttons are kept.
- The sizes shown use floating-point `toFixed` (`fmt` in app.js:7-11 and `formatSize` in public/main.js:21-26). They are not modelled.
- `chrome.runtime.sendMessage`, `window.open`, object URLs and their revocation timers become entries in the `sink`. background.js and server.js are not part of this model.
- The libarchive worker files are not part of this model.
- `fetch('/session')` and the login redirect in public/main.js are network code and are left out.
- The ZIP codec is opaque. Decoding, encoding, the DEFLATE level's effect and the progress callback are left out, and duplicate names passed to the encoder are left to it.
- Reading a Blob's or a File's bytes (`arrayBuffer()`) is taken to succeed. Reading an archive entry may fail.
- Storage calls fail only as their `ok` flags say. `chrome.runtime.lastError` is not modelled.
- Mutation of the object passed to `saveState` and `loadState` is not modelled; no caller reads it afterwards, so the methods work on values.
- The asynchronous `beforeunload` save is modelled as a method that runs to completion. Whether the browser lets it finish, and races between overlapping saves, are left out. So is the order in which the two start-up blocks (app.js:189-208 and 258-262) finish.
- `Text.ToLower`: case folding covers the ASCII letters only. `Text.CharOrderLe` compares characters, where JavaScript compares UTF-16 code units. The two agree on the Basic Multilingual Plane.
- `Popup.PopupSession.RestoreSettings`: a truthy saved `zipName` or `preset` that is not a string is treated as absent. The same holds in `Popup.PopupSession.RestoreStaged`, the compress branch of `Start`.
- `Popup.PopupSession.RestoreStaged`: a truthy saved `zipName` or `preset` that is not a string is treated as absent, where the code would copy it into the field.
- `Restore.RestoreZipState`: the saved `currentZipName` is read as a non-empty string (`Web.TextField`), where the code tests only truthiness. A truthy name that is not a string is declined here, where the code would restore it. The popup only ever saves a string. The same holds in `Restore.RestoreFromBlob`.
- The JavaScript empty array has three encodings here: `Paths([])`, `ByteArray([])` and `StoredFiles([])`. Each field is read only in the encoding the popup writes there. An empty array saved in another encoding gives a different outcome: `entries` as `ByteArray([])` makes the restore's listing fail and the restore give `false`, where the code lists zero rows and gives `true`; `compressFiles` as `Paths([])` stops the compress branch of `Popup.PopupSession.Start`, where the code revives no files and shows Compress. The popup never writes such records.
- `Session.Deserialize`: a truthy `currentZipData` that is not an array of numbers reads as no bytes. The popup never writes one.
- `Popup.PopupSession.RestoreZipState`: the listing built by a live restore has no Open/Download handlers, as in the code. The model records this by dropping `boundListing`. The stale rows' "click to reopen" handler is the file dialog and is not modelled.
- `Popup.PopupSession.EntryAction`: the Open and Download buttons act on the archive that is open in the popup. After a Clear, or with no archive open, a click does nothing.
- `Viewer.ZBoostPage.LoadZipFile`: the View/Open buttons of the listed entries only open a tab with the blob; they are not modelled.
- `Popup.DeliveryFor` and `Viewer.EntryOf` take the blob's type function as a parameter. The popup passes `Names.ExtMime` and the page passes `Viewer.GetMimeType`.
- File `type` normalisation by the browser is not modelled. A file's type is kept as given.

## Findings

| source | as written | input that shows it | evidently intended | confidence | as-written member | corrected member |
|---|---|---|---|---|---|---|
| app.js:42 | `mimes[ext] \|\| "application/octet-stream"` also finds the members every object inherits | an archive entry named `notes.constructor`: its type is the `Object` constructor, and the Open button's `mimeType.startsWith` throws | only the table's own extensions map to a type; everything else is `application/octet-stream` | not executed | Names.ExtMimeAsWrittenReturnsNonString | Names.ExtMimeCorrectsOnlyInheritedNames |
| public/main.js:44 | `mimeTypes[ext] \|\| 'application/octet-stream'` has the same inherited lookup | an archive entry named `readme.__proto__`: its blob is typed with `Object.prototype` turned into a string | only the table's own extensions map to a type | not executed | Viewer.GetMimeTypeAsWrittenReturnsNonString | Viewer.GetMimeTypeCorrectsOnlyInheritedNames |
| app.js:346 | the Compress button writes the loaded record straight to storage, bypassing `saveState`, so the Blob restored by `loadState` is stored as `{}` | an archive saved in the store, then Compress pressed: the bytes are lost and every later `activate` fails to save while the popup stays open; the record that cannot be restored outlives a restart only when the closing save (app.js:211-231, `Popup.PopupSession.SaveOnUnload`) does not run or does not finish, since that save rewrites the whole record | merge the settings through `saveState`, keeping the archive bytes; like every `saveState`, a failed write is swallowed and packing goes on | not executed | Session.CompressSettingsAsWrittenLosesArchive | Session.CompressSettingsKeepArchive |

The corrected definitions are the ones the rest of the model uses:

- `Names.ExtMime` and `Viewer.GetMimeType` look up only the table's own keys, through `Names.MimeOfExt` and `Viewer.PageMimeOfExt`.
- `Popup.PopupSession.Compress` writes through `Session.CompressSettingsStore`.

The as-written behaviour is kept beside each of them:

- `Names.ExtMimeAsWritten` and `Viewer.GetMimeTypeAsWritten`, built on `Names.LookupAsWritten` and `Viewer.PageLookupAsWritten`.
- `Session.CompressSettingsStoreAsWritten`, with its consequences `Session.ActivateStuckAfterCompressAsWritten` and `Restore.ArchiveUnrecoverableAfterCompressAsWritten`.
