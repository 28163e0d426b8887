# Library manager: remote-backed cache and approval-gated OCR

This project models the core of a Streamlit book-library manager, in two
versions of one script. Both keep a session-wide cache of the files in a
Supabase storage bucket. The bucket is a map from file name to bytes.

- **app.py** caches CSV "libraries". Each library is keyed by its file name
  with every ".csv" removed. The script loads the bucket, uploads CSV files
  with a collision warning, and shows the chosen library in three row bands.
- **main.py** caches ".csv" files as tables and ".txt" files as text, keyed
  by the full file name. It uploads CSV files. It also runs images through
  an external OCR service. A pending image waits in one session slot until
  the user presses "Approved". Its transcript is then stored as a ".txt" file
  and selected.

Each user interaction reruns the whole script. Here every step of a pass is a
method on a session class. `Pass` composes the steps in script order.
Whatever the outside world supplies is an input to the methods:

- the answer of the bucket's list call (`Storage.Listing`);
- whether a write goes through (`writeOk`);
- the OCR reply (`Ocr.OcrReply`);
- the CSV parser (`Csv.Parser`, a function from bytes to `Malformed` or a
  table with a row count);
- button presses and uploader contents.

Downloads read the bucket's map. A listed name with no stored object is a
failed download. Message calls become `warnings`/`errors` counters.

Modules: `Wrappers`, `Storage`, `Csv`, `Dicts` (Python's insertion-ordered
dict), `Names` (file-name helpers), `FileCache` and `FileSession` (main.py),
`Ocr` (main.py's OCR reply check and approval state machine), `LibraryCache`
and `LibrarySession` (app.py).

The properties proved:

- Loads keep exactly the recognised listed files. A failure stops the loop
  and returns what was gathered so far. For app.py, the last listed file of a
  library wins.
- The collision warning fires exactly when the library name is among the
  names derived from the listed ".csv" files.
- An upload that is cached changes the remote map and one cache entry. In
  main.py that is a parsed table, and the upload also advances the CSV
  uploader key. In app.py it is a parsed table of at least one row. An
  upload that is not cached reports one error; it may still have been
  written, as app.py does with a table of no rows. In app.py a collision
  adds one warning.
- The OCR service is never called without an approval, and a pending image
  is never replaced. An image that waits for its approval and is then
  processed successfully is sent exactly once.
- Each pass's whole new state is stated: the bucket, the cache, the
  selection, the uploader keys and the counters. After a main.py pass that
  does not rerun, the selection is a cached file, or nothing when the cache
  is empty.
- The three bands are contiguous and cover all rows. Each band holds ⌊n/3⌋
  or ⌈n/3⌉ rows.

### Where the code and the system's design differ (the model follows the code)

- **OCR failure.** The design discards the pending image when an OCR request
  fails. main.py keeps the image and keeps `approved` set, because the
  deletion sits on the success path (main.py:121, 128-129). Every later pass
  with a key present then calls the service again without a new approval
  (`Ocr.FailedRequestIsRetried`).
- **Failed list call.** The design keeps the old cache when the list call
  fails. In both scripts the refresh button then replaces the cache with an
  empty dict (main.py:134, app.py:62; `FileSession.Session.Refresh`,
  `LibrarySession.Session.Refresh`).
- **Per-file failures.** The design skips a failing file and goes on. The
  code stops at the first failing download or parse and keeps the earlier
  entries (`FileCache.GatherFailedKeepsPrefix`,
  `LibraryCache.GatherFailedKeepsPrefix`). In main.py a download of any
  non-empty name happens before the extension test, so an unrecognised file
  can also end the load.
- **Collision test.** The design checks collisions against the remote store
  and the cache. app.py checks only the listed ".csv" files. main.py does
  not check at all.
- **Selection after an upload.** The design selects an uploaded file.
  main.py's `upload_csv` (main.py:55-68) never sets `selected_file`, so the
  selection stays where it was (`FileSession.Session.UploadCsv`). app.py has no
  selection state.
- **Empty uploads.** In app.py the bytes are written before the parse and
  the empty check. An empty or unparsable CSV is therefore stored in the
  bucket but not cached by the upload. The next load does not have the empty
  check: it caches a zero-row library like any other
  (`LibrarySession.ReloadAgreesWithUpload` holds for any parsed table). An
  unparsable one makes every later load fail at it and skip the files listed
  after it (`LibrarySession.UnparsableUploadStopsReload`). main.py has no
  empty check and caches a zero-row table.

## Model

| member | source | states |
|---|---|---|
| Storage.Download | main.py:42 | a download yields the stored bytes exactly when the name is stored |
| Storage.Bucket.Upload | main.py:59 | an upload stores the bytes under the name and leaves every other object alone |
| Dicts.Empty | main.py:34 | the empty dict is well formed and maps nothing |
| Dicts.Put | main.py:46 | dict assignment keeps the dict well formed; a new key goes last and an existing key keeps its place |
| Dicts.EmptyIffNoKeys | main.py:155 | a dict is falsy exactly when it maps nothing |
| Names.EndsWith | main.py:44 | `s.endswith(suffix)` holds exactly when `s` is some string followed by `suffix` |
| Names.RemoveAll | app.py:17 | only a length bound (never lengthens); what it removes is stated by `Names.RemoveAllLeading`, `Names.RemoveAllKeeps` and `Names.InnerOccurrenceRemoved` |
| Names.LibraryName | app.py:31 | only a length bound; its meaning is stated by `Names.PlainLibraryName`, `Names.DottedLibraryName`, `Names.TwoFilesOneLibrary` and `Names.InnerOccurrenceRemoved` |
| Names.RemoveAllTrailing | app.py:17 | a trailing pattern whose first character is absent from the rest is removed as a suffix |
| Names.RemoveAllAfterCsvFree | app.py:17 | after a stem that contains no ".csv", dotted or not, the next ".csv" is removed and the rest is scanned on |
| Names.PlainLibraryName | app.py:17 | for a stem that contains no ".csv", the library name of stem + ".csv" is the stem |
| Names.DottedLibraryName | app.py:17 | a dotted stem is kept whole: "my.books.csv" gives library "my.books" |
| Names.RemoveAllLeading | app.py:17 | a leading occurrence is removed and scanning resumes after it |
| Names.RemoveAllKeeps | app.py:17 | a character that cannot start the pattern is kept |
| Names.TwoFilesOneLibrary | app.py:17-20 | "a.csv" and "a.csv.csv" both derive library "a", because every ".csv" is removed |
| Names.RemoveAllAfterPlainPrefix | app.py:17 | an occurrence after a plain prefix is removed and the rest is scanned on |
| Names.InnerOccurrenceRemoved | app.py:17 | an inner ".csv" after a stem free of ".csv" is removed too, not only a suffix |
| Names.LastDot | main.py:111 | the split point is a '.', with no '.' after it; there is none exactly when the name has no '.' |
| Names.TxtName | main.py:111 | the transcript name ends in ".txt" and is the image name up to its last '.', or the whole name when there is none, plus ".txt" |
| Names.LastDotBeforeExtension | main.py:111 | the last '.' of stem + "." + ext is the one before a dot-free ext |
| Names.TxtNameReplacesExtension | main.py:111 | the transcript name replaces the last extension by ".txt" |
| Names.TxtNameOneDot | main.py:111 | "shelf.jpg" gives "shelf.txt" |
| Names.TxtNameTwoDots | main.py:111 | "scan.2024.png" gives "scan.2024.txt": only the last extension is replaced |
| Names.TxtNameNoDot | main.py:111 | "shelf", which has no '.', gives "shelf.txt" |
| FileCache.Recognised | main.py:44-47 | a kept name ends in ".csv" or ".txt", so it is never the empty name |
| FileCache.Fetchable | main.py:39-49 | the empty name is skipped; any other name that is not a ".csv" gets past the loop exactly when it is stored, whatever its extension |
| FileCache.Decoded | main.py:44-49 | a ".csv" is kept as its parsed frame (if it parses) and a ".txt" as its bytes |
| FileCache.Visit | main.py:39-49 | one iteration raises exactly when its name is non-empty and not downloadable, or is a ".csv" that does not parse |
| FileCache.Gather | main.py:38-49 | the gathered dict is always well formed |
| FileCache.Load | main.py:35-52 | a load, failed or not, returns a well-formed dict |
| FileCache.FailureStops | main.py:35-50 | after the first exception no later name is visited |
| FileCache.LoadFiles | main.py:32-52 | the loop returns exactly the dict and failure flag of the load |
| FileCache.GatherSucceedsIff | main.py:38-49 | a load succeeds exactly when every listed name can be fetched and, for a ".csv", parsed |
| FileCache.GatherKeepsRecognised | main.py:38-49 | after a successful load the keys are exactly the listed ".csv"/".txt" names, each holding what its stored bytes decode to |
| FileCache.GatherFailedKeepsPrefix | main.py:35-52 | a failed load returns the entries gathered before the first failing name, and every earlier name was fetched |
| FileCache.MirrorsStore | main.py:32-52 | when the listing names exactly the stored objects and all load, the cache holds one decoded entry per recognised object, in any listing order |
| Ocr.ExtractText | main.py:78-80 | the reply yields a text exactly when it arrived, is not flagged as errored, and carries a parsed text |
| Ocr.Admit | main.py:150-152 | a pending image is never replaced; an image offered to the empty slot enters it with the approval cleared |
| Ocr.Process | main.py:85-122 | without a request nothing changes; a request leaves `approved` set; completion empties the slot and failure keeps the image |
| Ocr.Requests | main.py:85-103 | no request without a pending image and a key, none without an approval or a press; a press with both always requests |
| Ocr.Step | main.py:83-153 | a call needs the key, an image, and a press or a carried approval; afterwards `approved` is set; a pending image is never swapped and leaves only through a completed call |
| Ocr.Run | main.py:83-153 | a sequence of passes makes at most one OCR request per pass |
| Ocr.RunAppend | main.py:83-153 | running two sequences of passes in turn is running their concatenation |
| Ocr.PendingStays | main.py:94-99 | a pending image without approval stays pending and unsent for as long as nobody presses "Approved" |
| Ocr.NoRequestWithoutApproval | main.py:94-103 | from a state with no approved pending image, passes without a press never call the OCR service |
| Ocr.NothingPendingNoRequest | main.py:85 | with the slot empty and no image offered, no pass calls the service, whatever is pressed |
| Ocr.AdmittedAndWaiting | main.py:94-152 | an image admitted to the empty slot and left without a press is pending, unapproved and unsent |
| Ocr.ApprovedAndDone | main.py:85-122 | a pending image approved with the key set and processed successfully is sent once; later passes with no new image send nothing |
| Ocr.ExactlyOnceOnSuccess | main.py:85-153 | an image admitted in one pass, left waiting through any passes without a press, then approved and processed successfully, is sent exactly once and leaves the slot, even if "Approved" is pressed again later |
| Ocr.ExactlyOnceApprovedOnArrival | main.py:85-153 | an image admitted and approved in the same pass and processed successfully is sent exactly once |
| Ocr.FailedRequestIsRetried | main.py:94-129 | after a failed approved request, every later pass with a key calls the service again with no new press |
| FileSession.IndexOf | main.py:165 | `list.index` gives the first position holding the element |
| FileSession.DefaultIndex | main.py:163-167 | the menu index is a valid position, at the selection when it is cached, otherwise 0 |
| FileSession.Normalised | main.py:163-168 | the normalised selection is a cached file, or nothing exactly when there are none; it keeps a valid selection and falls back to the first file |
| FileSession.DefaultIndexShowsSelection | main.py:163-175 | the menu opens on the normalised selection |
| FileSession.Completed | main.py:103-112 | a completed request had a write that went through and a reply that arrived, was not flagged as errored and carried a text |
| FileSession.TranscriptCachedAsText | main.py:111-118 | after a successful reload that lists the transcript, the transcript is cached as text with its stored bytes |
| FileSession.Session.constructor | main.py:21-28 | a new session has no files, no approval, an empty slot, no selection and zero counters |
| FileSession.Session.Refresh | main.py:133-134 | refresh replaces the whole cache by the load's result, reports one error on failure, and changes nothing else |
| FileSession.Session.UploadCsv | main.py:55-68 | the bucket gains the file when the write goes through; only a parsed file sets its one cache entry and advances the uploader key by 1; every failure reports one error |
| FileSession.Session.AdmitImage | main.py:150-152 | the slot follows `Ocr.Admit` and nothing else changes |
| FileSession.Session.ProcessImage | main.py:83-129 | the service is called exactly when `Ocr.Requests` holds; completion writes the transcript, reloads, selects it, empties the slot and advances the image key; otherwise the bucket, files, selection and key are unchanged |
| FileSession.Session.LoadIfEmpty | main.py:155-156 | an empty cache is replaced by a load; a non-empty one is kept |
| FileSession.Session.NormaliseSelection | main.py:160-168 | afterwards the selection is a cached file or nothing when there are none, and the menu index points at it |
| FileSession.Session.Pass | main.py:133-168 | a pass reruns exactly after refresh or a stored and parsed upload. Refresh reloads and writes nothing. A cached upload writes the file, sets its entry and advances the CSV key. Otherwise: a failed upload counts one error and may still write; the slot takes one `Ocr.Step`; a completed request writes the transcript, reloads, selects it and advances the image key; an empty cache is loaded; the selection is normalised, and bucket, keys, warnings and errors are all given |
| LibraryCache.IsCsv | app.py:16 | a name is read exactly when it ends in ".csv"; the non-empty test adds nothing |
| LibraryCache.Fetchable | app.py:14-20 | other names are never downloaded and never fail; a listed ".csv" with no stored object fails |
| LibraryCache.Visit | app.py:14-21 | one iteration raises exactly when a ".csv" cannot be downloaded or parsed; otherwise it sets the library entry or leaves the map alone |
| LibraryCache.FailureStops | app.py:10-24 | after the first exception no later file is visited |
| LibraryCache.Gather | app.py:14-20 | whether or not the loop fails, every library it holds is named after a listed ".csv" |
| LibraryCache.Load | app.py:8-24 | a failed list call gives a failed load with no libraries; every loaded library is named after a listed ".csv" |
| LibraryCache.LoadLibraries | app.py:8-24 | the loop returns exactly the libraries and failure flag of the load |
| LibraryCache.GatherSucceedsIff | app.py:14-20 | a load succeeds exactly when every listed ".csv" can be downloaded and parsed |
| LibraryCache.ExistingNames | app.py:36 | only a length bound; its contents are stated by `LibraryCache.ExistingNamesIff` |
| LibraryCache.ExistingNamesIff | app.py:36 | a name is derived exactly when some listed ".csv" has it as its library name |
| LibraryCache.Collides | app.py:37 | an upload collides exactly when some listed ".csv" derives the same library name |
| LibraryCache.GatherKeysAreExistingNames | app.py:15-20 | after a successful load the libraries are exactly the names the collision test derives |
| LibraryCache.LastWriterWins | app.py:15-20 | a library holds the table of the last listed ".csv" file deriving its name |
| LibraryCache.UnparsableStopsLoad | app.py:14-24 | a listed ".csv" whose bytes do not parse fails the load, and no later file is loaded |
| LibraryCache.GatherFailedKeepsPrefix | app.py:10-24 | a failed load returns what the files before the first failing one loaded |
| LibrarySession.BandBounds | app.py:81-90 | 0 ≤ n/3 ≤ 2n/3 ≤ n, and each band has ⌊n/3⌋ or ⌈n/3⌉ rows, the larger ones last |
| LibrarySession.Bands | app.py:81-90 | the three slices concatenate to the rows, and each has ⌊n/3⌋ or ⌈n/3⌉ rows with sizes nondecreasing |
| LibrarySession.TenRows | app.py:81-90 | ten rows split at 3 and 6 |
| LibrarySession.ReloadAgreesWithUpload | app.py:15-51 | the next load reads back the uploaded table when the file is the last listed one of its library, a table of no rows included |
| LibrarySession.UnparsableUploadStopsReload | app.py:15-47 | a stored upload that does not parse fails every later load that lists it, and the files after it are not loaded |
| LibrarySession.Session.constructor | app.py:111-112 | a new session has no libraries |
| LibrarySession.Session.Refresh | app.py:61-62 | refresh replaces all libraries by the load's result and reports one error on failure |
| LibrarySession.Session.Upload | app.py:27-58 | warns exactly on a collision; writes whenever listing and write succeed; caches only a non-empty table, under the library name, changing no other library; every failure reports one error |
| LibrarySession.Session.LoadIfEmpty | app.py:70-71 | an empty cache is replaced by a load; a non-empty one is kept |
| LibrarySession.Session.Pass | app.py:61-71 | a pass reruns exactly after refresh or a cached upload. Refresh reloads and writes nothing. An upload warns on a collision and is written when listing and write succeed. A cached upload sets its library and counts no error. Otherwise a failed upload counts one error, an empty cache is loaded and a non-empty one kept |

## Left out

- Rendering: the Streamlit widgets, images, tables, text areas and menus. The
  one exception is the three-band arithmetic. Messages are counted as
  warnings and errors. Success and info messages (such as app.py:21) are not
  modelled.
- The rerun and stop control flow. `Pass` returns a `rerun` flag where the
  script calls `st.rerun()`.
- The radio menu's return value at main.py:171-176. Streamlit returns one of
  the offered files, so the selection stays valid.
- The mis-indented viewer at main.py:178-187, which does not parse.
- `@st.cache_data(ttl=300)` and `st.cache_data.clear()`. These are wall-clock
  memoisation, so every load reads the bucket as it is now.
- The Supabase client:
  - the list call's answer is an input;
  - the response-shape normalisation (main.py:37, app.py:12) is not modelled;
  - listing limits are not modelled;
  - a transport failure during a download is modelled only as a listed name
    with no stored object;
  - whether the client refuses to overwrite an existing object is folded
    into `writeOk`.
- Within one pass, every list call gets the same answer and every write the
  same `writeOk`.
- The HTTP call to the OCR service and JSON decoding. The reply is an input.
- Ocr.ExtractText: `IsErroredOnProcessing` is taken as an optional boolean,
  not as an arbitrary JSON value tested for truthiness.
- pandas CSV parsing is the `parse` parameter, and a frame is only its row
  count. app.py's two error messages for a bad CSV (`EmptyDataError` and any
  other error) are counted as one error each.
- UTF-8 decoding of ".txt" files and encoding of the transcript. Text is
  kept as bytes.
- `st.image` at main.py:87, which may raise on an undecodable image before
  the key check.
- The credential inputs and the halt when they are missing (main.py:9-15,
  app.py:94-103). The OCR key is a string input. app.py's use of the session
  state and the client before they are defined (app.py:70, 106-112) is
  modelled as if both were initialised.
- app.py's uploader has no key, so after a cached upload and rerun the same
  file is offered again. The model takes each pass's uploader content as an
  input and does not analyse such repetition.
