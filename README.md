# Document library and chat history: a Dafny model

This project models the logic of a Next.js chat and document-library front end. It has four parts:

- **The upload endpoint and its metadata store** (`POST` in `src/app/api/documents/upload/route.ts`). The store is a JSON array in `metadata.json`, read and rewritten whole, with one binary file per upload stored as `{id}-{name}`. `POST` validates the form field, writes the binary, loads the list, appends the new record and saves the list. It answers 200, 400 or 500.
- **The client-side document list** (`useDocuments`, and the same code inline in `src/app/documents/page.tsx`). It starts from three static records. It accepts only a PDF selection and runs a simulated upload whose progress timer ends by putting the new record at the front of the list. Deletion filters by id once the user confirms.
- **The chat history** (`useCustomChat`, and the same logic inline in `src/app/components/chat.tsx`, which declares it in a different order and talks to a different chat endpoint). It covers new chats, titles taken from the first user message, the effect that writes the current messages into the active chat, the mount effect, and loading a past chat.
- **`formatFileSize`** (defined three times, identically). It formats sizes in bytes, KB or MB. It is modelled exactly in integers: dividing by 1024 or 1048576 is exact for a JavaScript Number, and `Number.prototype.toFixed` (section 21.1.3.3 of ECMA-262) picks the nearest hundredth and takes the larger one on a tie. So 1048575 bytes renders as "1024.00 KB".

The upload endpoint appends to the end of the server list. The client hook prepends to the front of its own list. Both orders are modelled as written.

Files:

- `js.dfy`: module `Js`. It defines JavaScript strings as sequences of UTF-16 code units, `Array.prototype.find` as `FindFirst`, and integer-to-decimal rendering.
- `size_format.dfy`: module `SizeFormat`.
- `upload_route.dfy`: module `UploadRoute`. Its class `DocumentStore` owns the metadata file and the binaries.
- `documents_hook.dfy`: module `DocumentsHook`. Its class `DocumentsState` has the hook's fields plus its running timers.
- `chat_hook.dfy`: module `ChatHook`. Its class `ChatState` has `activeChat`, `chatHistory` and `messages`.

Everything outside the code is a parameter of the operation that depends on it:

- **File-system results.** Each write ends in one of three ways: `Written`, `Refused`, or `Interrupted` (part-way, leaving a truncated file).
- **Directory and form parsing.** Whether `mkdir` succeeded and whether the body parsed as form data are parameters.
- **Generated values.** Uuids, `Date.now()` ids and locale-formatted dates are parameters.
- **Simulated progress.** The random progress increment is a parameter in [0, 15).
- **Timers.** Which timer fires next is a parameter.
- **Dialogs.** The answer to `window.confirm` is a parameter. `alert` becomes a returned flag.

The metadata file itself is one of four values: missing, corrupt (unreadable or not JSON), JSON that is not an array, or an array of records. In the third case the code's `metadata.push` throws. The model covers it: the response is 500, after the binary has been written.

The two form-field cases follow JavaScript truthiness:

- An empty text field in place of a file is falsy, so the response is "No file provided".
- A non-empty text field has no `type`, so the response is "Only PDF files are allowed".

A chat id of `""` counts as no active chat.

Two behaviours a reader may not expect:

- The list endpoint (`src/app/api/documents/route.ts:27-30`) returns the three static records, not the contents of `metadata.json`.
- The client's delete (`src/hooks/useDocuments.tsx:107-113`) only filters its own state and never calls the server.

## Model

| member | source | states |
|---|---|---|
| `Js.FindFirst` | src/hooks/useCustomChat.tsx:81 | The index found holds a match and every earlier element does not; None exactly when nothing matches (`find` returns the first match) |
| `Js.FindFirstAppend` | src/hooks/useCustomChat.tsx:48 | Once some element matches, appending more elements does not change what `find` returns |
| `Js.NatToString` | src/app/api/documents/upload/route.ts:94 | The decimal text of a count is non-empty, all digits, and has no leading zero unless the count is 0 |
| `Js.DecimalRoundTrip` | src/app/api/documents/upload/route.ts:94 | Reading back the decimal text of `bytes` gives `bytes` |
| `SizeFormat.ToFixed2` | src/hooks/useDocuments.tsx:65-66 | toFixed(2)'s text is at least four characters with the point before the last two |
| `SizeFormat.ToFixed2Digits` | src/hooks/useDocuments.tsx:65-66 | Every character of toFixed(2)'s text but the point is a digit, the integer part has no superfluous leading zero, and the digits without the point denote n: the text of n / 100 reads back as n hundredths |
| `SizeFormat.HundredthsIsFixed2Choice` | src/app/documents/page.tsx:69-70 | `(num*100 + den/2) / den` is the integer toFixed(2) chooses: nothing is closer to num/den in hundredths, and on a tie it is the larger |
| `SizeFormat.ToFixed2Parts` | src/hooks/useDocuments.tsx:65-66 | toFixed(2)'s output (digits padded to three, point before the last two) is the integer part, ".", and the two hundredths digits |
| `SizeFormat.FormatFileSize` | src/app/api/documents/upload/route.ts:93-97 | The unit the text ends with names the band: " bytes" exactly below 1024, " KB" exactly from 1024 below 1048576, " MB" exactly from 1048576 on |
| `SizeFormat.FormatFileSizeBands` | src/app/api/documents/upload/route.ts:93-97 | Below 1024: the decimal count and " bytes". Below 1048576: the toFixed(2) choice for bytes/1024 and " KB". Otherwise the choice for bytes/1048576 and " MB" (the same bands hold for the copies at useDocuments.tsx:63-67 and page.tsx:67-71) |
| `SizeFormat.FormatFileSizeBytesExample` | src/hooks/useDocuments.tsx:64 | 512 bytes is written "512 bytes" |
| `SizeFormat.FormatFileSizeKbExample` | src/hooks/useDocuments.tsx:65 | 2048 bytes is written "2.00 KB" |
| `SizeFormat.FormatFileSizeMbExample` | src/hooks/useDocuments.tsx:66 | 3145728 bytes is written "3.00 MB" |
| `SizeFormat.FormatFileSizeTopOfKbBand` | src/hooks/useDocuments.tsx:65-66 | 1048575 bytes, the last size in the KB band, rounds up to "1024.00 KB" instead of being written in MB |
| `UploadRoute.LoadMetadata` | src/app/api/documents/upload/route.ts:12-23 | A missing file and an unreadable or unparseable file both load as the empty list; an array loads as itself; only non-array JSON yields a value without `push` |
| `UploadRoute.ValidateUpload` | src/app/api/documents/upload/route.ts:41-50 | Accepted exactly when the field is a file whose type is exactly "application/pdf", and then it is that file. No field or an empty text field gives 400 "No file provided". Every other rejection is 400 "Only PDF files are allowed" |
| `UploadRoute.StoredFileName` | src/app/api/documents/upload/route.ts:53-54 | The stored name is the id, "-", and the original name, each recoverable from it |
| `UploadRoute.StoragePath` | src/app/api/documents/upload/route.ts:55 | The path is the documents directory, "/", and the file name, which can be read back from it |
| `UploadRoute.NewDocument` | src/app/api/documents/upload/route.ts:71-77 | The record carries the new id, the original name, the formatted size and the time; its path lies in the documents directory and its file name starts with the id |
| `UploadRoute.StoragePathsDistinct` | src/app/api/documents/upload/route.ts:53-55 | Two records stored under `{docsDir}/{id}-{name}` with different uuid-length ids and names without "/" have different paths |
| `UploadRoute.PostKeepsStoreConsistent` | src/app/api/documents/upload/route.ts:53-80 | If the records the next load returns have distinct ids, sit at `{docsDir}/{id}-{name}` and point at complete binaries, then after an accepted upload of a file whose name has no "/", under a fresh uuid, they still do, whichever way the binary write and the metadata save end |
| `UploadRoute.StoredFileNameInjective` | src/app/api/documents/upload/route.ts:53-55 | With ids of one length (uuids), different (id, name) pairs never share a stored file name |
| `UploadRoute.AppendFreshKeepsIdsDistinct` | src/app/api/documents/upload/route.ts:79 | Appending a record whose id is fresh keeps ids unique across the saved list |
| `UploadRoute.UploadKeepsRecordsBacked` | src/app/api/documents/upload/route.ts:62-80 | After a completed binary write and an append, every record, old and new, points at a completely written binary |
| `UploadRoute.InterruptedWriteKeepsRecordsBacked` | src/app/api/documents/upload/route.ts:62-67 | A binary write cut short at a path no record uses leaves an orphaned partial file and every record still backed |
| `UploadRoute.InterruptedSaveLosesRecords` | src/app/api/documents/upload/route.ts:26-32 | A metadata save cut short leaves a file the next load reads as the empty list |
| `UploadRoute.DocumentStore.SaveMetadata` | src/app/api/documents/upload/route.ts:26-33 | Reports success exactly when the write completes; the file then holds the list; a refused write leaves it unchanged, an interrupted one leaves it corrupt |
| `UploadRoute.DocumentStore.WriteBinary` | src/app/api/documents/upload/route.ts:62-67 | Reports success exactly when the write completes; only the target path changes |
| `UploadRoute.DocumentStore.Post` | src/app/api/documents/upload/route.ts:35-90 | A failed mkdir or form read gives 500 and a validation failure gives its 400; in each case no file is touched. Otherwise the binary goes to `{docsDir}/{id}-{name}` first. If that write fails, or the metadata is not an array, the response is 500 and the metadata is unchanged. If not, the metadata is saved as the loaded list followed by exactly one record (id, original name, formatted size, time, path). The response is 200 with that record if the save completes, else 500 "Failed to upload file". A consistent store stays consistent under a fresh uuid when the file name has no "/" |
| `DocumentsHook.StaticDocuments` | src/hooks/useDocuments.tsx:12-31 | Three records with pairwise distinct ids, the last two sharing a name (same list at page.tsx:16-35) |
| `DocumentsHook.WithoutId` | src/hooks/useDocuments.tsx:112 | The filtered list is no longer than the original, and no record left has the deleted id |
| `DocumentsHook.WithoutIdMembers` | src/app/documents/page.tsx:116 | A record is in the filtered list exactly when it was in the list and its id differs |
| `DocumentsHook.WithoutIdAppend` | src/hooks/useDocuments.tsx:112 | The filter distributes over concatenation, so the records that remain stay in their original order |
| `DocumentsHook.WithoutAbsentId` | src/hooks/useDocuments.tsx:112 | Deleting an id no record has leaves the list unchanged |
| `DocumentsHook.WithoutPresentId` | src/app/documents/page.tsx:116 | With distinct ids, deleting the id at position k yields the list without position k, and nothing else changes |
| `DocumentsHook.DeleteUndoesPrepend` | src/hooks/useDocuments.tsx:93-112 | Deleting the record an upload just prepended (with a fresh id) restores the list from before the upload |
| `DocumentsHook.NewDocument` | src/hooks/useDocuments.tsx:81-90 | The record a finished upload adds carries the new id, the file's name, its formatted size and the date (page.tsx:85-94) |
| `DocumentsHook.DocumentsState.constructor` | src/hooks/useDocuments.tsx:34-38 | Starts with the static list, not uploading, progress 0, no current file, no timers |
| `DocumentsHook.DocumentsState.HandleFileChange` | src/hooks/useDocuments.tsx:49-61 | No file changes nothing. A first file that is not exactly "application/pdf" raises the alert and changes nothing. A PDF sets the current file, sets uploading, resets progress to 0 and starts one interval for that file (same code at page.tsx:53-65) |
| `DocumentsHook.DocumentsState.SimulateUpload` | src/hooks/useDocuments.tsx:69-74 | Uploading is set, progress is 0, and one interval for the file is added |
| `DocumentsHook.DocumentsState.Tick` | src/hooks/useDocuments.tsx:74-104 | Progress stays within [0, 100]. Below 100 the increment is added. At 100 or more it reads exactly 100, that interval stops, and one completion with the file's name and formatted size is scheduled (page.tsx:78-108) |
| `DocumentsHook.DocumentsState.Complete` | src/hooks/useDocuments.tsx:92-98 | Prepends exactly the scheduled record before all earlier ones. Uploading becomes false, the current file null, and the file input (if mounted) "" (page.tsx:96-102) |
| `DocumentsHook.DocumentsState.HandleDelete` | src/hooks/useDocuments.tsx:107-113 | Unconfirmed: the list is unchanged. Confirmed: the list is filtered by the id (page.tsx:111-117) |
| `ChatHook.NewChatTitle` | src/hooks/useCustomChat.tsx:37 | "New Chat " followed by the canonical decimal of the history length plus 1: digits only, no leading zero, denoting that number |
| `ChatHook.Truncated` | src/app/components/chat.tsx:64-66 | Content longer than 20 code units gives its first 20 then "..." (length 23). Otherwise the content verbatim |
| `ChatHook.TitleFromMessages` | src/hooks/useCustomChat.tsx:47-56 | With a user message, the truncated content of the first one. With none, "New Chat " and the history length plus 1 (same code at chat.tsx:60-69) |
| `ChatHook.TitleStableUnderAppend` | src/app/components/chat.tsx:61 | Once a user message exists, appending more messages does not change the title |
| `ChatHook.WithActiveUpdated` | src/hooks/useCustomChat.tsx:61-67 | Length, order and every id are kept. Entries with the active id get the new messages and title; every other entry is unchanged |
| `ChatHook.UpdateAbsentIsIdentity` | src/app/components/chat.tsx:49-55 | If no entry has the active id, the history is unchanged |
| `ChatHook.UpdateIdempotent` | src/app/components/chat.tsx:50-54 | Running the update twice with the same messages and title equals running it once |
| `ChatHook.PrependFreshKeepsIdsDistinct` | src/hooks/useCustomChat.tsx:34-41 | A new chat with a fresh id keeps chat ids unique |
| `ChatHook.ChatState.constructor` | src/hooks/useCustomChat.tsx:11-12 | No active chat, an empty history and no messages on screen |
| `ChatHook.ChatState.SetMessages` | src/hooks/useCustomChat.tsx:15 | The messages on screen become those the stream supplies |
| `ChatHook.ChatState.HandleNewChat` | src/hooks/useCustomChat.tsx:33-44 | Prepends one chat titled "New Chat n+1" with no messages, makes it active and clears the messages (chat.tsx:33-44) |
| `ChatHook.ChatState.SyncHistory` | src/hooks/useCustomChat.tsx:59-69 | No-op without a (truthy) active chat or without messages. Otherwise the history is the active-id update with the current messages and their title (chat.tsx:47-57) |
| `ChatHook.ChatState.Mount` | src/hooks/useCustomChat.tsx:72-76 | On an empty history: exactly one chat, "New Chat 1", and it is active. Otherwise nothing changes (chat.tsx:72-76) |
| `ChatHook.ChatState.LoadChat` | src/hooks/useCustomChat.tsx:79-85 | The id always becomes active. Messages become those of the first chat with that id, and are unchanged if there is none (chat.tsx:79-85) |

## Left out

- Rendering (JSX), sidebar toggling, auto-scroll, `handleFileSelect` (a click on the hidden input) and the presentational components: they have no logic to model.
- `src/app/api/documents/route.ts` returns a fixed constant. The server delete endpoint `src/app/api/documents/[id]/route.ts` is not part of this model.
- File-system calls (`mkdir`, `writeFile`, `readFileSync`, `existsSync`, `writeFileSync`), `Buffer`, `FormData` and JSON (de)serialisation are foreign calls: only their outcome and the resulting list are modelled. The elements of a parsed metadata array are taken to be records; arrays of other JSON values are not distinguished.
- UploadRoute.StoragePath: assumes POSIX path semantics (only "/" separates segments; on Windows `path.join` also splits at `\`, so a name such as `x\..\a.pdf` collides just as `x/../a.pdf` does, and the "/"-free restriction below no longer suffices); it joins with "/" and does not model `path.join` normalisation of names containing separators or dot segments.
- UploadRoute.PostKeepsStoreConsistent: promises consistency only for file names without "/". With such a name `path.join` can resolve the stored path to another file of the directory: two uploads named "x/../a.pdf" share `{docsDir}/a.pdf`, so the second write overwrites (or, cut short, truncates) the first record's binary, and a PDF named "x/../metadata.json" overwrites the metadata file, so the next load reads [] and earlier records are lost.
- UploadRoute.DocumentStore.Post: its consistency `ensures` carries the same restriction to file names without "/", for the same reason.
- `uuidv4`, `Date.now()`, `toLocaleString` and `toLocaleDateString` are parameters: their formats and uniqueness are not modelled, so uniqueness of ids appears only as a hypothesis of the lemmas.
- `Math.random`, `setInterval` and `setTimeout`: the increment is a parameter in [0, 15), and timer firing order is the caller's choice of index; timing itself is not modelled.
- DocumentsHook.DocumentsState.Tick: progress is a `real`, so the IEEE-754 rounding of `prev + Math.random() * 15` is not modelled; the bounds and the 100 cut-off do not depend on it.
- React scheduling: effects are methods the caller invokes after a change, state is read as current rather than through possibly stale closures, and an updater that React may call twice is called once.
- The `useChat` streaming API: its messages reach the model only through `SetMessages`; messages are reduced to role and content. Which chat endpoint it talks to (`api/ex1` in the hook, `api/ex4` in `src/app/components/chat.tsx`) does not affect the history logic.
- `formatFileSize` takes a natural number of bytes (a `File.size`); `toFixed`'s fallback for values of 10^21 and above cannot arise for such sizes and is not modelled.
- The unsynchronised read-modify-write of `metadata.json` by concurrent requests (a concurrency race, outside a sequential model).
