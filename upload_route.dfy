/** The upload endpoint (`POST` of src/app/api/documents/upload/route.ts) and
    the metadata store it keeps: a JSON array in `metadata.json`, read and
    rewritten whole, next to one binary file per uploaded document. The file
    system is abstract: the metadata file is one of four values, the binary
    files a map from path to what was written, and every write takes its
    outcome as a parameter. */
module UploadRoute {
  import opened Js
  import SizeFormat

  /** What `formData.get('file')` yields: nothing, a plain text field, or a file. */
  datatype FormValue = Absent | Text(text: JsString) | FileValue(file: WebFile)

  datatype StoredDocument = StoredDocument(
    id: JsString, name: JsString, size: JsString, uploadedAt: JsString, path: JsString)

  /** The metadata file as the loader finds it: absent, unreadable or not
      JSON, JSON that is not an array, or an array of records. */
  datatype MetadataFile = Missing | Corrupt | NotAnArray | Records(records: seq<StoredDocument>)

  /** What `getDocumentsMetadata` returns: a list, or a parsed JSON value
      that is not one (and so has no `push`). */
  datatype Loaded = List(items: seq<StoredDocument>) | NonArray

  /** A binary file on disk: written completely, or cut short. */
  datatype Binary = Complete(size: nat) | Partial

  /** How a file write ends: it completes, it fails before touching the file,
      or it fails after truncating it (disk full part-way). */
  datatype WriteOutcome = Written | Refused | Interrupted

  datatype Body = Uploaded(message: JsString, document: StoredDocument) | Failure(error: JsString)

  datatype Response = Response(status: nat, body: Body)

  const NoFile: Response := Response(400, Failure("No file provided"))
  const NotPdf: Response := Response(400, Failure("Only PDF files are allowed"))
  const UploadFailed: Response := Response(500, Failure("Failed to upload file"))

  /** `getDocumentsMetadata`: never raises. */
  function LoadMetadata(f: MetadataFile): (r: Loaded)
    ensures f.Missing? || f.Corrupt? ==> r == List([])
    ensures r.NonArray? <==> f.NotAnArray?
    ensures f.Records? ==> r == List(f.records)
  {
    match f
    case Missing => List([])
    case Corrupt => List([])
    case NotAnArray => NonArray
    case Records(rs) => List(rs)
  }

  datatype Validation = Accepted(file: WebFile) | Rejected(response: Response)

  /** The two early returns of `POST`. A missing field, or an empty text
      field (falsy in JavaScript), is "No file provided"; anything else whose
      `type` is not exactly "application/pdf" (a text field has none) is
      "Only PDF files are allowed". */
  function ValidateUpload(v: FormValue): (r: Validation)
    ensures r.Accepted? <==> v.FileValue? && v.file.mimeType == PdfType
    ensures r.Accepted? ==> r.file == v.file
    ensures r == Rejected(NoFile) <==> v == Absent || v == Text("")
    ensures r.Rejected? && r != Rejected(NoFile) ==> r == Rejected(NotPdf)
  {
    match v
    case Absent => Rejected(NoFile)
    case Text(s) => if s == "" then Rejected(NoFile) else Rejected(NotPdf)
    case FileValue(f) => if f.mimeType == PdfType then Accepted(f) else Rejected(NotPdf)
  }

  /** The stored file name `{id}-{name}`: the id, a dash, and the original
      name unchanged, each recoverable from the result. */
  function StoredFileName(id: JsString, name: JsString): (r: JsString)
    ensures |r| == |id| + 1 + |name|
    ensures r[..|id|] == id && r[|id|] == '-' && r[|id| + 1..] == name
  {
    id + "-" + name
  }

  /** Ids of one length (a uuid is always 36 characters) never give two
      uploads the same stored file name. */
  lemma StoredFileNameInjective(id1: JsString, name1: JsString, id2: JsString, name2: JsString)
    requires |id1| == |id2|
    requires StoredFileName(id1, name1) == StoredFileName(id2, name2)
    ensures id1 == id2 && name1 == name2
  {
    var s := StoredFileName(id1, name1);
    assert id1 == s[..|id1|] == id2;
    assert name1 == s[|id1| + 1..] == name2;
  }

  /** `path.join(docsDir, fileName)`: the file sits directly in the
      documents directory, and its name can be read back from the path. */
  function StoragePath(docsDir: JsString, fileName: JsString): (r: JsString)
    ensures |r| == |docsDir| + 1 + |fileName|
    ensures r[..|docsDir|] == docsDir && r[|docsDir|] == '/' && r[|docsDir| + 1..] == fileName
  {
    docsDir + "/" + fileName
  }

  /** The record `POST` appends for an accepted file: the new id, the
      original name, the formatted size, the time, and a path in the
      documents directory that starts with the id. */
  function NewDocument(docsDir: JsString, file: WebFile, id: JsString, now: JsString): (d: StoredDocument)
    ensures d.id == id && d.name == file.name && d.uploadedAt == now
    ensures d.size == SizeFormat.FormatFileSize(file.size)
    ensures d.path == StoragePath(docsDir, StoredFileName(id, file.name))
    ensures d.path[..|docsDir| + 1] == docsDir + "/"
    ensures d.path[|docsDir| + 1..|docsDir| + 1 + |id|] == id
  {
    var path := StoragePath(docsDir, StoredFileName(id, file.name));
    assert path[|docsDir| + 1..][..|id|] == id;
    StoredDocument(id, file.name, SizeFormat.FormatFileSize(file.size), now, path)
  }

  /** The binary files after writing `size` bytes to `path`. */
  function AfterWrite(files: map<JsString, Binary>, path: JsString, size: nat, outcome: WriteOutcome): map<JsString, Binary> {
    match outcome
    case Written => files[path := Complete(size)]
    case Refused => files
    case Interrupted => files[path := Partial]
  }

  /** The metadata file after writing `records` over it. */
  function AfterSave(f: MetadataFile, records: seq<StoredDocument>, outcome: WriteOutcome): MetadataFile {
    match outcome
    case Written => Records(records)
    case Refused => f
    case Interrupted => Corrupt
  }

  function RecordId(d: StoredDocument): JsString {
    d.id
  }

  /** Appending a record whose id is fresh keeps the ids unique. */
  lemma AppendFreshKeepsIdsDistinct(docs: seq<StoredDocument>, d: StoredDocument)
    requires IdsDistinct(docs, RecordId)
    requires forall i :: 0 <= i < |docs| ==> docs[i].id != d.id
    ensures IdsDistinct(docs + [d], RecordId)
  {
  }

  /** Every record points at a completely written binary. */
  ghost predicate Backed(docs: seq<StoredDocument>, files: map<JsString, Binary>) {
    forall i :: 0 <= i < |docs| ==> docs[i].path in files && files[docs[i].path].Complete?
  }

  /** A successful upload keeps every record, old and new, backed by a
      complete binary. */
  lemma UploadKeepsRecordsBacked(docs: seq<StoredDocument>, files: map<JsString, Binary>, d: StoredDocument, size: nat)
    requires Backed(docs, files)
    ensures Backed(docs + [d], AfterWrite(files, d.path, size, Written))
  {
  }

  /** A binary write cut short at a path no record uses leaves every record
      backed; only the orphaned partial file is new. */
  lemma InterruptedWriteKeepsRecordsBacked(docs: seq<StoredDocument>, files: map<JsString, Binary>, path: JsString, size: nat)
    requires Backed(docs, files)
    requires forall i :: 0 <= i < |docs| ==> docs[i].path != path
    ensures Backed(docs, AfterWrite(files, path, size, Interrupted))
    ensures path in AfterWrite(files, path, size, Interrupted)
  {
  }

  /** A metadata save cut short leaves a file the next load reads as empty:
      every earlier record is lost to later requests. */
  lemma InterruptedSaveLosesRecords(f: MetadataFile, records: seq<StoredDocument>)
    ensures LoadMetadata(AfterSave(f, records, Interrupted)) == List([])
  {
  }

  /** Every id `uuidv4` produces is 36 characters long. */
  const UuidLength: nat := 36

  /** A name `path.join` (POSIX) keeps as one path segment: it has no "/".
      A name such as "x/../a.pdf" would be normalised to another file of
      the directory, even "metadata.json" itself. */
  predicate IsBaseName(name: JsString) {
    forall i :: 0 <= i < |name| ==> name[i] != '/'
  }

  /** A record stored where `POST` puts it: `{docsDir}/{id}-{name}`, under a
      uuid-length id and a name `path.join` leaves alone. */
  predicate AtStoragePath(docsDir: JsString, d: StoredDocument) {
    && |d.id| == UuidLength && IsBaseName(d.name)
    && d.path == StoragePath(docsDir, StoredFileName(d.id, d.name))
  }

  /** What the store keeps true across requests: the records the next load
      returns have distinct ids, sit where `POST` puts them, and point at
      complete binaries. */
  ghost predicate StoreConsistent(docsDir: JsString, f: MetadataFile, files: map<JsString, Binary>) {
    LoadMetadata(f).List? ==>
      && IdsDistinct(LoadMetadata(f).items, RecordId)
      && Backed(LoadMetadata(f).items, files)
      && forall i :: 0 <= i < |LoadMetadata(f).items| ==> AtStoragePath(docsDir, LoadMetadata(f).items[i])
  }

  /** No record the next load returns has this id. */
  ghost predicate IdUnused(f: MetadataFile, id: JsString) {
    LoadMetadata(f).List? ==> forall i :: 0 <= i < |LoadMetadata(f).items| ==> LoadMetadata(f).items[i].id != id
  }

  /** The metadata file after an accepted `POST`: saved with `doc` appended
      when the binary was written and the load gave a list, else untouched. */
  function MetadataAfterPost(f: MetadataFile, doc: StoredDocument, binaryWrite: WriteOutcome, metadataWrite: WriteOutcome): MetadataFile {
    if binaryWrite.Written? && !f.NotAnArray? then AfterSave(f, LoadMetadata(f).items + [doc], metadataWrite) else f
  }

  /** Two records stored where `POST` puts them under different ids have
      different paths. */
  lemma StoragePathsDistinct(docsDir: JsString, d: StoredDocument, e: StoredDocument)
    requires AtStoragePath(docsDir, d) && AtStoragePath(docsDir, e) && d.id != e.id
    ensures d.path != e.path
  {
    if d.path == e.path {
      StoredFileNameInjective(d.id, d.name, e.id, e.name);
    }
  }

  /** An accepted upload of a file whose name has no "/", under a fresh
      uuid, keeps the store consistent, whichever way each of its two
      writes ends. */
  lemma PostKeepsStoreConsistent(docsDir: JsString, f: MetadataFile, files: map<JsString, Binary>,
                                 file: WebFile, id: JsString, now: JsString,
                                 binaryWrite: WriteOutcome, metadataWrite: WriteOutcome)
    requires StoreConsistent(docsDir, f, files)
    requires |id| == UuidLength && IdUnused(f, id) && IsBaseName(file.name)
    ensures var doc := NewDocument(docsDir, file, id, now);
      StoreConsistent(docsDir, MetadataAfterPost(f, doc, binaryWrite, metadataWrite),
                      AfterWrite(files, doc.path, file.size, binaryWrite))
  {
    var doc := NewDocument(docsDir, file, id, now);
    if LoadMetadata(f).List? {
      var docs := LoadMetadata(f).items;
      assert AtStoragePath(docsDir, doc);
      forall i | 0 <= i < |docs| ensures docs[i].path != doc.path {
        StoragePathsDistinct(docsDir, docs[i], doc);
      }
      match binaryWrite
      case Written =>
        UploadKeepsRecordsBacked(docs, files, doc, file.size);
        AppendFreshKeepsIdsDistinct(docs, doc);
        assert forall i :: 0 <= i < |docs| ==> (docs + [doc])[i] == docs[i];
      case Refused =>
      case Interrupted =>
        InterruptedWriteKeepsRecordsBacked(docs, files, doc.path, file.size);
    }
  }

  /** The documents directory and what is stored in it. */
  class DocumentStore {
    const docsDir: JsString
    var metadata: MetadataFile
    var binaries: map<JsString, Binary>

    constructor(docsDir: JsString, metadata: MetadataFile, binaries: map<JsString, Binary>)
      ensures this.docsDir == docsDir && this.metadata == metadata && this.binaries == binaries
    {
      this.docsDir := docsDir;
      this.metadata := metadata;
      this.binaries := binaries;
    }

    /** `saveDocumentsMetadata`: overwrite the file with the whole list; a
        failure is reported to the caller. */
    method SaveMetadata(records: seq<StoredDocument>, outcome: WriteOutcome) returns (saved: bool)
      modifies this`metadata
      ensures saved <==> outcome.Written?
      ensures metadata == AfterSave(old(metadata), records, outcome)
    {
      match outcome {
        case Written => metadata := Records(records);
        case Refused =>
        case Interrupted => metadata := Corrupt;
      }
      saved := outcome.Written?;
    }

    /** The `writeFile` of the uploaded bytes. */
    method WriteBinary(path: JsString, size: nat, outcome: WriteOutcome) returns (written: bool)
      modifies this`binaries
      ensures written <==> outcome.Written?
      ensures binaries == AfterWrite(old(binaries), path, size, outcome)
    {
      match outcome {
        case Written => binaries := binaries[path := Complete(size)];
        case Refused =>
        case Interrupted => binaries := binaries[path := Partial];
      }
      written := outcome.Written?;
    }

    /** `POST`: create the directory, read the form, validate, write the
        binary, then load, append and save the metadata. `dirReady` is the
        outcome of `mkdir`; `form` is None when the body cannot be read as
        form data; `id` is the fresh uuid and `now` the formatted time. */
    method Post(dirReady: bool, form: Option<FormValue>, id: JsString, now: JsString,
                binaryWrite: WriteOutcome, metadataWrite: WriteOutcome) returns (resp: Response)
      modifies this
      ensures !dirReady || form.None? ==>
        resp == UploadFailed && metadata == old(metadata) && binaries == old(binaries)
      ensures dirReady && form.Some? && ValidateUpload(form.value).Rejected? ==>
        resp == ValidateUpload(form.value).response && metadata == old(metadata) && binaries == old(binaries)
      ensures dirReady && form.Some? && ValidateUpload(form.value).Accepted? ==>
        var file := ValidateUpload(form.value).file;
        var doc := NewDocument(docsDir, file, id, now);
        && binaries == AfterWrite(old(binaries), doc.path, file.size, binaryWrite)
        && metadata == MetadataAfterPost(old(metadata), doc, binaryWrite, metadataWrite)
        && resp == if binaryWrite.Written? && !old(metadata).NotAnArray? && metadataWrite.Written?
                   then Response(200, Uploaded("File uploaded successfully", doc))
                   else UploadFailed
      ensures && old(StoreConsistent(docsDir, metadata, binaries)) && |id| == UuidLength && old(IdUnused(metadata, id))
              && (form.Some? && form.value.FileValue? ==> IsBaseName(form.value.file.name)) ==>
        StoreConsistent(docsDir, metadata, binaries)
    {
      if !dirReady || form.None? {
        return UploadFailed;
      }
      var v := ValidateUpload(form.value);
      if v.Rejected? {
        return v.response;
      }
      var file := v.file;
      if StoreConsistent(docsDir, metadata, binaries) && |id| == UuidLength && IdUnused(metadata, id) && IsBaseName(file.name) {
        PostKeepsStoreConsistent(docsDir, metadata, binaries, file, id, now, binaryWrite, metadataWrite);
      }
      var filePath := StoragePath(docsDir, StoredFileName(id, file.name));
      var written := WriteBinary(filePath, file.size, binaryWrite);
      if !written {
        return UploadFailed;
      }
      var loaded := LoadMetadata(metadata);
      if loaded.NonArray? {
        // `metadata.push` is not a function: the TypeError is caught as any other.
        return UploadFailed;
      }
      var doc := StoredDocument(id, file.name, SizeFormat.FormatFileSize(file.size), now, filePath);
      var saved := SaveMetadata(loaded.items + [doc], metadataWrite);
      if !saved {
        return UploadFailed;
      }
      resp := Response(200, Uploaded("File uploaded successfully", doc));
    }
  }

  /** Two uploads in a row onto an empty store: the records are kept in
      insertion order, the second after the first. */
  method UploadTwice(docsDir: JsString, a: WebFile, b: WebFile, idA: JsString, idB: JsString, now: JsString)
    requires a.mimeType == PdfType && b.mimeType == PdfType
  {
    var store := new DocumentStore(docsDir, Missing, map[]);
    var r1 := store.Post(true, Some(FileValue(a)), idA, now, Written, Written);
    ghost var first := store.metadata;
    assert first == Records([NewDocument(docsDir, a, idA, now)]);
    var r2 := store.Post(true, Some(FileValue(b)), idB, now, Written, Written);
    assert r1.status == 200 && r2.status == 200;
    assert store.metadata == Records(first.records + [NewDocument(docsDir, b, idB, now)]);
  }
}
