/** The client-side document list (`useDocuments`, and the same code inline
    in the documents page): the list itself, the simulated upload with its
    progress timer, and deletion. Timers are explicit: each running progress
    interval and each scheduled completion is an entry the environment fires
    in an order of its choosing, and the random increment, the new uuid and
    the formatted date are parameters. */
module DocumentsHook {
  import opened Js
  import SizeFormat

  datatype Document = Document(id: JsString, name: JsString, size: JsString, uploadedAt: JsString)

  function DocId(d: Document): JsString {
    d.id
  }

  /** The list the page starts with: three records with distinct ids, the
      last two of which share a file name. */
  function StaticDocuments(): (docs: seq<Document>)
    ensures |docs| == 3 && IdsDistinct(docs, DocId)
    ensures docs[1].name == docs[2].name && docs[0].name != docs[1].name
  {
    [ Document("17391eab-516e-48ab-a147-f1706b96d7d6", "ID 348-356.pdf", "2.5 MB", "April 20, 2025"),
      Document("759f8aca-9069-49f8-8845-a7b6e700cb81", "1728538602203.pdf", "1.8 MB", "April 21, 2025"),
      Document("ce37900e-09d2-44aa-9dc2-ae13cec0819f", "1728538602203.pdf", "3.2 MB", "April 22, 2025") ]
  }

  /** `documents.filter(doc => doc.id !== id)`. */
  function WithoutId(docs: seq<Document>, id: JsString): (r: seq<Document>)
    ensures |r| <= |docs|
    ensures forall i :: 0 <= i < |r| ==> r[i].id != id
  {
    if docs == [] then []
    else (if docs[0].id == id then [] else [docs[0]]) + WithoutId(docs[1..], id)
  }

  /** A record survives the filter exactly when its id differs. */
  lemma {:induction false} WithoutIdMembers(docs: seq<Document>, id: JsString, d: Document)
    ensures d in WithoutId(docs, id) <==> d in docs && d.id != id
  {
    if docs != [] {
      WithoutIdMembers(docs[1..], id, d);
      assert docs == [docs[0]] + docs[1..];
    }
  }

  /** The filter works element by element, so it keeps the survivors in
      their original order. */
  lemma {:induction false} WithoutIdAppend(a: seq<Document>, b: seq<Document>, id: JsString)
    ensures WithoutId(a + b, id) == WithoutId(a, id) + WithoutId(b, id)
  {
    if a == [] {
      assert a + b == b;
    } else {
      var head := if a[0].id == id then [] else [a[0]];
      assert (a + b)[0] == a[0];
      assert (a + b)[1..] == a[1..] + b;
      assert WithoutId(a + b, id) == head + WithoutId(a[1..] + b, id);
      WithoutIdAppend(a[1..], b, id);
      assert WithoutId(a, id) == head + WithoutId(a[1..], id);
    }
  }

  /** Deleting an id no record has changes nothing. */
  lemma {:induction false} WithoutAbsentId(docs: seq<Document>, id: JsString)
    requires forall d :: d in docs ==> d.id != id
    ensures WithoutId(docs, id) == docs
  {
    if docs != [] {
      WithoutAbsentId(docs[1..], id);
    }
  }

  /** With distinct ids, deleting a present id removes exactly one record. */
  lemma WithoutPresentId(docs: seq<Document>, k: nat)
    requires IdsDistinct(docs, DocId) && k < |docs|
    ensures WithoutId(docs, docs[k].id) == docs[..k] + docs[k + 1..]
  {
    IdAbsentAround(docs, k);
    SplitAround(docs, k);
    WithoutOnlyMatch(docs[..k], docs[k], docs[k + 1..]);
  }

  lemma SplitAround(docs: seq<Document>, k: nat)
    requires k < |docs|
    ensures docs == docs[..k] + ([docs[k]] + docs[k + 1..])
  {
  }

  lemma WithoutOnlyMatch(before: seq<Document>, d: Document, after: seq<Document>)
    requires forall e :: e in before ==> e.id != d.id
    requires forall e :: e in after ==> e.id != d.id
    ensures WithoutId(before + ([d] + after), d.id) == before + after
  {
    WithoutAbsentId(before, d.id);
    WithoutAbsentId(after, d.id);
    WithoutIdAppend(before, [d] + after, d.id);
    assert WithoutId([d] + after, d.id) == after by {
      assert ([d] + after)[1..] == after;
      assert ([d] + after)[0] == d;
    }
  }

  lemma IdAbsentAround(docs: seq<Document>, k: nat)
    requires IdsDistinct(docs, DocId) && k < |docs|
    ensures forall e :: e in docs[..k] ==> e.id != docs[k].id
    ensures forall e :: e in docs[k + 1..] ==> e.id != docs[k].id
  {
    forall e | e in docs[..k] ensures e.id != docs[k].id {
      var i :| 0 <= i < k && docs[..k][i] == e;
      assert docs[i] == e;
    }
    forall e | e in docs[k + 1..] ensures e.id != docs[k].id {
      var i :| 0 <= i < |docs| - k - 1 && docs[k + 1..][i] == e;
      assert docs[k + 1 + i] == e;
    }
  }

  /** Deleting the record a completed upload just put in front, when its id
      was fresh, gives back the list as it was before the upload. */
  lemma DeleteUndoesPrepend(docs: seq<Document>, d: Document)
    requires forall e :: e in docs ==> e.id != d.id
    ensures WithoutId([d] + docs, d.id) == docs
  {
    WithoutAbsentId(docs, d.id);
    assert ([d] + docs)[1..] == docs;
  }

  /** The record a finished upload adds: the new id, the file's name, its
      formatted size and today's date. */
  function NewDocument(file: WebFile, id: JsString, today: JsString): (d: Document)
    ensures d.id == id && d.name == file.name && d.uploadedAt == today
    ensures d.size == SizeFormat.FormatFileSize(file.size)
  {
    Document(id, file.name, SizeFormat.FormatFileSize(file.size), today)
  }

  class DocumentsState {
    var documents: seq<Document>
    var isUploading: bool
    var uploadProgress: real
    var currentFile: Option<WebFile>
    /** The file input's value through `fileInputRef`; None while the ref is null. */
    var fileInputValue: Option<JsString>
    /** The running progress intervals, each with the file it closes over. */
    var intervals: seq<WebFile>
    /** The scheduled 500 ms completions, each with the record it will add. */
    var completions: seq<Document>

    /** The progress shown is a percentage. */
    ghost predicate Valid()
      reads this
    {
      0.0 <= uploadProgress <= 100.0
    }

    constructor(fileInputValue: Option<JsString>)
      ensures Valid()
      ensures documents == StaticDocuments() && !isUploading && uploadProgress == 0.0
      ensures currentFile == None && this.fileInputValue == fileInputValue
      ensures intervals == [] && completions == []
    {
      documents := StaticDocuments();
      isUploading := false;
      uploadProgress := 0.0;
      currentFile := None;
      this.fileInputValue := fileInputValue;
      intervals := [];
      completions := [];
    }

    /** `handleFileChange`: only the first selected file counts, and only a
        PDF starts an upload; anything else raises an alert and changes
        nothing. */
    method HandleFileChange(files: seq<WebFile>) returns (alerted: bool)
      requires Valid()
      modifies this
      ensures Valid()
      ensures alerted <==> |files| > 0 && files[0].mimeType != PdfType
      ensures |files| == 0 || files[0].mimeType != PdfType ==>
        && documents == old(documents) && isUploading == old(isUploading)
        && uploadProgress == old(uploadProgress) && currentFile == old(currentFile)
        && fileInputValue == old(fileInputValue) && intervals == old(intervals)
        && completions == old(completions)
      ensures |files| > 0 && files[0].mimeType == PdfType ==>
        && currentFile == Some(files[0]) && isUploading && uploadProgress == 0.0
        && intervals == old(intervals) + [files[0]]
        && documents == old(documents) && fileInputValue == old(fileInputValue)
        && completions == old(completions)
    {
      alerted := false;
      if |files| == 0 {
        return;
      }
      var file := files[0];
      if file.mimeType != PdfType {
        alerted := true;
        return;
      }
      currentFile := Some(file);
      SimulateUpload(file);
    }

    /** `simulateUpload`: show the progress bar from zero and start an interval. */
    method SimulateUpload(file: WebFile)
      modifies this`isUploading, this`uploadProgress, this`intervals
      ensures Valid()
      ensures isUploading && uploadProgress == 0.0 && intervals == old(intervals) + [file]
    {
      isUploading := true;
      uploadProgress := 0.0;
      intervals := intervals + [file];
    }

    /** One firing of interval `k`: progress grows by `increment`
        (`Math.random() * 15`). At 100 or more it reads exactly 100, the
        interval stops, and the completion with the new record (`id`,
        `today`) is scheduled. */
    method Tick(k: nat, increment: real, id: JsString, today: JsString) returns (finished: bool)
      requires Valid()
      requires k < |intervals| && 0.0 <= increment < 15.0
      modifies this`uploadProgress, this`intervals, this`completions
      ensures Valid()
      ensures finished <==> old(uploadProgress) + increment >= 100.0
      ensures finished ==>
        && uploadProgress == 100.0
        && intervals == old(intervals[..k] + intervals[k + 1..])
        && completions == old(completions) + [NewDocument(old(intervals[k]), id, today)]
      ensures !finished ==>
        uploadProgress == old(uploadProgress) + increment && intervals == old(intervals) && completions == old(completions)
    {
      var file := intervals[k];
      var next := uploadProgress + increment;
      finished := next >= 100.0;
      if finished {
        intervals := intervals[..k] + intervals[k + 1..];
        completions := completions + [NewDocument(file, id, today)];
        uploadProgress := 100.0;
      } else {
        uploadProgress := next;
      }
    }

    /** Completion `k` fires: its record goes in front of the list, the
        upload display is cleared and the file input is reset. */
    method Complete(k: nat)
      requires Valid() && k < |completions|
      modifies this`documents, this`isUploading, this`currentFile, this`fileInputValue, this`completions
      ensures Valid()
      ensures documents == [old(completions[k])] + old(documents)
      ensures !isUploading && currentFile == None
      ensures fileInputValue == if old(fileInputValue).Some? then Some("") else None
      ensures completions == old(completions[..k] + completions[k + 1..])
    {
      documents := [completions[k]] + documents;
      isUploading := false;
      currentFile := None;
      if fileInputValue.Some? {
        fileInputValue := Some("");
      }
      completions := completions[..k] + completions[k + 1..];
    }

    /** `handleDelete`, with the answer to `window.confirm` as `confirmed`. */
    method HandleDelete(id: JsString, confirmed: bool)
      requires Valid()
      modifies this`documents
      ensures Valid()
      ensures documents == if confirmed then WithoutId(old(documents), id) else old(documents)
    {
      if !confirmed {
        return;
      }
      documents := WithoutId(documents, id);
    }
  }

  /** A whole upload: select a PDF, let one tick finish it, fire the
      completion, then delete the new record again. */
  method UploadThenDelete(file: WebFile, id: JsString, today: JsString)
    requires file.mimeType == PdfType
    requires forall i :: 0 <= i < |StaticDocuments()| ==> StaticDocuments()[i].id != id
  {
    var page := new DocumentsState(Some(""));
    var alerted := page.HandleFileChange([file]);
    assert !alerted && page.isUploading && page.intervals == [file];
    var done := page.Tick(0, 14.5, id, today);
    done := page.Tick(0, 14.5, id, today);
    done := page.Tick(0, 14.5, id, today);
    done := page.Tick(0, 14.5, id, today);
    done := page.Tick(0, 14.5, id, today);
    done := page.Tick(0, 14.5, id, today);
    assert !done && page.uploadProgress == 87.0;
    done := page.Tick(0, 14.5, id, today);
    assert done && page.uploadProgress == 100.0 && page.intervals == [];
    page.Complete(0);
    assert page.documents == [NewDocument(file, id, today)] + StaticDocuments();
    assert !page.isUploading && page.currentFile == None;
    page.HandleDelete(id, true);
    DeleteUndoesPrepend(StaticDocuments(), NewDocument(file, id, today));
    assert page.documents == StaticDocuments();
  }
}
