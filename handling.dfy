/** What the two revisions of the `/convert` handler have in common: the outcomes of the
    external calls they make, the reasons they refuse a request with and the HTTP status of
    each, the JSON reply of a completed request, and the steps both take on the artifact
    directory before converting. */
module Handling {
  import opened Options
  import opened Text
  import opened PyJson
  import opened Artifacts

  /** The form fields of a request to `/convert`: the upload's filename and content,
      `nomor_urut` and `target_url`. */
  datatype Request = Request(filename: Option<string>, nomorUrut: string, targetUrl: string,
                             payload: seq<bv8>)

  /** The name given to an upload without a filename. */
  const DefaultFilename := "uploaded.docx"

  /** The path the callback URL ends in (the only one in app.py, the default of
      `TARGET_ENDPOINT_SUFFIX` in pdef_generator_3/app.py). */
  const DefaultCallbackSuffix := "/check/responseBalikConvert"

  // ---------------------------------------------------------------------------
  // Outcomes of the calls the handlers cannot see into

  /** How storing the upload went. `SaveRaised` carries the message of the exception raised
      by `open`, `file.read` or `write`, and what a write that started may have left on disk. */
  datatype SaveOutcome =
    | Saved(mtime: int)
    | SaveRaised(msg: string, partial: Option<FileInfo>)

  /** How the `httpx` POST of the PDF to the callback went: an `httpx.HTTPError`, or a
      response with its status, its text and what `resp.json()` made of it (`None` when it
      raised). */
  datatype HttpOutcome =
    | TransportFailed(msg: string)
    | Answered(status: int, text: string, parsed: Option<Json>)

  // ---------------------------------------------------------------------------
  // Replies

  /** Why a request ended in an `HTTPException`. */
  datatype Reason =
    | BadUpload                                        // wrong file extension
    | BadJobKey                                        // unusable `nomor_urut`
    | SaveFailed(msg: string)                          // the upload could not be stored
    | ConversionRaised(msg: string)                    // docx2pdf raised
    | EngineNotFound                                   // no `soffice` executable
    | ConversionTimedOut(seconds: int)                 // `soffice` exceeded the timeout
    | ConversionExited(stderr: string, stdout: string) // `soffice` exited with a non-zero code
    | PdfNotFound                                      // no PDF after the conversion
    | UploadFailed(msg: string)                        // the POST to the callback failed

  /** The status code of the `HTTPException` raised for `r`: 400 for the two validation
      failures, 504 for a conversion timeout, 502 for a failed callback POST, 500 otherwise. */
  function StatusCode(r: Reason): (code: int)
    ensures code in {400, 500, 502, 504}
    ensures code == 400 <==> r.BadUpload? || r.BadJobKey?
    ensures code == 504 <==> r.ConversionTimedOut?
    ensures code == 502 <==> r.UploadFailed?
  {
    match r
    case BadUpload => 400
    case BadJobKey => 400
    case ConversionTimedOut(_) => 504
    case UploadFailed(_) => 502
    case _ => 500
  }

  /** `target_response`: the parsed JSON when `resp_json` is not `None`, the raw text
      otherwise. */
  datatype Body = JsonBody(json: Json) | TextBody(text: string)

  function ResponseBody(rj: Option<Json>, text: string): (b: Body)
    ensures b.JsonBody? <==> rj.Some?
    ensures b.JsonBody? ==> b.json == rj.value
    ensures b.TextBody? ==> b.text == text
  {
    if rj.Some? then JsonBody(rj.value) else TextBody(text)
  }

  /** The handler's answer: an `HTTPException`, or the `"status": "ok"` JSON document that
      reports where the artifacts were saved and what the callback answered.
      `filesCleaned` is present only in app.py. */
  datatype Reply =
    | Refused(reason: Reason)
    | Posted(savedDocx: string, savedPdf: string, targetPost: string, targetStatus: int,
             targetResponse: Body, filesCleaned: Option<Json>)

  /** The HTTP status of the reply: a `JSONResponse` is sent with 200. */
  function HttpStatus(r: Reply): (code: int)
    ensures r.Posted? <==> code == 200
    ensures r.Refused? ==> code == StatusCode(r.reason)
  {
    if r.Refused? then StatusCode(r.reason) else 200
  }

  // ---------------------------------------------------------------------------
  // Admission and names

  /** `file.filename or "uploaded.docx"`: a missing or empty filename becomes the default. */
  function EffectiveFilename(filename: Option<string>): (name: string)
    ensures name != []
    ensures filename.Some? && filename.value != [] ==> name == filename.value
    ensures filename.None? || filename.value == [] ==> name == DefaultFilename
  {
    if filename.Some? && filename.value != [] then filename.value else DefaultFilename
  }

  /** Whether the upload's lower-cased filename ends with `suffix`. */
  predicate HasExtension(filename: Option<string>, suffix: string) {
    EndsWith(Lower(EffectiveFilename(filename)), suffix)
  }

  /** The extension test ignores case: the last characters of the name spell `suffix` once
      capitals are folded. */
  lemma HasExtensionIgnoresCase(filename: Option<string>, suffix: string)
    ensures HasExtension(filename, suffix) <==> EndsWithIgnoringCase(EffectiveFilename(filename), suffix)
  {
    LowerEndsWith(EffectiveFilename(filename), suffix);
  }

  /** `f"{stem}.docx"` and `f"{stem}.pdf"`, joined to the artifact directory, share everything
      but the extension: both are the directory prefix, the stem, then `.docx` or `.pdf`. */
  lemma ArtifactPathsShareStem(dir: string, stem: string)
    requires !StartsWith(stem, "/")
    ensures JoinPath(dir, stem + ".docx") == DirPrefix(dir) + stem + ".docx"
    ensures JoinPath(dir, stem + ".pdf") == DirPrefix(dir) + stem + ".pdf"
    ensures var docx, pdf := JoinPath(dir, stem + ".docx"), JoinPath(dir, stem + ".pdf");
      docx[..|docx| - 5] == pdf[..|pdf| - 4] == DirPrefix(dir) + stem
  {
    if stem != [] {
      assert (stem + ".docx")[..1] == stem[..1] && (stem + ".pdf")[..1] == stem[..1];
    } else {
      assert (stem + ".docx")[..1] == "." && (stem + ".pdf")[..1] == ".";
    }
    var docx, pdf := JoinPath(dir, stem + ".docx"), JoinPath(dir, stem + ".pdf");
    assert docx == (DirPrefix(dir) + stem) + ".docx";
    assert pdf == (DirPrefix(dir) + stem) + ".pdf";
  }

  /** `path_docx` and `path_pdf`: the upload and its PDF, named after the job key, in the
      artifact directory `dir`. */
  function DocxPath(dir: string, key: string): (path: string)
    ensures !StartsWith(key, "/") ==> path == DirPrefix(dir) + key + ".docx"
    ensures StartsWith(key, "/") ==> path == key + ".docx"
  {
    JoinStem(dir, key, ".docx");
    JoinPath(dir, key + ".docx")
  }

  function PdfPath(dir: string, key: string): (path: string)
    ensures !StartsWith(key, "/") ==> path == DirPrefix(dir) + key + ".pdf"
    ensures StartsWith(key, "/") ==> path == key + ".pdf"
  {
    JoinStem(dir, key, ".pdf");
    JoinPath(dir, key + ".pdf")
  }

  /** A name with an extension is absolute exactly when its stem is. */
  lemma JoinStem(dir: string, key: string, ext: string)
    requires ext != [] && ext[0] == '.'
    ensures StartsWith(key, "/") ==> JoinPath(dir, key + ext) == key + ext
    ensures !StartsWith(key, "/") ==> JoinPath(dir, key + ext) == DirPrefix(dir) + key + ext
  {
    AbsoluteStem(key, ext);
    assert DirPrefix(dir) + (key + ext) == DirPrefix(dir) + key + ext;
  }

  lemma AbsoluteStem(key: string, ext: string)
    requires ext != [] && ext[0] == '.'
    ensures StartsWith(key + ext, "/") <==> StartsWith(key, "/")
  {
    if key != [] {
      assert (key + ext)[..1] == key[..1];
    } else {
      assert (key + ext)[..1] == ext[..1];
    }
  }

  /** The upload and its PDF are two different entries. */
  lemma ArtifactNamesDiffer(key: string)
    ensures key + ".docx" != key + ".pdf"
  {
    assert (key + ".pdf")[|key| + 1] == 'p' && (key + ".docx")[|key| + 1] == 'd';
  }

  /** The callback URL: `target` without its trailing slashes, then `suffix`. */
  function CallbackUrl(target: string, suffix: string): (url: string)
    ensures EndsWith(url, suffix)
    ensures var base := url[..|url| - |suffix|];
      && StartsWith(target, base)
      && (base == [] || base[|base| - 1] != '/')
      && forall i :: |base| <= i < |target| ==> target[i] == '/'
  {
    var base := TrimEnd(target, IsSlash);
    var url := base + suffix;
    assert url[..|url| - |suffix|] == base && url[|url| - |suffix|..] == suffix;
    url
  }

  /** Trailing slashes on the target do not change the callback URL. */
  lemma CallbackUrlIgnoresTrailingSlash(target: string, suffix: string)
    ensures CallbackUrl(target + "/", suffix) == CallbackUrl(target, suffix)
  {
    TrimEndAbsorbs(target, IsSlash, '/');
  }

  // ---------------------------------------------------------------------------
  // The directory steps before the conversion

  /** Storing the upload as `docxName`: a successful write creates or replaces the entry
      with the payload's size; a failed one leaves whatever it had written, if anything, as
      that entry. No other entry changes. */
  function SaveUpload(d: Dir, docxName: string, save: SaveOutcome, size: nat): (r: Dir)
    requires d.Wf()
    ensures r.Wf()
    ensures save.Saved? ==> r.info == d.info[docxName := FileInfo(save.mtime, size)]
    ensures save.SaveRaised? && save.partial.None? ==> r == d
    ensures save.SaveRaised? && save.partial.Some? ==> r.info == d.info[docxName := save.partial.value]
    ensures forall n :: n != docxName ==> (n in r.info <==> n in d.info)
  {
    match save
    case Saved(mtime) => d.Put(docxName, FileInfo(mtime, size))
    case SaveRaised(_, partial) => if partial.Some? then d.Put(docxName, partial.value) else d
  }

  /** "Remove the old PDF if there is one": the entry `pdfName` goes unless `os.remove`
      raises, in which case the error is swallowed and the directory is as it was. */
  function DropStalePdf(d: Dir, pdfName: string, removalFails: bool): (r: Dir)
    requires d.Wf()
    ensures r.Wf()
    ensures removalFails ==> r == d
    ensures !removalFails ==> pdfName !in r.info
    ensures forall n :: n != pdfName ==> (n in r.info <==> n in d.info)
    ensures forall n :: n in r.info ==> n in d.info && r.info[n] == d.info[n]
  {
    if pdfName in d.info && !removalFails then d.Delete(pdfName) else d
  }

  /** Writing the upload and, once it is stored, removing the stale PDF, on the directory
      object: it ends as `SaveUpload` and then `DropStalePdf` specify. */
  method StoreUpload(dir: Directory, docxName: string, pdfName: string, save: SaveOutcome,
                     size: nat, staleRemovalFails: bool)
    requires dir.Valid()
    modifies dir
    ensures dir.Valid()
    ensures var saved := SaveUpload(old(dir.State()), docxName, save, size);
      dir.State() == if save.SaveRaised? then saved
                     else DropStalePdf(saved, pdfName, staleRemovalFails)
  {
    match save {
      case SaveRaised(_, partial) =>
        if partial.Some? {
          dir.Write(docxName, partial.value);
        }
        return;
      case Saved(mtime) =>
        dir.Write(docxName, FileInfo(mtime, size));
    }
    var stale := dir.Exists(pdfName);
    if stale && !staleRemovalFails {
      dir.Remove(pdfName);
    }
  }
}
