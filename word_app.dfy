/** app.py: `POST /convert` converting with docx2pdf (Microsoft Word). The upload is stored as
    `<safe_name>.docx`, converted to `<safe_name>.pdf` in the same directory, the PDF is posted
    to the caller's callback, and both files are deleted when the callback confirms. */
module WordApp {
  import opened Options
  import opened Text
  import opened PyJson
  import opened Artifacts
  import opened Handling

  /** The key whose presence in the callback's JSON answer confirms the upload. */
  const UploadDataKey := "upload_data"

  /** The PDF size above which the handler logs a warning (and uploads anyway). */
  const MaxPdfSize := 5 * 1024 * 1024

  /** What `docx2pdf.convert(path_docx, path_pdf)` did: it returned, having written the PDF
      (`pdf`) or not, or it raised. */
  datatype WordOutcome =
    | Converted(pdf: Option<FileInfo>)
    | WordRaised(msg: string)

  /** `DOC_LOCAL_DIR`, and the directory of app.py itself for its default. */
  datatype Config = Config(docLocalDir: Option<string>, moduleDir: string)

  /** Everything the handler learns from the world: how the upload write went, whether the
      stale-PDF removal raised, the converter and the callback as functions of what they are
      called with, and whether each cleanup deletion raises. */
  datatype Io = Io(
    save: SaveOutcome,
    staleRemovalFails: bool,
    convert: (string, string) -> WordOutcome,
    post: (string, string) -> HttpOutcome,
    docxDeleteFails: bool,
    pdfDeleteFails: bool)

  // ---------------------------------------------------------------------------
  // Validation

  /** Only a `.docx` upload is accepted, whatever the case of its extension. */
  predicate AcceptsUpload(filename: Option<string>): (a: bool)
    ensures a <==> EndsWithIgnoringCase(EffectiveFilename(filename), ".docx")
  {
    HasExtensionIgnoresCase(filename, ".docx");
    HasExtension(filename, ".docx")
  }

  /** An upload without a filename is named `uploaded.docx` and therefore accepted. */
  lemma MissingFilenameAccepted(filename: Option<string>)
    requires filename.None? || filename.value == []
    ensures AcceptsUpload(filename)
  {
  }

  /** The characters `re.sub(r"[^A-Za-z0-9._-]", "_", ...)` keeps. */
  predicate SafeChar(c: char) {
    || ('A' <= c <= 'Z')
    || ('a' <= c <= 'z')
    || ('0' <= c <= '9')
    || c == '.' || c == '_' || c == '-'
  }

  lemma SafeCharNotSpace(c: char)
    requires SafeChar(c)
    ensures !IsSpace(c)
  {
  }

  /** `re.sub(r"[^A-Za-z0-9._-]", "_", nomor_urut).strip()`: every character outside the
      safe set becomes `_`, safe characters stay where they are, and the `strip()` has
      nothing left to remove. */
  function SafeName(nomorUrut: string): (r: string)
    ensures |r| == |nomorUrut|
    ensures forall i :: 0 <= i < |r| ==> SafeChar(r[i])
    ensures forall i :: 0 <= i < |r| && SafeChar(nomorUrut[i]) ==> r[i] == nomorUrut[i]
    ensures forall i :: 0 <= i < |r| && !SafeChar(nomorUrut[i]) ==> r[i] == '_'
  {
    var replaced := ReplaceUnsafe(nomorUrut);
    StripSafe(replaced);
    Strip(replaced)
  }

  /** The `re.sub` step alone: the result holds only safe characters, safe characters are
      kept in place, and a string is left as it is exactly when it was already safe. */
  function ReplaceUnsafe(s: string): (r: string)
    ensures |r| == |s|
    ensures forall i :: 0 <= i < |r| ==> SafeChar(r[i])
    ensures forall i :: 0 <= i < |s| && SafeChar(s[i]) ==> r[i] == s[i]
    ensures r == s <==> forall i :: 0 <= i < |s| ==> SafeChar(s[i])
  {
    seq(|s|, i requires 0 <= i < |s| => if SafeChar(s[i]) then s[i] else '_')
  }

  /** A string of safe characters has no whitespace for `strip()` to remove. */
  lemma StripSafe(s: string)
    requires forall i :: 0 <= i < |s| ==> SafeChar(s[i])
    ensures Strip(s) == s
  {
    forall i | 0 <= i < |s| ensures !IsSpace(s[i]) {
      SafeCharNotSpace(s[i]);
    }
    StripWithoutSpace(s);
  }

  /** Sanitising is idempotent: a sanitised name is its own sanitisation. */
  lemma SafeNameIdempotent(nomorUrut: string)
    ensures SafeName(SafeName(nomorUrut)) == SafeName(nomorUrut)
  {
    var once := SafeName(nomorUrut);
    var twice := SafeName(once);
    assert forall i :: 0 <= i < |once| ==> twice[i] == once[i];
  }

  /** The `nomor_urut` check: the sanitised name must be non-empty and neither `.` nor `..`;
      `None` is the 400 refusal. Since sanitising never produces a dot from anything but a
      dot, `nomor_urut` is refused exactly when it is itself empty, `.` or `..`. */
  function AdmitKey(nomorUrut: string): (key: Option<string>)
    ensures key.None? <==> nomorUrut in {"", ".", ".."}
    ensures key.Some? ==> key.value == SafeName(nomorUrut)
  {
    DotNamesOnlyFromDots(nomorUrut);
    var safe := SafeName(nomorUrut);
    if safe == [] || safe == "." || safe == ".." then None else Some(safe)
  }

  /** The sanitised name is empty, `.` or `..` exactly when `nomor_urut` is. */
  lemma DotNamesOnlyFromDots(nomorUrut: string)
    ensures SafeName(nomorUrut) in {"", ".", ".."} <==> nomorUrut in {"", ".", ".."}
  {
    var safe := SafeName(nomorUrut);
    if safe == "." || safe == ".." {
      forall i | 0 <= i < |safe| ensures nomorUrut[i] == '.' {
        assert safe[i] == '.';
      }
      assert nomorUrut == safe;
    }
  }

  /** An admitted key is a plain file name: it contains no `/` and is not a directory
      reference, so both artifacts are entries of the artifact directory. */
  lemma AdmittedKeyIsPlainName(nomorUrut: string)
    requires AdmitKey(nomorUrut).Some?
    ensures var key := AdmitKey(nomorUrut).value;
      && '/' !in key
      && key != "." && key != ".."
      && !StartsWith(key + ".docx", "/") && !StartsWith(key + ".pdf", "/")
  {
    var key := AdmitKey(nomorUrut).value;
    assert (key + ".docx")[..1] == key[..1] && (key + ".pdf")[..1] == key[..1];
    assert key[0] != '/';
  }

  /** The traversal attempt `../evil` is neither refused nor able to leave the directory:
      it becomes the ordinary name `.._evil`. */
  lemma TraversalKeyNeutralised()
    ensures AdmitKey("../evil") == Some(".._evil")
  {
    var safe := SafeName("../evil");
    assert safe[0] == '.' && safe[1] == '.' && safe[2] == '_';
    assert safe[3] == 'e' && safe[4] == 'v' && safe[5] == 'i' && safe[6] == 'l';
    assert safe == ".._evil";
  }

  // ---------------------------------------------------------------------------
  // Paths and URL

  /** `DOC_LOCAL_DIR`, by default the `document` directory beside app.py. */
  function BaseDir(cfg: Config): (dir: string)
    ensures cfg.docLocalDir.Some? ==> dir == cfg.docLocalDir.value
    ensures cfg.docLocalDir.None? ==> dir == DirPrefix(cfg.moduleDir) + "document"
  {
    assert "document"[..1] == "d";
    cfg.docLocalDir.GetOr(JoinPath(cfg.moduleDir, "document"))
  }

  /** `target_url.rstrip('/') + "/check/responseBalikConvert"`. */
  function PostUrl(targetUrl: string): (url: string)
    ensures EndsWith(url, DefaultCallbackSuffix)
    ensures var base := url[..|url| - |DefaultCallbackSuffix|];
      && StartsWith(targetUrl, base)
      && (base == [] || base[|base| - 1] != '/')
      && forall i :: |base| <= i < |targetUrl| ==> targetUrl[i] == '/'
  {
    CallbackUrl(targetUrl, DefaultCallbackSuffix)
  }

  /** The POST goes to the target with its trailing slashes removed, followed by the fixed
      callback path; however many slashes the target ends in, the URL is the same. */
  lemma PostUrlShape(targetUrl: string)
    ensures EndsWith(PostUrl(targetUrl), DefaultCallbackSuffix)
    ensures PostUrl(targetUrl + "/") == PostUrl(targetUrl)
    ensures var url := PostUrl(targetUrl);
      var base := url[..|url| - |DefaultCallbackSuffix|];
      StartsWith(targetUrl, base) && (base == [] || base[|base| - 1] != '/')
  {
    CallbackUrlIgnoresTrailingSlash(targetUrl, DefaultCallbackSuffix);
  }

  // ---------------------------------------------------------------------------
  // The callback's answer and the cleanup

  /** The cleanup condition `resp.status_code == 200 and resp_json and "upload_data" in
      resp_json`, where a JSON answer that cannot hold keys counts as not holding this one.
      Only a 200 answer that is an object, a list or a string can meet it, and for an object
      the truthiness test adds nothing to the key test. */
  predicate CleanupGate(status: int, rj: Option<Json>): (g: bool)
    ensures g ==> status == 200 && rj.Some? && (rj.value.JObj? || rj.value.JArr? || rj.value.JStr?)
    ensures rj.Some? && rj.value.JObj? ==> (g <==> status == 200 && UploadDataKey in rj.value.fields)
  {
    GateIsKeyTest(rj);

    && status == 200
    && rj.Some?
    && Truthy(rj.value)
    && PyIn(UploadDataKey, rj.value) == Some(true)
  }

  /** A non-empty key held by the answer makes it truthy. */
  lemma GateIsKeyTest(rj: Option<Json>)
    ensures rj.Some? && PyIn(UploadDataKey, rj.value) == Some(true) ==> Truthy(rj.value)
  {
    if rj.Some? && PyIn(UploadDataKey, rj.value) == Some(true) {
      HoldingIsTruthy(UploadDataKey, rj.value);
    }
  }

  /** `files_cleaned` as written: the value of Python's `and` chain, or `None` where the final
      `"upload_data" in resp_json` raises `TypeError` (a truthy number or `true`), which this
      line does outside any `try`. */
  function FilesCleanedAsWritten(status: int, rj: Option<Json>): (r: Option<Json>)
    ensures r.None? <==> status == 200 && rj.Some? && Truthy(rj.value)
                         && (rj.value.JBool? || rj.value.JNum?)
  {
    if status != 200 then Some(JBool(false))
    else if rj.None? then Some(JNull)
    else if !Truthy(rj.value) then Some(rj.value)
    else match PyIn(UploadDataKey, rj.value)
      case None => None
      case Some(b) => Some(JBool(b))
  }

  /** `files_cleaned` with the `in` test made total: the falsy operand that stops the `and`
      chain, or whether the answer holds `upload_data`. It is truthy exactly when the
      cleanup condition holds. */
  function FilesCleaned(status: int, rj: Option<Json>): (r: Json)
    ensures Truthy(r) <==> CleanupGate(status, rj)
  {
    if status != 200 then JBool(false)
    else if rj.None? then JNull
    else if !Truthy(rj.value) then rj.value
    else JBool(PyIn(UploadDataKey, rj.value) == Some(true))
  }

  /** A callback answering 200 with the JSON body `true` makes the written `files_cleaned`
      raise, while the corrected value is `false`. */
  lemma FilesCleanedAsWrittenRaises()
    ensures FilesCleanedAsWritten(200, Some(JBool(true))).None?
    ensures FilesCleaned(200, Some(JBool(true))) == JBool(false)
  {
  }

  /** Wherever the written expression does not raise, the corrected one has its value. */
  lemma FilesCleanedAgreesAsWritten(status: int, rj: Option<Json>)
    requires FilesCleanedAsWritten(status, rj).Some?
    ensures FilesCleanedAsWritten(status, rj).value == FilesCleaned(status, rj)
  {
  }

  /** The cleanup block: only when `gate` holds are the `.docx` and then the `.pdf` deleted,
      each only if it exists. A deletion that raises ends the block (the exception is logged
      and swallowed), so a failed `.docx` deletion also spares the `.pdf`, while a failed
      `.pdf` deletion comes after the `.docx` is gone. */
  function Cleanup(d: Dir, docxName: string, pdfName: string, gate: bool,
                   docxFails: bool, pdfFails: bool): (r: Dir)
    requires d.Wf()
    ensures r.Wf()
    ensures !gate ==> r == d
    ensures gate && docxName in d.info && docxFails ==> r == d
    ensures gate && !(docxName in d.info && docxFails) ==> docxName !in r.info
    ensures gate && !(docxName in d.info && docxFails) && !pdfFails ==> pdfName !in r.info
    ensures pdfFails && pdfName != docxName && pdfName in d.info ==> pdfName in r.info
    ensures forall n :: n in r.info ==> n in d.info && r.info[n] == d.info[n]
    ensures forall n :: n in d.info && n != docxName && n != pdfName ==> n in r.info
  {
    if !gate then d
    else if docxName in d.info && docxFails then d
    else
      var withoutDocx := if docxName in d.info then d.Delete(docxName) else d;
      if pdfName in withoutDocx.info && !pdfFails then withoutDocx.Delete(pdfName)
      else withoutDocx
  }

  // ---------------------------------------------------------------------------
  // The handler

  /** The whole request: the reply and the directory afterwards. Validation comes first and
      touches nothing; an admitted request is processed under its sanitised key. */
  function Handle(d: Dir, req: Request, cfg: Config, io: Io): (out: (Reply, Dir))
    requires d.Wf()
    ensures out.1.Wf()
  {
    if !AcceptsUpload(req.filename) then (Refused(BadUpload), d)
    else match AdmitKey(req.nomorUrut)
    case None => (Refused(BadJobKey), d)
    case Some(key) => Process(d, key, BaseDir(cfg), req.targetUrl, |req.payload|, io)
  }

  /** An admitted request: store the upload, remove the stale PDF, convert. Whatever happens,
      it is not a 400. */
  function Process(d: Dir, key: string, dir: string, targetUrl: string, size: nat, io: Io)
    : (out: (Reply, Dir))
    requires d.Wf()
    ensures out.1.Wf()
    ensures HttpStatus(out.0) != 400
    ensures io.save.SaveRaised? ==> out.0 == Refused(SaveFailed(io.save.msg))
  {
    var saved := SaveUpload(d, key + ".docx", io.save, size);
    if io.save.SaveRaised? then (Refused(SaveFailed(io.save.msg)), saved)
    else Convert(DropStalePdf(saved, key + ".pdf", io.staleRemovalFails), key, dir, targetUrl, io)
  }

  /** `docx2pdf.convert(path_docx, path_pdf)` and the check that the PDF exists. */
  function Convert(d: Dir, key: string, dir: string, targetUrl: string, io: Io)
    : (out: (Reply, Dir))
    requires d.Wf()
    ensures out.1.Wf()
    ensures HttpStatus(out.0) != 400
  {
    match io.convert(DocxPath(dir, key), PdfPath(dir, key))
    case WordRaised(msg) => (Refused(ConversionRaised(msg)), d)
    case Converted(pdf) =>
      var converted := if pdf.Some? then d.Put(key + ".pdf", pdf.value) else d;
      if key + ".pdf" !in converted.info then (Refused(PdfNotFound), converted)
      else Deliver(converted, key, dir, targetUrl, io)
  }

  /** The POST to the callback and the cleanup its answer decides. The reply carries the
      corrected `FilesCleaned`: where app.py:146 raises `TypeError` (a 200 answer that is
      `true` or a non-zero number) and the request ends in an unhandled 500, this reply is the
      200 document with `files_cleaned` false. */
  function Deliver(d: Dir, key: string, dir: string, targetUrl: string, io: Io)
    : (out: (Reply, Dir))
    requires d.Wf()
    ensures out.1.Wf()
    ensures HttpStatus(out.0) != 400
  {
    var url := PostUrl(targetUrl);
    match io.post(url, PdfPath(dir, key))
    case TransportFailed(msg) => (Refused(UploadFailed(msg)), d)
    case Answered(status, text, parsed) =>
      var rj := ResponseJson(parsed);
      var reply := Posted(DocxPath(dir, key), PdfPath(dir, key), url, status,
                          ResponseBody(rj, text), Some(FilesCleaned(status, rj)));
      (reply, Cleanup(d, key + ".docx", key + ".pdf", CleanupGate(status, rj),
                      io.docxDeleteFails, io.pdfDeleteFails))
  }

  /** An admitted request is processed under its sanitised key in the configured directory. */
  lemma HandleAdmitted(d: Dir, req: Request, cfg: Config, io: Io)
    requires d.Wf() && AcceptsUpload(req.filename) && AdmitKey(req.nomorUrut).Some?
    ensures Handle(d, req, cfg, io)
         == Process(d, AdmitKey(req.nomorUrut).value, BaseDir(cfg), req.targetUrl, |req.payload|, io)
  {
  }

  /** The request is refused with 400 exactly when the filename is not `.docx` or
      `nomor_urut` is empty, `.` or `..`; nothing is written then. */
  lemma RefusedWith400Iff(d: Dir, req: Request, cfg: Config, io: Io)
    requires d.Wf()
    ensures var (reply, after) := Handle(d, req, cfg, io);
      && (HttpStatus(reply) == 400
          <==> !AcceptsUpload(req.filename) || req.nomorUrut in {"", ".", ".."})
      && (HttpStatus(reply) == 400 ==> after == d)
  {
      }

  /** What each outcome of the world yields once the upload is stored: 500 when Word raises
      or leaves no PDF, 502 when the POST fails, and a 200 `"status": "ok"` reply for any
      answer the callback gives, carrying that answer's status. */
  lemma StatusOfEachOutcome(d: Dir, key: string, dir: string, targetUrl: string, io: Io)
    requires d.Wf()
    ensures var reply := Convert(d, key, dir, targetUrl, io).0;
      var conv := io.convert(DocxPath(dir, key), PdfPath(dir, key));
      var post := io.post(PostUrl(targetUrl), PdfPath(dir, key));
      var present := conv.Converted? && (conv.pdf.Some? || key + ".pdf" in d.info);
      && HttpStatus(reply) in {200, 500, 502}
      && (conv.WordRaised? ==> reply == Refused(ConversionRaised(conv.msg)))
      && (conv.Converted? && !present ==> reply == Refused(PdfNotFound))
      && (present && post.TransportFailed? ==> reply == Refused(UploadFailed(post.msg)))
      && (present && post.Answered? ==>
            && reply.Posted?
            && reply.targetStatus == post.status
            && reply.savedDocx == DocxPath(dir, key)
            && reply.savedPdf == PdfPath(dir, key)
            && reply.targetPost == PostUrl(targetUrl))
  {
  }

  /** The PDF is posted whatever its size: replacing the size Word reports by any other
      changes nothing in the reply (the size only decides a log line). */
  lemma PdfSizeIrrelevant(d: Dir, key: string, dir: string, targetUrl: string, io: Io, size: nat)
    requires d.Wf()
    ensures var resized := io.(convert := (a, b) => Resized(io.convert(a, b), size));
      Convert(d, key, dir, targetUrl, io).0 == Convert(d, key, dir, targetUrl, resized).0
  {
    var resized := io.(convert := (a, b) => Resized(io.convert(a, b), size));
    var conv := io.convert(DocxPath(dir, key), PdfPath(dir, key));
    if conv.Converted? && conv.pdf.Some? {
      var d1 := d.Put(key + ".pdf", conv.pdf.value);
      var d2 := d.Put(key + ".pdf", conv.pdf.value.(size := size));
      assert d1.names == d2.names;
      assert Deliver(d1, key, dir, targetUrl, io).0 == Deliver(d2, key, dir, targetUrl, resized).0;
    }
  }

  function Resized(o: WordOutcome, size: nat): WordOutcome {
    if o.Converted? && o.pdf.Some? then Converted(Some(o.pdf.value.(size := size))) else o
  }

  /** Once the callback has answered, `files_cleaned` is truthy exactly when the answer was
      200 with a truthy JSON document holding `upload_data`; deletion failures change nothing
      in the reply; without that confirmation both artifacts are kept, with it and without
      failures both are gone. */
  lemma CleanupFollowsConfirmation(d: Dir, key: string, dir: string, targetUrl: string, io: Io,
                                   docxFails: bool, pdfFails: bool)
    requires d.Wf() && key + ".docx" in d.info && key + ".pdf" in d.info
    requires Deliver(d, key, dir, targetUrl, io).0.Posted?
    ensures var (reply, after) := Deliver(d, key, dir, targetUrl, io);
      var confirmed := reply.targetStatus == 200 && reply.targetResponse.JsonBody?
                       && Truthy(reply.targetResponse.json)
                       && PyIn(UploadDataKey, reply.targetResponse.json) == Some(true);
      var io' := io.(docxDeleteFails := docxFails, pdfDeleteFails := pdfFails);
      && (Truthy(reply.filesCleaned.value) <==> confirmed)
      && Deliver(d, key, dir, targetUrl, io').0 == reply
      && (!confirmed ==> after == d)
      && (confirmed && !io.docxDeleteFails && !io.pdfDeleteFails ==>
            key + ".docx" !in after.info && key + ".pdf" !in after.info)
  {
  }

  /** When the stale PDF cannot be removed and Word writes nothing, the stale PDF passes the
      existence check and is posted as the result. */
  lemma StalePdfPostedWhenRemovalFails(d: Dir, key: string, dir: string, targetUrl: string,
                                       size: nat, io: Io)
    requires d.Wf() && key + ".pdf" in d.info
    requires io.save.Saved? && io.staleRemovalFails
    requires io.convert(DocxPath(dir, key), PdfPath(dir, key)) == Converted(None)
    requires io.post(PostUrl(targetUrl), PdfPath(dir, key)).Answered?
    ensures Process(d, key, dir, targetUrl, size, io).0.Posted?
  {
    ArtifactNamesDiffer(key);
  }

  /** A stored job whose conversion writes the PDF and whose callback answers 200 with a JSON
      object holding `upload_data` is reported with `files_cleaned` true, and, when neither
      deletion raises, leaves neither artifact behind, whatever became of the stale PDF. */
  lemma ConfirmedUploadLeavesNothing(d: Dir, key: string, dir: string, targetUrl: string,
                                     size: nat, io: Io, pdf: FileInfo, text: string,
                                     fields: map<string, Json>)
    requires d.Wf()
    requires io.save.Saved? && !io.docxDeleteFails && !io.pdfDeleteFails
    requires io.convert(DocxPath(dir, key), PdfPath(dir, key)) == Converted(Some(pdf))
    requires io.post(PostUrl(targetUrl), PdfPath(dir, key)) == Answered(200, text, Some(JObj(fields)))
    requires UploadDataKey in fields
    ensures var (reply, after) := Process(d, key, dir, targetUrl, size, io);
      && reply.Posted?
      && reply.filesCleaned == Some(JBool(true))
      && key + ".docx" !in after.info && key + ".pdf" !in after.info
  {
    var saved := SaveUpload(d, key + ".docx", io.save, size);
    var cleared := DropStalePdf(saved, key + ".pdf", io.staleRemovalFails);
    ArtifactNamesDiffer(key);
    var converted := cleared.Put(key + ".pdf", pdf);
    assert Process(d, key, dir, targetUrl, size, io) == Deliver(converted, key, dir, targetUrl, io);
    CleanupFollowsConfirmation(converted, key, dir, targetUrl, io, false, false);
  }

  // ---------------------------------------------------------------------------
  // The handler, step by step on the directory

  /** The cleanup block on the directory object: when `gate` holds, delete the `.docx` and
      then the `.pdf`, each if it exists; a deletion that raises ends the block. */
  method CleanUpArtifacts(dir: Directory, docxName: string, pdfName: string, gate: bool,
                          docxFails: bool, pdfFails: bool)
    requires dir.Valid()
    modifies dir
    ensures dir.Valid()
    ensures dir.State() == Cleanup(old(dir.State()), docxName, pdfName, gate, docxFails, pdfFails)
  {
    if gate {
      var hasDocx := dir.Exists(docxName);
      if hasDocx && docxFails {
        return;
      }
      if hasDocx {
        dir.Remove(docxName);
      }
      var hasPdf := dir.Exists(pdfName);
      if hasPdf && !pdfFails {
        dir.Remove(pdfName);
      }
    }
  }

  /** From `convert(path_docx, path_pdf)` on: converts, checks for the PDF, posts it and
      cleans up. */
  method ConvertAndPost(dir: Directory, key: string, baseDir: string, targetUrl: string, io: Io)
    returns (reply: Reply)
    requires dir.Valid()
    modifies dir
    ensures dir.Valid()
    ensures (reply, dir.State()) == Convert(old(dir.State()), key, baseDir, targetUrl, io)
  {
    var docxName, pdfName := key + ".docx", key + ".pdf";
    var pathDocx, pathPdf := JoinPath(baseDir, docxName), JoinPath(baseDir, pdfName);

    var outcome := io.convert(pathDocx, pathPdf);
    if outcome.WordRaised? {
      return Refused(ConversionRaised(outcome.msg));
    }
    if outcome.pdf.Some? {
      dir.Write(pdfName, outcome.pdf.value);
    }
    var pdfExists := dir.Exists(pdfName);
    if !pdfExists {
      return Refused(PdfNotFound);
    }
    ghost var converted := dir.State();

    var postUrl := PostUrl(targetUrl);
    var resp := io.post(postUrl, pathPdf);
    if resp.TransportFailed? {
      return Refused(UploadFailed(resp.msg));
    }
    var respJson := ResponseJson(resp.parsed);
    CleanUpArtifacts(dir, docxName, pdfName, CleanupGate(resp.status, respJson),
                     io.docxDeleteFails, io.pdfDeleteFails);
    reply := Posted(pathDocx, pathPdf, postUrl, resp.status, ResponseBody(respJson, resp.text),
                    Some(FilesCleaned(resp.status, respJson)));
    assert (reply, dir.State()) == Deliver(converted, key, baseDir, targetUrl, io);
  }

  /** `convert_docx_to_pdf`: validates, stores the upload, removes the stale PDF, converts,
      checks for the PDF, posts it and cleans up, changing `dir` as it goes. */
  method ConvertDocxToPdf(dir: Directory, req: Request, cfg: Config, io: Io)
    returns (reply: Reply)
    requires dir.Valid()
    modifies dir
    ensures dir.Valid()
    ensures (reply, dir.State()) == Handle(old(dir.State()), req, cfg, io)
  {
    ghost var d0 := dir.State();
    if !AcceptsUpload(req.filename) {
      return Refused(BadUpload);
    }
    var admitted := AdmitKey(req.nomorUrut);
    if admitted.None? {
      return Refused(BadJobKey);
    }
    var safeName := admitted.value;

    var baseDir := BaseDir(cfg);
    var docxName, pdfName := safeName + ".docx", safeName + ".pdf";
    HandleAdmitted(d0, req, cfg, io);
    ghost var spec := Process(d0, safeName, baseDir, req.targetUrl, |req.payload|, io);

    StoreUpload(dir, docxName, pdfName, io.save, |req.payload|, io.staleRemovalFails);
    if io.save.SaveRaised? {
      return Refused(SaveFailed(io.save.msg));
    }
    assert spec == Convert(dir.State(), safeName, baseDir, req.targetUrl, io);

    reply := ConvertAndPost(dir, safeName, baseDir, req.targetUrl, io);
  }
}
