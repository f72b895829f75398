/** pdef_generator_3/app.py: `POST /convert` converting with LibreOffice. The upload is stored as
    `<nomor_urut>.docx` in the configured directory, `soffice` converts it into that directory,
    the PDF (or, failing that, the newest PDF in the directory) is posted to the caller's
    callback, and both files are kept. */
module OfficeApp {
  import opened Options
  import opened Text
  import opened PyJson
  import opened Artifacts
  import opened Handling

  /** The defaults of `DOC_BASE_DIR`, `DOC_SUB_DIR` and `CONVERT_TIMEOUT`. */
  const DefaultBaseDir := "/var/www/service.sidinarbnn.my.id/html"
  const DefaultSubDir := "dokumen"
  const DefaultTimeoutText := "120"
  const DefaultTimeout := 120

  /** A file `soffice` wrote into the output directory. */
  datatype Produced = Produced(name: string, info: FileInfo)

  /** What `subprocess.run` of `soffice` did: the executable was not found, the timeout
      expired, or the process exited with a return code, its captured output, and the file it
      wrote, if any. */
  datatype SofficeOutcome =
    | SofficeMissing
    | SofficeTimedOut
    | SofficeExited(returnCode: int, stdout: string, stderr: string, output: Option<Produced>)

  /** The environment variables the handler reads; `None` when unset. */
  datatype Config = Config(docBaseDir: Option<string>, docSubDir: Option<string>,
                           convertTimeout: Option<string>, endpointSuffix: Option<string>)

  /** Everything the handler learns from the world: how the upload write went, whether the
      stale-PDF removal raised, and `soffice` and the callback as functions of what they are
      called with. */
  datatype Io = Io(
    save: SaveOutcome,
    staleRemovalFails: bool,
    run: (seq<string>, int) -> SofficeOutcome,
    post: (string, string) -> HttpOutcome)

  // ---------------------------------------------------------------------------
  // Validation

  /** A `.docx` or `.doc` upload is accepted, whatever the case of its extension. */
  predicate AcceptsUpload(filename: Option<string>): (a: bool)
    ensures a <==> EndsWithIgnoringCase(EffectiveFilename(filename), ".docx")
                   || EndsWithIgnoringCase(EffectiveFilename(filename), ".doc")
  {
    HasExtensionIgnoresCase(filename, ".docx");
    HasExtensionIgnoresCase(filename, ".doc");
    HasExtension(filename, ".docx") || HasExtension(filename, ".doc")
  }

  /** An upload without a filename is named `uploaded.docx` and therefore accepted. */
  lemma MissingFilenameAccepted(filename: Option<string>)
    requires filename.None? || filename.value == []
    ensures AcceptsUpload(filename)
  {
  }

  /** `nomor_urut.isdigit()`: non-empty and made of decimal digits only. Such a key has no
      whitespace, no `/` and no leading dot. */
  predicate IsDigitString(s: string): (b: bool)
    ensures b <==> s != [] && forall i :: 0 <= i < |s| ==> '0' <= s[i] <= '9'
    ensures b ==> s[0] != '.' && forall i :: 0 <= i < |s| ==> s[i] != '/' && !IsSpace(s[i])
  {
    s != [] && AllDigits(s)
  }

  /** A digit key is used unchanged as the stem of both artifacts, which are then plain
      entries of the artifact directory differing only in their extension. */
  lemma DigitKeyPaths(full: string, key: string)
    requires IsDigitString(key)
    ensures DocxPath(full, key) == DirPrefix(full) + key + ".docx"
    ensures PdfPath(full, key) == DirPrefix(full) + key + ".pdf"
    ensures '/' !in key && key != "." && key != ".."
  {
    assert key[0] != '/' && key[..1] == [key[0]];
    ArtifactPathsShareStem(full, key);
    assert key[0] != '.';
  }

  // ---------------------------------------------------------------------------
  // Configuration

  /** `os.path.join(DOC_BASE_DIR, DOC_SUB_DIR)`, the directory the artifacts go to. */
  function FullPath(cfg: Config): (full: string)
    ensures var base, sub := cfg.docBaseDir.GetOr(DefaultBaseDir), cfg.docSubDir.GetOr(DefaultSubDir);
      full == if StartsWith(sub, "/") then sub else DirPrefix(base) + sub
  {
    JoinPath(cfg.docBaseDir.GetOr(DefaultBaseDir), cfg.docSubDir.GetOr(DefaultSubDir))
  }

  /** `int(os.getenv("CONVERT_TIMEOUT", "120"))`, and 120 when `int()` raises: unset, it is
      120; any other timeout is the value `int()` read from the setting. */
  function ConvertTimeout(setting: Option<string>): (t: int)
    ensures setting.None? ==> t == DefaultTimeout
    ensures t != DefaultTimeout ==> setting.Some? && ParseInt(setting.value) == Some(t)
    ensures setting.Some? && ParseInt(setting.value).Some? ==> t == ParseInt(setting.value).value
    ensures setting.Some? && ParseInt(setting.value).None? ==> t == DefaultTimeout
  {
    DefaultTimeoutParses();
    match ParseInt(setting.GetOr(DefaultTimeoutText))
    case None => DefaultTimeout
    case Some(n) => n
  }

  /** Unset, the timeout is 120 seconds; set to the decimal rendering of an integer, it is
      that integer, unless the rendering has more digits than `int()` converts; set to text
      `int()` refuses, it is 120 seconds. */
  lemma ConvertTimeoutSettings(n: int, junk: string)
    requires ParseInt(junk).None?
    ensures ConvertTimeout(None) == DefaultTimeout
    ensures ConvertTimeout(Some(IntString(n)))
         == if DigitCount(n) <= MaxStrDigits then n else DefaultTimeout
    ensures ConvertTimeout(Some(junk)) == DefaultTimeout
  {
    ParseIntString(n);
    DefaultTimeoutParses();
  }

  /** A setting that starts with the separator U+001C is refused by `int()`, though `strip()`
      would remove that character: the timeout falls back to 120 seconds. */
  lemma SeparatorTimeoutRefused()
    ensures ConvertTimeout(Some("\U{1C}60")) == DefaultTimeout
  {
    SeparatorNotSkipped();
  }

  lemma DefaultTimeoutParses()
    ensures ParseInt(DefaultTimeoutText) == Some(DefaultTimeout)
  {
    ParseDigits(DefaultTimeoutText);
    DefaultTimeoutValue();
  }

  lemma DefaultTimeoutValue()
    ensures DigitsValue(DefaultTimeoutText) == DefaultTimeout
  {
    assert "120"[..2] == "12";
    assert "12"[..1] == "1";
    assert DigitsValue("1") == 1;
    assert DigitsValue("12") == 12;
  }

  /** The command line `soffice --headless --nologo --norestore --nodefault --nolockcheck
      --convert-to pdf --outdir <outdir> <input>`. */
  function SofficeArgv(outdir: string, input: string): (argv: seq<string>)
    ensures |argv| == 11 && argv[0] == "soffice"
    ensures argv[6] == "--convert-to" && argv[7] == "pdf"
    ensures argv[8] == "--outdir" && argv[9] == outdir && argv[10] == input
  {
    ["soffice", "--headless", "--nologo", "--norestore", "--nodefault", "--nolockcheck",
     "--convert-to", "pdf", "--outdir", outdir, input]
  }

  /** The callback URL: `target_url.rstrip("/")` followed by `TARGET_ENDPOINT_SUFFIX`, by
      default `/check/responseBalikConvert`. */
  function PostUrl(targetUrl: string, suffixSetting: Option<string>): (url: string)
    ensures EndsWith(url, suffixSetting.GetOr(DefaultCallbackSuffix))
    ensures var base := url[..|url| - |suffixSetting.GetOr(DefaultCallbackSuffix)|];
      && StartsWith(targetUrl, base)
      && (base == [] || base[|base| - 1] != '/')
      && forall i :: |base| <= i < |targetUrl| ==> targetUrl[i] == '/'
  {
    CallbackUrl(targetUrl, suffixSetting.GetOr(DefaultCallbackSuffix))
  }

  /** A target made only of slashes, the empty one included, leaves just the suffix. */
  lemma SlashOnlyTargetBareSuffix(targetUrl: string, suffixSetting: Option<string>)
    requires forall i :: 0 <= i < |targetUrl| ==> targetUrl[i] == '/'
    ensures PostUrl(targetUrl, suffixSetting) == suffixSetting.GetOr(DefaultCallbackSuffix)
  {
  }

  // ---------------------------------------------------------------------------
  // The PDF to send

  /** `p.lower().endswith(".pdf")`: the name ends in `.pdf` in any mix of cases. */
  predicate IsPdfName(n: string): (b: bool)
    ensures b <==> EndsWithIgnoringCase(n, ".pdf")
  {
    LowerEndsWith(n, ".pdf");
    EndsWith(Lower(n), ".pdf")
  }

  /** `[p for p in os.listdir(fullpath) if p.lower().endswith(".pdf")]`: the PDF entries, in
      listing order. */
  function PdfCandidates(names: seq<string>): (c: seq<string>)
    ensures |c| <= |names|
    ensures forall x :: x in c <==> x in names && IsPdfName(x)
    ensures NoDup(names) ==> NoDup(c)
  {
    if names == [] then []
    else
      var rest := PdfCandidates(names[1..]);
      assert NoDup(names) ==> names[0] !in names[1..];
      if IsPdfName(names[0]) then [names[0]] + rest else rest
  }

  /** The index `max(..., key=getmtime)` settles on: the first of the latest-modified
      candidates. */
  function NewestIndex(c: seq<string>, info: map<string, FileInfo>): (k: nat)
    requires c != []
    requires forall x :: x in c ==> x in info
    ensures k < |c|
    ensures forall i :: 0 <= i < |c| ==> info[c[i]].mtime <= info[c[k]].mtime
    ensures forall i :: 0 <= i < k ==> info[c[i]].mtime < info[c[k]].mtime
  {
    if |c| == 1 then 0
    else
      var k := NewestIndex(c[..|c| - 1], info);
      if info[c[|c| - 1]].mtime > info[c[k]].mtime then |c| - 1 else k
  }

  /** The two properties of `NewestIndex` single out one index. */
  lemma NewestIndexUnique(c: seq<string>, info: map<string, FileInfo>, j: nat)
    requires c != [] && forall x :: x in c ==> x in info
    requires j < |c|
    requires forall i :: 0 <= i < |c| ==> info[c[i]].mtime <= info[c[j]].mtime
    requires forall i :: 0 <= i < j ==> info[c[i]].mtime < info[c[j]].mtime
    ensures NewestIndex(c, info) == j
  {
    var k := NewestIndex(c, info);
    assert info[c[k]].mtime <= info[c[j]].mtime && info[c[j]].mtime <= info[c[k]].mtime;
  }

  /** `path_pdf` after the existence check: the job's own PDF when it exists, otherwise the
      newest PDF of the directory; `None` is the "no PDF" refusal. */
  function PdfToSend(d: Dir, full: string, pdfName: string): (p: Option<string>)
    requires d.Wf()
    ensures pdfName in d.info ==> p == Some(JoinPath(full, pdfName))
    ensures p.Some? ==> exists n :: n in d.info && (n == pdfName || IsPdfName(n))
                                    && p.value == JoinPath(full, n)
  {
    if pdfName in d.info then Some(JoinPath(full, pdfName))
    else
      var c := PdfCandidates(d.names);
      if c == [] then None else Some(JoinPath(full, c[NewestIndex(c, d.info)]))
  }

  /** There is nothing to send exactly when neither the job's PDF nor any other PDF is in the
      directory. */
  lemma PdfToSendNoneIff(d: Dir, full: string, pdfName: string)
    requires d.Wf()
    ensures PdfToSend(d, full, pdfName).None? <==>
              pdfName !in d.info && forall n :: n in d.info ==> !IsPdfName(n)
  {
    var c := PdfCandidates(d.names);
    if pdfName !in d.info && c == [] {
      forall n | n in d.info ensures !IsPdfName(n) {
        assert n in d.names;
      }
    }
    if c != [] {
      assert c[0] in d.info && IsPdfName(c[0]);
    }
  }

  /** Without the job's own PDF, the one sent is a PDF entry of the directory modified no
      earlier than any other, and listed before every other such entry. */
  lemma FallbackPicksNewestPdf(d: Dir, full: string, pdfName: string)
    requires d.Wf() && pdfName !in d.info
    requires PdfToSend(d, full, pdfName).Some?
    ensures exists n ::
      && n in d.info && IsPdfName(n)
      && PdfToSend(d, full, pdfName) == Some(JoinPath(full, n))
      && (forall m :: m in d.info && IsPdfName(m) ==> d.info[m].mtime <= d.info[n].mtime)
      && (forall i, j :: 0 <= i < j < |d.names| && d.names[j] == n && IsPdfName(d.names[i])
            ==> d.info[d.names[i]].mtime < d.info[n].mtime)
  {
    var c := PdfCandidates(d.names);
    var k := NewestIndex(c, d.info);
    var n := c[k];
    forall m | m in d.info && IsPdfName(m) ensures d.info[m].mtime <= d.info[n].mtime {
      assert m in d.names && m in c;
    }
    forall i, j | 0 <= i < j < |d.names| && d.names[j] == n && IsPdfName(d.names[i])
      ensures d.info[d.names[i]].mtime < d.info[n].mtime
    {
      CandidateOrder(d.names, i, j);
      var ci :| 0 <= ci < k && c[ci] == d.names[i];
    }
  }

  /** A PDF entry listed before another is a candidate before it. */
  lemma {:induction false} CandidateOrder(names: seq<string>, i: nat, j: nat)
    requires NoDup(names) && i < j < |names| && IsPdfName(names[i]) && IsPdfName(names[j])
    ensures exists ci, cj ::
      && 0 <= ci < cj < |PdfCandidates(names)|
      && PdfCandidates(names)[ci] == names[i] && PdfCandidates(names)[cj] == names[j]
  {
    var c := PdfCandidates(names);
    var rest := PdfCandidates(names[1..]);
    if i == 0 {
      assert names[j] in names[1..];
      var cj :| 0 <= cj < |rest| && rest[cj] == names[j];
      assert c[0] == names[0] && c[cj + 1] == names[j];
    } else {
      assert names[i] == names[1..][i - 1] && names[j] == names[1..][j - 1];
      CandidateOrder(names[1..], i - 1, j - 1);
      var ci, cj :| 0 <= ci < cj < |rest| && rest[ci] == names[i] && rest[cj] == names[j];
      if IsPdfName(names[0]) {
        assert c == [names[0]] + rest;
        assert 0 <= ci + 1 < cj + 1 < |c| && c[ci + 1] == names[i] && c[cj + 1] == names[j];
      } else {
        assert c == rest;
        assert c[ci] == names[i] && c[cj] == names[j];
      }
    }
  }

  /** The fallback does not look at the job key: with the job's PDF missing, a lone PDF of
      any other name is the one sent. */
  lemma FallbackIgnoresJobKey(full: string, pdfName: string, other: string, fi: FileInfo)
    requires other != pdfName && IsPdfName(other)
    ensures PdfToSend(Dir([other], map[other := fi]), full, pdfName) == Some(JoinPath(full, other))
  {
    var d := Dir([other], map[other := fi]);
    assert PdfCandidates(d.names) == [other] by {
      assert d.names[1..] == [];
    }
  }

  // ---------------------------------------------------------------------------
  // The handler

  /** The whole request: the reply and the directory afterwards. Validation comes first and
      touches nothing. */
  function Handle(d: Dir, req: Request, cfg: Config, io: Io): (out: (Reply, Dir))
    requires d.Wf()
    ensures out.1.Wf()
  {
    if !AcceptsUpload(req.filename) then (Refused(BadUpload), d)
    else if !IsDigitString(req.nomorUrut) then (Refused(BadJobKey), d)
    else Process(d, req.nomorUrut, FullPath(cfg), req.targetUrl, |req.payload|,
                 ConvertTimeout(cfg.convertTimeout), cfg.endpointSuffix, io)
  }

  /** An admitted request: store the upload, remove the stale PDF, convert. Whatever happens,
      it is not a 400, and a stored upload is never removed. */
  function Process(d: Dir, key: string, full: string, targetUrl: string, size: nat,
                   timeout: int, suffixSetting: Option<string>, io: Io): (out: (Reply, Dir))
    requires d.Wf()
    ensures out.1.Wf()
    ensures HttpStatus(out.0) != 400
    ensures io.save.SaveRaised? ==> out.0 == Refused(SaveFailed(io.save.msg))
    ensures io.save.Saved? ==> key + ".docx" in out.1.info
  {
    var saved := SaveUpload(d, key + ".docx", io.save, size);
    if io.save.SaveRaised? then (Refused(SaveFailed(io.save.msg)), saved)
    else
      var cleared := DropStalePdf(saved, key + ".pdf", io.staleRemovalFails);
      ArtifactNamesDiffer(key);
      Convert(cleared, key, full, targetUrl, timeout, suffixSetting, io)
  }

  /** `subprocess.run` of `soffice`, the checks of its outcome and the choice of the PDF. The
      directory only ever gains what `soffice` wrote. */
  function Convert(d: Dir, key: string, full: string, targetUrl: string, timeout: int,
                   suffixSetting: Option<string>, io: Io): (out: (Reply, Dir))
    requires d.Wf()
    ensures out.1.Wf()
    ensures HttpStatus(out.0) != 400
    ensures forall n :: n in d.info ==> n in out.1.info
  {
    match io.run(SofficeArgv(full, DocxPath(full, key)), timeout)
    case SofficeMissing => (Refused(EngineNotFound), d)
    case SofficeTimedOut => (Refused(ConversionTimedOut(timeout)), d)
    case SofficeExited(rc, stdout, stderr, output) =>
      var after := if output.Some? then d.Put(output.value.name, output.value.info) else d;
      if rc != 0 then (Refused(ConversionExited(Strip(stderr), Strip(stdout))), after)
      else match PdfToSend(after, full, key + ".pdf")
        case None => (Refused(PdfNotFound), after)
        case Some(pathPdf) => (Deliver(key, full, pathPdf, targetUrl, suffixSetting, io), after)
  }

  /** The POST of `pathPdf` to the callback; its answer is reported as it came. */
  function Deliver(key: string, full: string, pathPdf: string, targetUrl: string,
                   suffixSetting: Option<string>, io: Io): (reply: Reply)
    ensures HttpStatus(reply) in {200, 502}
  {
    var url := PostUrl(targetUrl, suffixSetting);
    match io.post(url, pathPdf)
    case TransportFailed(msg) => Refused(UploadFailed(msg))
    case Answered(status, text, parsed) =>
      Posted(DocxPath(full, key), pathPdf, url, status, ResponseBody(ResponseJson(parsed), text),
             None)
  }

  /** An admitted request is processed under its own key in the configured directory with
      the configured timeout. */
  lemma HandleAdmitted(d: Dir, req: Request, cfg: Config, io: Io)
    requires d.Wf() && AcceptsUpload(req.filename) && IsDigitString(req.nomorUrut)
    ensures Handle(d, req, cfg, io)
         == Process(d, req.nomorUrut, FullPath(cfg), req.targetUrl, |req.payload|,
                    ConvertTimeout(cfg.convertTimeout), cfg.endpointSuffix, io)
  {
  }

  /** The request is refused with 400 exactly when the filename is neither `.docx` nor `.doc`
      or `nomor_urut` is not a digit string; nothing is written then. */
  lemma RefusedWith400Iff(d: Dir, req: Request, cfg: Config, io: Io)
    requires d.Wf()
    ensures var (reply, after) := Handle(d, req, cfg, io);
      && (HttpStatus(reply) == 400 <==> !AcceptsUpload(req.filename) || !IsDigitString(req.nomorUrut))
      && (HttpStatus(reply) == 400 ==> after == d)
  {
  }

  /** What each outcome of `soffice` yields: 500 when it is missing, 504 naming the timeout
      when it overran, 500 with its stripped stderr and stdout when it exited non-zero, 500
      when no PDF can be found, and otherwise whatever the POST of the chosen PDF yields. */
  lemma StatusOfEachOutcome(d: Dir, key: string, full: string, targetUrl: string, timeout: int,
                            suffixSetting: Option<string>, io: Io)
    requires d.Wf()
    ensures var (reply, after) := Convert(d, key, full, targetUrl, timeout, suffixSetting, io);
      var run := io.run(SofficeArgv(full, DocxPath(full, key)), timeout);
      && (run.SofficeMissing? ==> reply == Refused(EngineNotFound) && HttpStatus(reply) == 500)
      && (run.SofficeTimedOut? ==>
            reply == Refused(ConversionTimedOut(timeout)) && HttpStatus(reply) == 504)
      && (run.SofficeExited? && run.returnCode != 0 ==>
            reply == Refused(ConversionExited(Strip(run.stderr), Strip(run.stdout)))
            && HttpStatus(reply) == 500)
      && (run.SofficeExited? && run.returnCode == 0 ==>
            match PdfToSend(after, full, key + ".pdf")
            case None => reply == Refused(PdfNotFound) && HttpStatus(reply) == 500
            case Some(pathPdf) => reply == Deliver(key, full, pathPdf, targetUrl, suffixSetting, io))
  {
  }

  /** The callback's answer never changes the directory: whatever it says, both artifacts
      stay where they are. */
  lemma NoCleanupAfterPost(d: Dir, key: string, full: string, targetUrl: string, size: nat,
                           timeout: int, suffixSetting: Option<string>, io: Io,
                           post: (string, string) -> HttpOutcome)
    requires d.Wf()
    ensures Process(d, key, full, targetUrl, size, timeout, suffixSetting, io).1
         == Process(d, key, full, targetUrl, size, timeout, suffixSetting, io.(post := post)).1
  {
  }

  /** A completed request reports the stored upload, the PDF it chose, the callback URL and
      the callback's own status; it carries no `files_cleaned`. */
  lemma PostedReplyContents(key: string, full: string, pathPdf: string, targetUrl: string,
                            suffixSetting: Option<string>, io: Io)
    ensures var reply := Deliver(key, full, pathPdf, targetUrl, suffixSetting, io);
      var answer := io.post(PostUrl(targetUrl, suffixSetting), pathPdf);
      && (reply.Posted? <==> answer.Answered?)
      && (reply.Posted? ==>
            && reply.savedDocx == DocxPath(full, key)
            && reply.savedPdf == pathPdf
            && reply.targetPost == PostUrl(targetUrl, suffixSetting)
            && reply.targetStatus == answer.status
            && reply.filesCleaned.None?)
  {
  }

  // ---------------------------------------------------------------------------
  // The handler, step by step on the directory

  /** The existence check and the fallback on the directory itself: the job's PDF if it
      exists, else the newest PDF `os.listdir` shows. */
  method FindPdf(dir: Directory, fullpath: string, pdfName: string) returns (pathPdf: Option<string>)
    requires dir.Valid()
    ensures pathPdf == PdfToSend(dir.State(), fullpath, pdfName)
  {
    var pdfExists := dir.Exists(pdfName);
    if pdfExists {
      return Some(JoinPath(fullpath, pdfName));
    }
    var listing := dir.List();
    var candidates := PdfCandidates(listing);
    if candidates == [] {
      return None;
    }
    var newest := NewestIndex(candidates, dir.info);
    pathPdf := Some(JoinPath(fullpath, candidates[newest]));
  }

  /** From `subprocess.run` on: runs `soffice`, checks its outcome, finds the PDF and posts
      it. */
  method ConvertAndPost(dir: Directory, key: string, fullpath: string, targetUrl: string,
                        timeout: int, suffixSetting: Option<string>, io: Io)
    returns (reply: Reply)
    requires dir.Valid()
    modifies dir
    ensures dir.Valid()
    ensures (reply, dir.State())
         == Convert(old(dir.State()), key, fullpath, targetUrl, timeout, suffixSetting, io)
  {
    var proc := io.run(SofficeArgv(fullpath, JoinPath(fullpath, key + ".docx")), timeout);
    match proc {
      case SofficeMissing =>
        return Refused(EngineNotFound);
      case SofficeTimedOut =>
        return Refused(ConversionTimedOut(timeout));
      case SofficeExited(rc, stdout, stderr, output) =>
        if output.Some? {
          dir.Write(output.value.name, output.value.info);
        }
        if rc != 0 {
          return Refused(ConversionExited(Strip(stderr), Strip(stdout)));
        }
    }

    var found := FindPdf(dir, fullpath, key + ".pdf");
    if found.None? {
      return Refused(PdfNotFound);
    }
    var pathPdf := found.value;

    var postUrl := PostUrl(targetUrl, suffixSetting);
    var resp := io.post(postUrl, pathPdf);
    if resp.TransportFailed? {
      return Refused(UploadFailed(resp.msg));
    }
    reply := Posted(JoinPath(fullpath, key + ".docx"), pathPdf, postUrl, resp.status,
                    ResponseBody(ResponseJson(resp.parsed), resp.text), None);
  }

  /** `convert_docx_to_pdf`: validates, stores the upload, removes the stale PDF, runs
      `soffice`, finds the PDF and posts it, changing `dir` as it goes. */
  method ConvertDocxToPdf(dir: Directory, req: Request, cfg: Config, io: Io)
    returns (reply: Reply)
    requires dir.Valid()
    modifies dir
    ensures dir.Valid()
    ensures (reply, dir.State()) == Handle(old(dir.State()), req, cfg, io)
  {
    ghost var d0 := dir.State();
    if !AcceptsUpload(req.filename) {
      return Refused(BadUpload);
    }
    if !IsDigitString(req.nomorUrut) {
      return Refused(BadJobKey);
    }
    var key := req.nomorUrut;

    var fullpath := FullPath(cfg);
    var docxName, pdfName := key + ".docx", key + ".pdf";
    var timeout := ConvertTimeout(cfg.convertTimeout);
    HandleAdmitted(d0, req, cfg, io);
    ghost var spec := Process(d0, key, fullpath, req.targetUrl, |req.payload|, timeout,
                              cfg.endpointSuffix, io);
    assert Handle(d0, req, cfg, io) == spec;

    StoreUpload(dir, docxName, pdfName, io.save, |req.payload|, io.staleRemovalFails);
    if io.save.SaveRaised? {
      return Refused(SaveFailed(io.save.msg));
    }
    assert spec
        == Convert(dir.State(), key, fullpath, req.targetUrl, timeout, cfg.endpointSuffix, io);

    reply := ConvertAndPost(dir, key, fullpath, req.targetUrl, timeout, cfg.endpointSuffix, io);
  }
}
