# DOCX to PDF converter: the `/convert` handler in Dafny

The service takes a Word document upload together with a job key (`nomor_urut`) and a
callback address (`target_url`). It stores the upload as `<key>.docx`, converts it to
`<key>.pdf`, and posts the PDF to `<target_url without trailing slashes>` followed by a
callback path. Its JSON reply says where the files were saved and what the callback answered.
Two revisions of the handler `convert_docx_to_pdf` are modelled:

- `app.py` converts with docx2pdf (Microsoft Word). It sanitises the job key character by
  character. It deletes both artifacts when the callback confirms the upload, and reports
  this as `files_cleaned`.
- `pdef_generator_3/app.py` converts with LibreOffice (`soffice`). It admits only digit job
  keys, reads its directories, timeout and callback suffix from the environment, and falls
  back to the newest PDF in the directory when the expected one is missing. Apart from the
  stale `<key>.pdf` it removes before converting, it deletes nothing, and nothing after the
  POST.

Each revision is modelled twice:

- as a pure function `Handle(d, req, cfg, io)` giving the reply and the artifact directory
  afterwards, staged as `Process` (store and clear), `Convert` and `Deliver`;
- as a method `ConvertDocxToPdf` that performs the same steps on a `Directory` object, proved
  to leave the directory and return the reply that `Handle` describes.

The world the handler talks to is an input, the `Io` datatype:

- how the upload write went;
- whether removing the stale PDF raised;
- the converter (`docx2pdf.convert`, or `subprocess.run` of `soffice`) and the callback POST,
  as functions of the arguments the handler passes them;
- in `app.py`, whether each cleanup deletion raises.

Environment variables are the `Config` datatype.

Modules:

| module | file | contents |
|---|---|---|
| `Options` | options.dfy | `Option` with `GetOr` (`os.getenv` with a default) |
| `Text` | text.dfy | Python's `lower`, `endswith`, `strip`, `rstrip`, `in` on strings, POSIX `os.path.join`, `int()` |
| `PyJson` | pyjson.dfy | JSON values, Python truthiness and `in`, `resp.json()` |
| `Artifacts` | artifacts.dfy | the artifact directory as a value (`Dir`) and as an object updated in place (`Directory`) |
| `Handling` | handling.dfy | outcomes of the external calls, refusal reasons and their status codes, the reply, and the steps both revisions share |
| `WordApp` | word_app.dfy | `app.py` |
| `OfficeApp` | office_app.dfy | `pdef_generator_3/app.py` |
| `Revisions` | revisions.dfy | how the two revisions agree |

The two revisions treat a traversal attempt such as the job key `../evil` differently:

- `app.py` sanitises that key to `.._evil` and accepts it (`WordApp.TraversalKeyNeutralised`).
  No `/` reaches the path (`WordApp.AdmittedKeyIsPlainName`).
- `pdef_generator_3/app.py` rejects it, since it is not a digit string.

The comment on the fallback at pdef_generator_3/app.py:110 speaks of PDFs "with prefix
nomor_urut". The code filters on the `.pdf` extension only, and the model does the same
(`OfficeApp.FallbackIgnoresJobKey`).

## Model

| member | source | states |
|---|---|---|
| Text.Lower | app.py:29 | `lower()` keeps the length, leaves no capital, turns each capital into the same small letter and keeps every other character |
| Text.LowerIdempotent | app.py:29 | lower-casing twice is lower-casing once |
| Text.LowerEndsWith | app.py:29 | `s.lower().endswith(suffix)` holds exactly when the last characters of `s` spell `suffix` ignoring case |
| Text.TrimEnd | app.py:83 | `rstrip` keeps the longest prefix not ending in a dropped character; everything after it is dropped |
| Text.TrimEndUnique | app.py:83 | any prefix with those three properties is the `rstrip` result |
| Text.TrimEndAbsorbs | app.py:83 | one more trailing dropped character does not change the `rstrip` result |
| Text.TrimBoth | pdef_generator_3/app.py:106 | `strip(chars)` keeps a slice of the input that neither starts nor ends with a dropped character, and everything cut off on either side is dropped characters |
| Text.TrimBothUnique | pdef_generator_3/app.py:106 | any slice with those properties is the `strip` result |
| Text.Strip | pdef_generator_3/app.py:106 | `strip()` is the input with the whitespace at both ends removed, and nothing else |
| Text.StripWithoutSpace | app.py:32 | a string without whitespace is its own `strip()` |
| Text.JoinPath | app.py:40-41 | `os.path.join`: an absolute name replaces the directory, otherwise the name follows the directory and one `/` |
| Text.ParseInt | pdef_generator_3/app.py:44 | `int()` refuses any text without a digit |
| Text.ParseIntSkipsPadding | pdef_generator_3/app.py:44 | whitespace `int()` skips before and after a number does not change its result |
| Text.SeparatorNotSkipped | pdef_generator_3/app.py:44 | `strip()` removes U+001C but `int()` refuses `"\x1c60"` |
| Text.ParseDigits | pdef_generator_3/app.py:44 | `int()` of a digit string is its decimal value, and refused beyond 4300 digits |
| Text.ParseNegatedDigits | pdef_generator_3/app.py:44 | `int()` of `-` followed by digits is the negated value, and refused beyond 4300 digits |
| Text.ParseIntString | pdef_generator_3/app.py:44 | `int(str(n)) == n` for every integer of at most 4300 digits; longer renderings are refused |
| PyJson.Truthy | app.py:122 | a JSON value is falsy exactly when it is `null`, `false`, `0`, `""`, `[]` or `{}` |
| PyJson.PyIn | app.py:122 | `key in json` raises exactly for `None`, booleans and numbers |
| PyJson.HoldingIsTruthy | app.py:122 | a value that holds a non-empty key is truthy |
| PyJson.ResponseJson | app.py:102-105 | `resp.json()` is `None` exactly when the body does not parse or is `null`; otherwise the parsed value |
| Artifacts.Dir.Put | app.py:45-47 | writing a file sets its entry and keeps the listing duplicate-free; an existing entry keeps its place |
| Artifacts.Dir.Delete | app.py:54 | `os.remove` takes out exactly that entry |
| Artifacts.Directory.Exists | app.py:53 | `os.path.exists` is membership in the directory |
| Artifacts.Directory.List | pdef_generator_3/app.py:111 | `os.listdir` lists each entry exactly once |
| Artifacts.Directory.Write | app.py:45-47 | the object's new state is the old state with the file written |
| Artifacts.Directory.Remove | app.py:54 | the object's new state is the old state without the entry |
| Handling.StatusCode | pdef_generator_3/app.py:27-139 | refusal codes are 400, 500, 502 or 504: 400 exactly for the two validation failures, 504 exactly for a timeout, 502 exactly for a failed POST, 500 for the rest |
| Handling.ResponseBody | app.py:145 | `target_response` is the parsed JSON when there is one, else the raw text |
| Handling.HttpStatus | app.py:138-147 | a reply is sent with 200 exactly when it is the `"status": "ok"` document |
| Handling.EffectiveFilename | app.py:28 | a missing or empty filename becomes `uploaded.docx`; any other is kept |
| Handling.HasExtensionIgnoresCase | app.py:28-29 | the extension test holds exactly when the effective filename ends with the extension in any mix of cases |
| Handling.ArtifactPathsShareStem | app.py:40-41 | the two artifact paths are the directory prefix, the stem, then `.docx` or `.pdf`, and agree up to the extension |
| Handling.ArtifactNamesDiffer | app.py:40-41 | the upload and its PDF are distinct entries |
| Handling.DocxPath | app.py:40 | `path_docx` is the directory prefix, the key and `.docx`, or the key and `.docx` alone when the key is absolute |
| Handling.PdfPath | app.py:41 | `path_pdf` is the directory prefix, the key and `.pdf`, or the key and `.pdf` alone when the key is absolute |
| Handling.CallbackUrl | app.py:83 | the URL ends with the suffix; before it is the target minus its trailing slashes, itself not ending in `/` |
| Handling.CallbackUrlIgnoresTrailingSlash | app.py:83 | an extra trailing slash on the target gives the same URL |
| Handling.SaveUpload | app.py:44-49 | a good write stores the upload with the payload's size; a failed one leaves its partial file as the entry, or nothing; no other entry changes |
| Handling.DropStalePdf | app.py:51-56 | the stale PDF is gone unless its removal raised, in which case nothing changed; other entries are untouched |
| Handling.StoreUpload | app.py:43-56 | the write and the stale-PDF removal on the directory object end as `SaveUpload` and then `DropStalePdf` specify |
| WordApp.AcceptsUpload | app.py:28-29 | the upload is accepted exactly when its effective filename ends in `.docx`, ignoring case |
| WordApp.MissingFilenameAccepted | app.py:28-30 | an upload without a filename passes the `.docx` check |
| WordApp.SafeName | app.py:32 | same length; every character safe; safe characters kept in place, others turned into `_` |
| WordApp.ReplaceUnsafe | app.py:32 | the `re.sub` leaves only safe characters, keeps the safe ones in place, and changes a string exactly when it holds an unsafe character |
| WordApp.StripSafe | app.py:32 | the `.strip()` after the substitution removes nothing |
| WordApp.SafeNameIdempotent | app.py:32 | sanitising a sanitised name returns it unchanged |
| WordApp.AdmitKey | app.py:32-34 | the key is refused exactly when `nomor_urut` is empty, `.` or `..`; otherwise it is the sanitised name |
| WordApp.DotNamesOnlyFromDots | app.py:32-33 | the sanitised name is empty, `.` or `..` exactly when `nomor_urut` is |
| WordApp.AdmittedKeyIsPlainName | app.py:32-41 | an admitted key has no `/`, is not `.` or `..`, and both artifact names are relative |
| WordApp.TraversalKeyNeutralised | app.py:32-34 | `../evil` is admitted as `.._evil` |
| WordApp.BaseDir | app.py:37 | `DOC_LOCAL_DIR` when set, otherwise `document` inside the directory of app.py |
| WordApp.PostUrl | app.py:83 | the POST URL is the target with its trailing slashes removed, then `/check/responseBalikConvert`: what precedes the suffix is a prefix of the target not ending in `/`, and only slashes follow it in the target |
| WordApp.PostUrlShape | app.py:83 | the POST URL ends with `/check/responseBalikConvert`, ignores trailing slashes, and starts with a prefix of the target |
| WordApp.CleanupGate | app.py:122 | only a 200 answer that is an object, a list or a string can confirm; for an object, confirmation is the presence of `upload_data` |
| WordApp.FilesCleanedAsWritten | app.py:146 | the expression as written raises exactly for a 200 answer whose JSON is `true` or a non-zero number |
| WordApp.FilesCleaned | app.py:146 | `files_cleaned` is truthy exactly when the cleanup condition holds |
| WordApp.FilesCleanedAsWrittenRaises | app.py:146 | an answer of 200 with body `true` makes the written expression raise; the corrected value is `false` |
| WordApp.FilesCleanedAgreesAsWritten | app.py:146 | wherever the written expression does not raise, the corrected one has its value |
| WordApp.Cleanup | app.py:121-136 | without the confirmation nothing changes; a raising `.docx` deletion keeps both files; otherwise the `.docx` is gone, and the `.pdf` too unless its deletion raised; nothing else is removed |
| WordApp.Handle | app.py:28-147 | the directory stays well formed whatever happens; behaviour is stated by the lemmas of this module |
| WordApp.Process | app.py:43-56 | an admitted request never yields 400; a failed write yields 500 with its message |
| WordApp.Convert | app.py:58-72 | no outcome of the conversion yields 400 |
| WordApp.Deliver | app.py:82-147 | no outcome of the POST yields 400 (see "Left out" for app.py:146) |
| WordApp.HandleAdmitted | app.py:27-41 | an accepted upload with an admitted key is processed under the sanitised key in `DOC_LOCAL_DIR` |
| WordApp.RefusedWith400Iff | app.py:28-34 | 400 exactly for a non-`.docx` filename or a key that is empty, `.` or `..`, and then nothing is written |
| WordApp.StatusOfEachOutcome | app.py:58-118 | Word raising or no PDF gives 500, a transport error 502, any answer a 200 reply carrying the callback's status |
| WordApp.PdfSizeIrrelevant | app.py:74-80 | the reply is the same whatever the PDF's size, over 5 MiB or not |
| WordApp.CleanupFollowsConfirmation | app.py:121-146 | `files_cleaned` is truthy exactly when the answer confirms; deletion failures do not change the reply; unconfirmed means nothing deleted; confirmed with neither deletion raising means both gone |
| WordApp.StalePdfPostedWhenRemovalFails | app.py:51-72 | when the stale PDF cannot be removed and Word writes nothing, the stale PDF is posted |
| WordApp.ConfirmedUploadLeavesNothing | app.py:120-136 | a converted and confirmed job reports `files_cleaned` true and leaves neither artifact |
| WordApp.CleanUpArtifacts | app.py:121-136 | the cleanup block on the directory object ends as `Cleanup` specifies |
| WordApp.ConvertAndPost | app.py:58-147 | the conversion, POST and cleanup steps on the directory object end as `Convert` specifies |
| WordApp.ConvertDocxToPdf | app.py:21-148 | the steps on the directory object end in the reply and the directory `Handle` specifies |
| OfficeApp.AcceptsUpload | pdef_generator_3/app.py:25-26 | the upload is accepted exactly when its effective filename ends in `.docx` or `.doc`, ignoring case |
| OfficeApp.MissingFilenameAccepted | pdef_generator_3/app.py:25-27 | an upload without a filename passes the `.docx`/`.doc` check |
| OfficeApp.IsDigitString | pdef_generator_3/app.py:30 | `isdigit()` holds exactly for a non-empty string of ASCII digits, which has no `/`, whitespace or leading dot |
| OfficeApp.DigitKeyPaths | pdef_generator_3/app.py:39-40 | a digit key is the unchanged stem of both artifact paths and holds no `/` or dot name |
| OfficeApp.FullPath | pdef_generator_3/app.py:34-36 | the artifact directory is `DOC_SUB_DIR` under `DOC_BASE_DIR`, or `DOC_SUB_DIR` alone when it is absolute |
| OfficeApp.ConvertTimeout | pdef_generator_3/app.py:43-46 | unset gives 120; a setting `int()` accepts gives the value it reads, and one it refuses gives 120 |
| OfficeApp.ConvertTimeoutSettings | pdef_generator_3/app.py:43-46 | unset gives 120, the rendering of an integer of at most 4300 digits gives that integer, text `int()` refuses gives 120 |
| OfficeApp.SeparatorTimeoutRefused | pdef_generator_3/app.py:43-46 | `CONVERT_TIMEOUT="\x1c60"` gives 120 |
| OfficeApp.DefaultTimeoutParses | pdef_generator_3/app.py:44 | the default text `"120"` parses to 120 |
| OfficeApp.SofficeArgv | pdef_generator_3/app.py:64-76 | eleven arguments: `soffice` first, `--convert-to pdf`, `--outdir` just before the output directory, the input last |
| OfficeApp.PostUrl | pdef_generator_3/app.py:123-125 | the URL ends with `TARGET_ENDPOINT_SUFFIX` (by default `/check/responseBalikConvert`); before it is a prefix of the target not ending in `/`, and only slashes follow it in the target |
| OfficeApp.SlashOnlyTargetBareSuffix | pdef_generator_3/app.py:123-125 | an empty or all-slash target gives the bare suffix |
| OfficeApp.IsPdfName | pdef_generator_3/app.py:111 | a name counts as a PDF exactly when it ends in `.pdf` in any mix of cases |
| OfficeApp.PdfCandidates | pdef_generator_3/app.py:111 | the candidates are exactly the listed names ending in `.pdf` in any case, without duplicates |
| OfficeApp.CandidateOrder | pdef_generator_3/app.py:111 | candidates keep their listing order |
| OfficeApp.NewestIndex | pdef_generator_3/app.py:114-117 | `max(..., key=getmtime)` picks a candidate modified no earlier than any other and later than every one before it |
| OfficeApp.NewestIndexUnique | pdef_generator_3/app.py:114-117 | only one index has those two properties |
| OfficeApp.PdfToSend | pdef_generator_3/app.py:109-120 | the job's PDF is sent when it exists; whatever is sent is the job's PDF or a PDF entry of the directory |
| OfficeApp.PdfToSendNoneIff | pdef_generator_3/app.py:109-120 | the request fails for want of a PDF exactly when neither the job's PDF nor any other PDF is present |
| OfficeApp.FallbackPicksNewestPdf | pdef_generator_3/app.py:109-118 | without the job's PDF, the one sent is a PDF entry with the greatest mtime, listed before any other such entry |
| OfficeApp.FallbackIgnoresJobKey | pdef_generator_3/app.py:110-118 | a lone PDF of another job is sent in place of the missing one |
| OfficeApp.Handle | pdef_generator_3/app.py:25-150 | the directory stays well formed whatever happens; behaviour is stated by the lemmas of this module |
| OfficeApp.Process | pdef_generator_3/app.py:48-61 | an admitted request never yields 400, a failed write yields 500 with its message, a stored upload is never removed |
| OfficeApp.Convert | pdef_generator_3/app.py:78-120 | no outcome yields 400, and no entry is removed |
| OfficeApp.Deliver | pdef_generator_3/app.py:122-150 | the POST yields 200 or 502 |
| OfficeApp.HandleAdmitted | pdef_generator_3/app.py:25-46 | an accepted request is processed under its own key in `DOC_BASE_DIR/DOC_SUB_DIR` with the configured timeout |
| OfficeApp.RefusedWith400Iff | pdef_generator_3/app.py:25-31 | 400 exactly for a filename that is neither `.docx` nor `.doc` or a key that is not a digit string, and then nothing is written |
| OfficeApp.StatusOfEachOutcome | pdef_generator_3/app.py:87-120 | missing engine gives 500, timeout 504 naming the seconds, non-zero exit 500 with stripped stderr and stdout, no PDF 500, otherwise the POST decides |
| OfficeApp.NoCleanupAfterPost | pdef_generator_3/app.py:127-150 | the callback's answer never changes the directory |
| OfficeApp.PostedReplyContents | pdef_generator_3/app.py:141-150 | a completed reply names the upload, the chosen PDF, the URL and the callback's status, with no `files_cleaned` |
| OfficeApp.FindPdf | pdef_generator_3/app.py:109-120 | the lookup on the directory object returns the PDF `PdfToSend` specifies |
| OfficeApp.ConvertAndPost | pdef_generator_3/app.py:78-150 | the conversion and POST steps on the directory object end as `Convert` specifies |
| OfficeApp.ConvertDocxToPdf | pdef_generator_3/app.py:18-150 | the steps on the directory object end in the reply and the directory `Handle` specifies |
| Revisions.UploadCheckWidened | pdef_generator_3/app.py:26 | every upload the Word revision accepts, the LibreOffice revision accepts |
| Revisions.DigitKeysAgree | pdef_generator_3/app.py:30 | a digit key passes the Word revision's sanitiser unchanged |
| Revisions.CallbackUrlsAgree | pdef_generator_3/app.py:124 | with the default suffix both revisions post to the same URL |

## Left out

- FastAPI routing, form parsing, reading the upload and building the `JSONResponse` are not modelled. The handler is a function of the form fields, the configuration and the outcomes of the external calls.
- `docx2pdf.convert`, `subprocess.run` of `soffice` (with `HOME=/tmp` in its environment) and the `httpx` POST are foreign calls. Each is an input function returning an outcome datatype. The model covers what the handler does with each outcome, and nothing inside the call.
- The filesystem is modelled as one directory: entry names in `os.listdir` order, each with an opaque mtime and a size. Only `os.path.join` is modelled as a path operation, with POSIX rules; the Windows rules docx2pdf runs under are not modelled.
- `os.makedirs` is not modelled; if it raises, the request ends in an unhandled error.
- Errors outside the handled ones are not modelled. These are `open` or `os.path.getsize` of the PDF raising before the POST, `subprocess.run` raising anything but `FileNotFoundError` or `TimeoutExpired`, and `client.post` raising an exception that is not an `httpx.HTTPError`, such as `httpx.InvalidURL` for a `target_url` with a non-numeric port or a non-printable character. Each would end in an unhandled 500, the last one after the conversion. The model's POST either answers or fails with `TransportFailed`, which gives 502.
- Files a killed or failing `soffice` leaves behind are not modelled. The model adds at most one file per `soffice` run, and none when it times out.
- Files docx2pdf leaves behind when it raises are not modelled: `WordApp.Convert` keeps the directory unchanged on `WordRaised`, though Word may already have saved the PDF before raising, for instance while closing the document or quitting.
- All `print` logging is left out, including the 5 MiB warning text. `WordApp.PdfSizeIrrelevant` states that the size has no other effect.
- JSON numbers are integers; fractional numbers are not modelled.
- `lower()` folds only ASCII letters. `str.isdigit` is taken as ASCII digits only: Python also accepts other Unicode digits, which `OfficeApp.IsDigitString` refuses. `int()` is modelled on ASCII digits too.
- `int()` refuses decimal strings of more than 4300 digits, the default of `sys.set_int_max_str_digits`; the model assumes a Python with that limit at its default. On a Python without the limit such a `CONVERT_TIMEOUT` would be read as a number.
- Artifacts.Dir.Put: a new entry is listed last. `os.listdir` gives no order, so this is a choice of the model; it only matters when two PDFs share the greatest mtime, where `OfficeApp.NewestIndex` takes the one listed first.
- WordApp.Deliver: the reply carries the corrected `files_cleaned` of `WordApp.FilesCleaned`. Where app.py:146 raises (a 200 answer whose JSON is `true` or a non-zero number), the source ends in an unhandled 500, but `WordApp.Deliver`, `WordApp.Handle` and `WordApp.ConvertDocxToPdf` give the 200 document with `files_cleaned` false. The written behaviour is `WordApp.FilesCleanedAsWritten` (see "Findings").
- run_service.py, a Windows service wrapper, is not part of this model.
- WordApp.Handle: its contract states only that the directory stays well formed. What it computes is stated by the lemmas about it and about `Process`, `Convert` and `Deliver`.
- OfficeApp.Handle: the same as for `WordApp.Handle`.

## Findings

| source | as written | input that shows it | evidently intended | confidence | as-written member | corrected member |
|---|---|---|---|---|---|---|
| app.py:146 | `"upload_data" in resp_json` is evaluated outside any `try`. For a JSON body that is `true` or a non-zero number it raises `TypeError`. The request then ends in an unhandled 500 after the PDF was already posted. The same test inside the cleanup block is caught at app.py:135. | callback answers status 200 with body `true` | `files_cleaned` is `false`, as the cleanup block decides, and the reply is the 200 `"status": "ok"` document | medium, not executed | WordApp.FilesCleanedAsWritten, WordApp.FilesCleanedAsWrittenRaises | WordApp.FilesCleaned |
