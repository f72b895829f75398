/** How the LibreOffice revision (pdef_generator_3/app.py) relates to the Word revision
    (app.py) on the inputs both accept. */
module Revisions {
  import opened Options
  import opened Text
  import WordApp
  import OfficeApp

  /** Every upload the Word revision accepts, the LibreOffice revision accepts too; it also
      takes `.doc`. */
  lemma UploadCheckWidened(filename: Option<string>)
    ensures WordApp.AcceptsUpload(filename) ==> OfficeApp.AcceptsUpload(filename)
  {
  }

  /** A digit `nomor_urut`, the only kind the LibreOffice revision admits, passes the Word
      revision's sanitiser unchanged, so both name the artifacts identically. */
  lemma DigitKeysAgree(nomorUrut: string)
    requires OfficeApp.IsDigitString(nomorUrut)
    ensures WordApp.AdmitKey(nomorUrut) == Some(nomorUrut)
  {
    var safe := WordApp.SafeName(nomorUrut);
    forall i | 0 <= i < |nomorUrut| ensures safe[i] == nomorUrut[i] {
      assert IsDigit(nomorUrut[i]);
    }
    assert safe == nomorUrut;
    assert nomorUrut[0] != '.';
  }

  /** Without `TARGET_ENDPOINT_SUFFIX`, both revisions post to the same callback URL. */
  lemma CallbackUrlsAgree(targetUrl: string)
    ensures OfficeApp.PostUrl(targetUrl, None) == WordApp.PostUrl(targetUrl)
  {
  }
}
