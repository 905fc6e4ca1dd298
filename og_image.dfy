/** `generateOGImage` up to the hand-off to the rendering engine: validate the
    picture, embed it as a data URL, and fill the document template. */
module OgImage {
  import opened Wrappers
  import Picture
  import Template

  /** The record the caller passes in (the parser's `Ok` fields, or any object
      with these four strings). */
  datatype ImageRequest = ImageRequest(tag: string, title: string, author: string, picturePath: string)

  /** The document `generateOGImage` hands to the rendering engine, or the
      error it throws first. `fileExists` stands for `fs.existsSync` on the
      picture path and `payload` for the base64 text of the file's bytes. */
  function BuildHtml(req: ImageRequest, fileExists: bool, payload: string): (r: Result<string, Picture.PictureError>)
    ensures !fileExists ==> r == Failure(Picture.DoesNotExist(req.picturePath))
    ensures r.Success? <==> fileExists && Picture.ToLower(Picture.Extname(req.picturePath)) in Picture.ValidExtensions
    ensures fileExists && r.Failure? ==> r.error == Picture.InvalidFormat
  {
    match Picture.ValidatePicture(req.picturePath, fileExists)
    case Failure(e) => Failure(e)
    case Success(ext) =>
      Success(Template.Html(Picture.DataUrl(Picture.MimeType(ext), payload), req.tag, req.title, req.author))
  }

  /** A document that was built carries the request: the tag, the title and
      the author stand unmodified at their interpolation points, and the URL
      there reads back as the MIME type of the lower-cased extension and the
      payload. */
  lemma HtmlCarriesRequest(req: ImageRequest, fileExists: bool, payload: string)
    requires BuildHtml(req, fileExists, payload).Success?
    ensures var ext := Picture.ToLower(Picture.Extname(req.picturePath));
            var url := Picture.DataUrl(Picture.MimeType(ext), payload);
            && ext in Picture.ValidExtensions
            && Template.Extract(Template.OgLayout, BuildHtml(req, fileExists, payload).value,
                                |url|, |req.tag|, |req.title|, |req.author|)
               == Some((url, req.tag, req.title, req.author))
            && Picture.ParseDataUrl(url) == Some((Picture.MimeType(ext), payload))
  {
    var ext := Picture.ToLower(Picture.Extname(req.picturePath));
    var mime := Picture.MimeType(ext);
    Picture.MimeOfAccepted(ext);
    Picture.DataUrlRoundTrip(mime, payload);
    Template.HtmlLayout(Picture.DataUrl(mime, payload), req.tag, req.title, req.author);
  }

  /** An existing `stem.JPG` is accepted and embedded as `image/jpeg`. */
  lemma UpperCaseJpgIsJpeg(tag: string, title: string, author: string, stem: string, payload: string)
    requires stem != "" && stem[|stem| - 1] != '/'
    ensures BuildHtml(ImageRequest(tag, title, author, stem + ".JPG"), true, payload)
            == Success(Template.Html(Picture.DataUrl("image/jpeg", payload), tag, title, author))
  {
    var path := stem + ".JPG";
    assert Picture.ToUpper("jpg") == "JPG";
    assert path == stem + "." + Picture.ToUpper(".jpg"[1..]);
    Picture.UpperCaseAccepted(stem, ".jpg");
    assert Picture.ValidatePicture(path, true) == Success(".jpg");
    Picture.MimeTable();
    var url := Picture.DataUrl(Picture.MimeType(".jpg"), payload);
    assert url == Picture.DataUrl("image/jpeg", payload);
  }
}
