/** The response decision of the POST /download endpoint (download_video in
    app.py), over an abstract extraction collaborator and an abstract view of
    the storage directory.

    The collaborator is a function from the URL to an outcome: the
    extraction library's "content unavailable" error, any other error with
    its message, or the metadata of the downloaded media. Whether a file of a
    given name exists under the storage root is a predicate on that name.
 */
module Handler {
  import opened Filename
  import opened FilenameProperties

  datatype Option<T> = None | Some(value: T) {
    function GetOr(default: T): (v: T)
      ensures Some? ==> v == value
      ensures None? ==> v == default
    {
      match this
      case Some(v) => v
      case None => default
    }
  }

  /** What the extraction collaborator reports for one URL. A metadata field
      that is None is missing from the collaborator's record. */
  datatype Outcome =
    | DownloadError
    | OtherError(message: string)
    | Info(title: Option<string>, ext: Option<string>)

  /** The JSON body of a response: an error object, or the success object
      carrying the retrieval link and the title. */
  datatype Body =
    | Error(error: string)
    | Link(downloadUrl: string, title: string)

  datatype Response = Response(status: nat, body: Body)

  const NoUrlMessage: string := "No URL provided"
  const UnavailableMessage: string := "The file wasn't available on the site."
  const MissingFileMessage: string := "File not found on server."
  const LinkBase: string := "http://localhost:5000/download-file/"
  const DefaultTitle: string := "video"
  const DefaultExt: string := "mp4"

  /** The request carried no usable URL: the field is absent, null or "". */
  predicate NoUrl(url: Option<string>) {
    url.None? || url.value == ""
  }

  /** The name under which the downloaded media is looked up and linked:
      "<title>.<ext>" after sanitization, with the source's defaults. */
  function StoredName(info: Outcome): (r: string)
    requires info.Info?
    ensures Clean(r)
    ensures |r| <= |info.title.GetOr(DefaultTitle)| + 1 + |info.ext.GetOr(DefaultExt)|
  {
    Sanitize(info.title.GetOr(DefaultTitle) + "." + info.ext.GetOr(DefaultExt))
  }

  /** The stored name is the sanitized title, a dot and the sanitized
      extension: the dot keeps title and extension apart. */
  lemma StoredNameSplits(info: Outcome)
    requires info.Info?
    ensures StoredName(info)
            == Sanitize(info.title.GetOr(DefaultTitle)) + "." + Sanitize(info.ext.GetOr(DefaultExt))
  {
    DotSplit(info.title.GetOr(DefaultTitle), info.ext.GetOr(DefaultExt));
  }

  /** download_video: the status and body sent back for one request. */
  function DownloadVideo(url: Option<string>, extract: string -> Outcome,
                         fileExists: string -> bool): (r: Response)
    // a missing URL is refused before the collaborator is consulted
    ensures NoUrl(url) ==> r == Response(400, Error(NoUrlMessage))
    // the collaborator's two failure kinds
    ensures !NoUrl(url) && extract(url.value).DownloadError? ==>
              r == Response(400, Error(UnavailableMessage))
    ensures !NoUrl(url) && extract(url.value).OtherError? ==>
              r == Response(500, Error(extract(url.value).message))
    // metadata whose file is absent from the storage root
    ensures !NoUrl(url) && extract(url.value).Info? && !fileExists(StoredName(extract(url.value))) ==>
              r == Response(404, Error(MissingFileMessage))
    // success: the link names the checked file, the title is returned raw
    ensures r.status == 200 <==>
              !NoUrl(url) && extract(url.value).Info? && fileExists(StoredName(extract(url.value)))
    ensures r.status == 200 ==>
              r.body == Link(LinkBase + StoredName(extract(url.value)),
                             extract(url.value).title.GetOr(DefaultTitle))
    ensures r.status in {200, 400, 404, 500}
    ensures r.body.Link? <==> r.status == 200
  {
    if NoUrl(url) then
      Response(400, Error(NoUrlMessage))
    else
      match extract(url.value)
      case DownloadError => Response(400, Error(UnavailableMessage))
      case OtherError(msg) => Response(500, Error(msg))
      case Info(title, ext) =>
        var name := StoredName(Info(title, ext));
        if !fileExists(name) then Response(404, Error(MissingFileMessage))
        else Response(200, Link(LinkBase + name, title.GetOr(DefaultTitle)))
  }

  // ---------------------------------------------------------------------------
  // Properties of the decision.
  // ---------------------------------------------------------------------------

  /** Without a URL the answer depends on neither the collaborator nor the
      storage directory. */
  lemma NoUrlIgnoresCollaborator(url: Option<string>,
                                 extract1: string -> Outcome, exists1: string -> bool,
                                 extract2: string -> Outcome, exists2: string -> bool)
    requires NoUrl(url)
    ensures DownloadVideo(url, extract1, exists1) == DownloadVideo(url, extract2, exists2)
    ensures DownloadVideo(url, extract1, exists1).status == 400
  {
  }

  /** The two causes of a 400: no URL, or content the site would not give. */
  lemma BadRequestCauses(url: Option<string>, extract: string -> Outcome, fileExists: string -> bool)
    ensures DownloadVideo(url, extract, fileExists).status == 400 <==>
              NoUrl(url) || extract(url.value).DownloadError?
  {
  }

  /** A successful link ends in the name that was checked for existence.
      That name is the sanitized title, '.', and the sanitized extension.
      It is a single path segment, and sanitizing it again changes nothing. */
  lemma SuccessLinkNamesCheckedFile(url: Option<string>, extract: string -> Outcome,
                                    fileExists: string -> bool)
    requires DownloadVideo(url, extract, fileExists).status == 200
    ensures var r := DownloadVideo(url, extract, fileExists);
            var info := extract(url.value);
            exists name ::
              && r.body.downloadUrl == LinkBase + name
              && fileExists(name)
              && name == Sanitize(info.title.GetOr(DefaultTitle)) + "." + Sanitize(info.ext.GetOr(DefaultExt))
              && '/' !in name && '\\' !in name
              && Sanitize(name) == name
  {
    var name := StoredName(extract(url.value));
    StoredNameSplits(extract(url.value));
    FixedPointsAreClean(name);
    NoReservedChar(name, '/');
    NoReservedChar(name, '\\');
    assert DownloadVideo(url, extract, fileExists).body.downloadUrl == LinkBase + name;
    assert fileExists(name);
  }

  /** A clean name holds no reserved character. */
  lemma NoReservedChar(name: string, c: char)
    requires Clean(name) && IsReserved(c)
    ensures c !in name
  {
  }

  // ---------------------------------------------------------------------------
  // Worked examples.
  // ---------------------------------------------------------------------------

  /** A title with a space and a '!': the link carries "My_Video!.mp4" (the
      '!' survives) while the title comes back exactly as reported. */
  lemma TitleWithSpaceAndBang(url: string, extract: string -> Outcome, fileExists: string -> bool)
    requires url != ""
    requires extract(url) == Info(Some("My Video!"), Some("mp4"))
    requires fileExists("My_Video!.mp4")
    ensures DownloadVideo(Some(url), extract, fileExists)
            == Response(200, Link(LinkBase + "My_Video!.mp4", "My Video!"))
  {
    BangTitleName();
  }

  lemma BangTitleName()
    ensures StoredName(Info(Some("My Video!"), Some("mp4"))) == "My_Video!.mp4"
  {
    assert "My Video!" + "." + "mp4" == "My Video!.mp4";
    AsciiSanitizeIs("My Video!.mp4", "My_Video!.mp4");
  }

  /** Metadata without title and extension is stored and linked as "video.mp4". */
  lemma MissingMetadataDefaults(url: string, extract: string -> Outcome, fileExists: string -> bool)
    requires url != ""
    requires extract(url) == Info(None, None)
    requires fileExists("video.mp4")
    ensures DownloadVideo(Some(url), extract, fileExists)
            == Response(200, Link(LinkBase + "video.mp4", DefaultTitle))
  {
    DefaultName();
  }

  lemma DefaultName()
    ensures StoredName(Info(None, None)) == "video.mp4"
  {
    assert DefaultTitle + "." + DefaultExt == "video.mp4";
    AsciiSanitizeIs("video.mp4", "video.mp4");
  }
}
