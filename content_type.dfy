/** The content-type resolver `get_content_type` (main.c:42-76): the text
    from the last '.' of a path to its end selects one of fourteen MIME
    types; everything else is served as an octet stream. */
module ContentTypes {
  import opened CStrings

  const DefaultType := "application/octet-stream"

  /** The listed suffixes and their types, in the order the source tests them. */
  const MimeTable: seq<(string, string)> := [
    (".css", "text/css"),
    (".csv", "text/csv"),
    (".gif", "image/gif"),
    (".htm", "text/html"),
    (".html", "text/html"),
    (".ico", "image/x-icon"),
    (".jpeg", "image/jpeg"),
    (".jpg", "image/jpeg"),
    (".js", "application/javascript"),
    (".json", "application/json"),
    (".png", "image/png"),
    (".pdf", "application/pdf"),
    (".svg", "image/svg+xml"),
    (".txt", "text/plain")
  ]

  /** `strrchr(path, '.')`: the index of the last '.', if there is one. */
  function LastDot(path: string): (r: Option<nat>)
    ensures r.Some? ==> r.value < |path| && path[r.value] == '.'
    ensures r.Some? ==> forall j :: r.value < j < |path| ==> path[j] != '.'
    ensures r.None? ==> '.' !in path
    decreases |path|
  {
    if path == [] then None
    else if path[|path| - 1] == '.' then Some(|path| - 1)
    else LastDot(path[..|path| - 1])
  }

  /** The text from the last '.' to the end of the path, if there is a '.'. */
  function Extension(path: string): Option<string>
  {
    match LastDot(path)
    case None => None
    case Some(d) => Some(path[d..])
  }

  /** `get_content_type`: one `strcmp` per listed suffix, in source order. */
  function ContentType(path: string): (r: string)
    ensures Extension(path).None? ==> r == DefaultType
  {
    match Extension(path)
    case None => DefaultType
    case Some(ext) =>
      if ext == ".css" then "text/css"
      else if ext == ".csv" then "text/csv"
      else if ext == ".gif" then "image/gif"
      else if ext == ".htm" then "text/html"
      else if ext == ".html" then "text/html"
      else if ext == ".ico" then "image/x-icon"
      else if ext == ".jpeg" then "image/jpeg"
      else if ext == ".jpg" then "image/jpeg"
      else if ext == ".js" then "application/javascript"
      else if ext == ".json" then "application/json"
      else if ext == ".png" then "image/png"
      else if ext == ".pdf" then "application/pdf"
      else if ext == ".svg" then "image/svg+xml"
      else if ext == ".txt" then "text/plain"
      else DefaultType
  }

  /** A path whose extension is a listed suffix gets that suffix's type. */
  lemma ContentTypeListed(path: string, i: nat)
    requires i < |MimeTable|
    requires Extension(path) == Some(MimeTable[i].0)
    ensures ContentType(path) == MimeTable[i].1
  {
  }

  /** Every type served is the default or the table's entry for the path's
      extension. */
  lemma ContentTypeFromTable(path: string)
    ensures ContentType(path) == DefaultType ||
            (Extension(path).Some? && (Extension(path).value, ContentType(path)) in MimeTable)
  {
  }

  /** A path without a '.', or whose extension is not listed, gets the default. */
  lemma ContentTypeUnlisted(path: string)
    requires forall i :: 0 <= i < |MimeTable| ==> Extension(path) != Some(MimeTable[i].0)
    ensures ContentType(path) == DefaultType
  {
    // one instance of the requirement per row of the table
    assert Extension(path) != Some(MimeTable[0].0) && Extension(path) != Some(MimeTable[1].0);
    assert Extension(path) != Some(MimeTable[2].0) && Extension(path) != Some(MimeTable[3].0);
    assert Extension(path) != Some(MimeTable[4].0) && Extension(path) != Some(MimeTable[5].0);
    assert Extension(path) != Some(MimeTable[6].0) && Extension(path) != Some(MimeTable[7].0);
    assert Extension(path) != Some(MimeTable[8].0) && Extension(path) != Some(MimeTable[9].0);
    assert Extension(path) != Some(MimeTable[10].0) && Extension(path) != Some(MimeTable[11].0);
    assert Extension(path) != Some(MimeTable[12].0) && Extension(path) != Some(MimeTable[13].0);
  }

  /** Only the text from the last '.' matters: whatever precedes it is ignored. */
  lemma ContentTypeOfExtensionOnly(prefix: string, ext: string)
    requires |ext| > 0 && ext[0] == '.' && '.' !in ext[1..]
    ensures Extension(prefix + ext) == Some(ext)
    ensures ContentType(prefix + ext) == ContentType(ext)
  {
    var path := prefix + ext;
    assert path[|prefix|] == '.';
    var d := LastDot(path).value;
    assert path[d..] == ext;
    assert LastDot(ext) == Some(0);
  }

  /** The fixed path the responses use, "/.html", resolves to "text/html". */
  lemma HtmlShellIsHtml()
    ensures ContentType("/.html") == "text/html"
  {
    ContentTypeOfExtensionOnly("/", ".html");
  }
}
