/** The GET/HEAD handler for every path below the base directory: a request
    path that still climbs out after normalisation is refused with 403; a
    target is served only when it resolves, exists and lies inside the base;
    regular files are downloaded, directories listed, and everything else
    answered with 404. */
module GetHandler {
  import opened Bytes
  import opened Paths
  import opened Containment
  import opened Ordering
  import opened Disposition
  import opened Listing
  import opened Http

  /** What a filesystem query says about a resolved path. */
  datatype FileKind = Missing | RegularFile | Directory | OtherKind

  /** The filesystem as the handler sees it. `canonicalize` is
      weakly_canonical (None when it reports an error), giving the names of
      an absolute path; `relativeFails` says whether fs::relative reports an
      error for that path against the base; `entriesOf` is what
      directory_iterator yields for a directory. */
  datatype FileSystem = FileSystem(
    canonicalize: ByteString -> Option<seq<ByteString>>,
    kindOf: seq<ByteString> -> FileKind,
    relativeFails: seq<ByteString> -> bool,
    entriesOf: seq<ByteString> -> seq<Entry>)

  const ForbiddenPath: ByteString := "Forbidden path"
  const EntryNotFound: ByteString := "Entry not found"
  const Forbidden: nat := 403
  const NotFound: nat := 404

  /** extractRelativePath: the `path` query parameter when given, else the
      request path; url-decoded, then normalised. */
  function ExtractRelativePath(pathParameter: ByteString, requestPath: ByteString,
                               urlDecode: ByteString -> ByteString): ByteString
  {
    NormalizeRelativePath(urlDecode(if pathParameter == [] then requestPath else pathParameter))
  }

  /** The path looked up: the base directory, joined with the relative path
      when there is one. */
  function Target(baseDir: ByteString, relativePath: ByteString): ByteString
  {
    if relativePath == [] then baseDir else JoinPath(baseDir, relativePath)
  }

  /** The string of an absolute path given by its names. */
  function AbsoluteString(names: seq<ByteString>): ByteString
  {
    "/" + Join(names)
  }

  /** filename() of an absolute path given by its names: empty for the root. */
  function LastName(names: seq<ByteString>): ByteString
  {
    if names == [] then [] else Last(names)
  }

  /** The resolved path may be served: it exists and lies within the base. */
  predicate Servable(fs: FileSystem, base: seq<ByteString>, c: seq<ByteString>)
  {
    fs.kindOf(c) != Missing && IsWithinBase(c, base, fs.relativeFails(c))
  }

  /** The resolved target of a request that passed the traversal check. */
  function Resolved(fs: FileSystem, baseDir: ByteString, relativePath: ByteString): Option<seq<ByteString>>
  {
    fs.canonicalize(Target(baseDir, relativePath))
  }

  /** The response of the handler registered for "/.*" with GET and HEAD.
      `base` is the canonical base directory as names below the root,
      `baseDir` its path; `template` is the page the listing is placed into. */
  function GetResponse(pathParameter: ByteString, requestPath: ByteString,
                       urlDecode: ByteString -> ByteString,
                       baseDir: ByteString, base: seq<ByteString>,
                       fs: FileSystem, template: ByteString): Response
  {
    var rel := ExtractRelativePath(pathParameter, requestPath, urlDecode);
    var r := Resolved(fs, baseDir, rel);
    if ContainsParentTraversal(rel) then PlainText(Forbidden, ForbiddenPath)
    else if r.None? || !Servable(fs, base, r.value) then PlainText(NotFound, EntryNotFound)
    else if fs.kindOf(r.value) == RegularFile then
      FileDownload(AbsoluteString(r.value), ContentDisposition(LastName(r.value)))
    else if fs.kindOf(r.value) == Directory then
      Html(ListingPage(template, rel, fs.entriesOf(r.value)))
    else PlainText(NotFound, EntryNotFound)
  }

  /** What the GET flow promises: 403 exactly for a path that still climbs
      after normalisation; 404 exactly when the target does not resolve, is
      missing, lies outside the base, or is neither a file nor a directory;
      a download exactly for a servable regular file and a listing exactly
      for a servable directory. */
  lemma GetOutcomes(pathParameter: ByteString, requestPath: ByteString,
                    urlDecode: ByteString -> ByteString,
                    baseDir: ByteString, base: seq<ByteString>,
                    fs: FileSystem, template: ByteString)
    ensures var response := GetResponse(pathParameter, requestPath, urlDecode, baseDir, base, fs, template);
            var rel := ExtractRelativePath(pathParameter, requestPath, urlDecode);
            response == PlainText(Forbidden, ForbiddenPath) <==> ContainsParentTraversal(rel)
    ensures var response := GetResponse(pathParameter, requestPath, urlDecode, baseDir, base, fs, template);
            var rel := ExtractRelativePath(pathParameter, requestPath, urlDecode);
            var r := Resolved(fs, baseDir, rel);
            response == PlainText(NotFound, EntryNotFound) <==>
              && !ContainsParentTraversal(rel)
              && (r.None? || !Servable(fs, base, r.value)
                  || (fs.kindOf(r.value) != RegularFile && fs.kindOf(r.value) != Directory))
    ensures var response := GetResponse(pathParameter, requestPath, urlDecode, baseDir, base, fs, template);
            var rel := ExtractRelativePath(pathParameter, requestPath, urlDecode);
            var r := Resolved(fs, baseDir, rel);
            response.FileDownload? <==>
              !ContainsParentTraversal(rel) && r.Some? && Servable(fs, base, r.value)
              && fs.kindOf(r.value) == RegularFile
    ensures var response := GetResponse(pathParameter, requestPath, urlDecode, baseDir, base, fs, template);
            var rel := ExtractRelativePath(pathParameter, requestPath, urlDecode);
            var r := Resolved(fs, baseDir, rel);
            response.FileDownload? ==>
              response == FileDownload(AbsoluteString(r.value), ContentDisposition(LastName(r.value)))
    ensures var response := GetResponse(pathParameter, requestPath, urlDecode, baseDir, base, fs, template);
            var rel := ExtractRelativePath(pathParameter, requestPath, urlDecode);
            var r := Resolved(fs, baseDir, rel);
            response.Html? <==>
              !ContainsParentTraversal(rel) && r.Some? && Servable(fs, base, r.value)
              && fs.kindOf(r.value) == Directory
    ensures var response := GetResponse(pathParameter, requestPath, urlDecode, baseDir, base, fs, template);
            var rel := ExtractRelativePath(pathParameter, requestPath, urlDecode);
            var r := Resolved(fs, baseDir, rel);
            response.Html? ==> response == Html(ListingPage(template, rel, fs.entriesOf(r.value)))
  {
  }

  /** The handler: extract and check the path, resolve the target, and
      download, list or refuse it. */
  method HandleGet(pathParameter: ByteString, requestPath: ByteString,
                   urlDecode: ByteString -> ByteString,
                   baseDir: ByteString, base: seq<ByteString>,
                   fs: FileSystem, template: ByteString)
    returns (response: Response)
    ensures response == GetResponse(pathParameter, requestPath, urlDecode, baseDir, base, fs, template)
  {
    var relativePath := ExtractRelativePath(pathParameter, requestPath, urlDecode);
    if ContainsParentTraversal(relativePath) {
      return PlainText(Forbidden, ForbiddenPath);
    }
    var target := baseDir;
    if relativePath != [] {
      target := JoinPath(target, relativePath);
    }
    var canonicalTarget := fs.canonicalize(target);
    if canonicalTarget.None? || fs.kindOf(canonicalTarget.value) == Missing
       || !IsWithinBase(canonicalTarget.value, base, fs.relativeFails(canonicalTarget.value))
    {
      return PlainText(NotFound, EntryNotFound);
    }
    var c := canonicalTarget.value;
    if fs.kindOf(c) == RegularFile {
      var header := BuildContentDispositionHeader(LastName(c));
      return FileDownload(AbsoluteString(c), header);
    }
    if fs.kindOf(c) != Directory {
      return PlainText(NotFound, EntryNotFound);
    }
    var html := RenderListing(template, relativePath, fs.entriesOf(c));
    return Html(html);
  }

  /** A request that reaches the filesystem never climbs out of the base:
      when the resolved path and the base are canonical, whatever is served
      lies at or below the base. */
  lemma ServedLiesWithinBase(fs: FileSystem, base: seq<ByteString>, c: seq<ByteString>)
    requires IsCanonical(c) && IsCanonical(base)
    ensures Servable(fs, base, c) <==> fs.kindOf(c) != Missing && !fs.relativeFails(c) && base <= c
  {
  }

  /** The request path of an HTTP request starts with '/', so without a
      `path` parameter the traversal check never fires: normalisation drops
      a ".." directly under the root. */
  lemma RequestPathNeverForbidden(requestPath: ByteString, urlDecode: ByteString -> ByteString)
    requires |urlDecode(requestPath)| > 0 && urlDecode(requestPath)[0] == '/'
    ensures !ContainsParentTraversal(ExtractRelativePath([], requestPath, urlDecode))
  {
    RootedInputHasNoTraversal(urlDecode(requestPath));
  }

  /** A relative `path` parameter whose normal form keeps a ".." is refused. */
  lemma ClimbingParameterForbidden(pathParameter: ByteString, requestPath: ByteString,
                                   urlDecode: ByteString -> ByteString)
    requires pathParameter != []
    requires ".." in LexicallyNormal(Slashed(urlDecode(pathParameter))).segs
    ensures ContainsParentTraversal(ExtractRelativePath(pathParameter, requestPath, urlDecode))
  {
    TraversalAfterNormalize(urlDecode(pathParameter));
  }
}
