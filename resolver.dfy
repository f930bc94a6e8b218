/**
 * Resolution of a request path to a page: the path gets ".html" when it has
 * no extension, then "pages/<path>" and "public/<path>" are read in that
 * order under the site root, and the first read that succeeds gives the page.
 */
module Resolver {
  import opened Wrappers
  import opened Paths
  import opened ContentType

  /**
   * What reading one file yields: its text, a failure of fs::read, or bytes
   * that String::from_utf8 rejects. Each failure carries the text its
   * error displays as.
   */
  datatype Entry = Text(text: string) | IoFailure(ioError: string) | InvalidUtf8(utf8Error: string)

  /** The files on disk, keyed by their path from the working directory. */
  type FileSystem = map<Path, Entry>

  datatype LoadError = LoadError(message: string)

  datatype Page = Page(contentType: string, contents: string)

  /** Every read happens under this directory. */
  const SiteRoot: Segment := "example_site"
  const PagesDir: Segment := "pages"
  const PublicDir: Segment := "public"

  /** What fs::read reports for a path with no file behind it. */
  const NoSuchFile: string := "No such file or directory (os error 2)"

  /** The message of the error returned when no candidate could be read. */
  const NoCandidateMessage: string := "failed to load any of "

  /** The path a read of p actually opens. */
  function Target(p: Path): Path {
    [SiteRoot] + p
  }

  /** Server::read_file: read the file at example_site/<p> and decode it as UTF-8. */
  function ReadFile(fs: FileSystem, p: Path): (r: Result<string, LoadError>)
    ensures r.Ok? <==> Target(p) in fs && fs[Target(p)].Text?
    ensures r.Ok? ==> r.value == fs[Target(p)].text
    ensures Target(p) !in fs ==> r == Err(LoadError(NoSuchFile))
    ensures Target(p) in fs && fs[Target(p)].IoFailure? ==> r == Err(LoadError(fs[Target(p)].ioError))
    ensures Target(p) in fs && fs[Target(p)].InvalidUtf8? ==> r == Err(LoadError(fs[Target(p)].utf8Error))
  {
    if Target(p) !in fs then Err(LoadError(NoSuchFile))
    else
      match fs[Target(p)]
      case Text(text) => Ok(text)
      case IoFailure(e) => Err(LoadError(e))
      case InvalidUtf8(e) => Err(LoadError(e))
  }

  /**
   * The first half of Server::read_request_file: a path with an extension is
   * used as it is, any other gets the extension "html".
   */
  function Normalize(p: Path): (r: Path)
    ensures Extension(p).Some? ==> r == p
    ensures FileName(p).None? ==> r == p
    ensures Extension(p).None? && FileName(p).Some? ==>
      Extension(r) == Some("html") && |r| == |p| &&
      r[..|r| - 1] == p[..|p| - 1] && r[|r| - 1] == p[|p| - 1] + ".html"
    ensures Extension(r).Some? || FileName(r).None?
  {
    if Extension(p).Some? then p
    else
      if FileName(p).Some? then
        WithExtensionSets(p, "html");
        WithExtension(p, "html")
      else p
  }

  /** A path with a file name but no extension gets ".html" on its last component. */
  lemma NormalizeAppendsHtml(p: Path)
    requires Extension(p).None? && FileName(p).Some?
    ensures Normalize(p) == p[..|p| - 1] + [p[|p| - 1] + ".html"]
  {
    var r := Normalize(p);
    assert r == r[..|r| - 1] + [r[|r| - 1]];
  }

  /** Normalising twice is normalising once. */
  lemma NormalizeIdempotent(p: Path)
    ensures Normalize(Normalize(p)) == Normalize(p)
  {
  }

  /** The places a normalised path is looked for, in the order they are tried. */
  function Candidates(p: Path): seq<Path> {
    [[PagesDir] + p, [PublicDir] + p]
  }

  /**
   * The loop of Server::read_request_file, as a specification: the page read
   * from the first candidate that can be read, typed by that candidate's
   * path, or the fixed error when none can.
   */
  function FirstLoad(fs: FileSystem, candidates: seq<Path>): (r: Result<Page, LoadError>)
    ensures r.Err? <==> forall i :: 0 <= i < |candidates| ==> ReadFile(fs, candidates[i]).Err?
    ensures r.Err? ==> r.error == LoadError(NoCandidateMessage)
    ensures r.Ok? ==> IsKnownType(r.value.contentType)
    ensures r.Ok? ==> exists i :: (0 <= i < |candidates| && FirstReadable(fs, candidates, i) &&
      r.value == Page(DetectContentType(candidates[i]), ReadFile(fs, candidates[i]).value))
  {
    if |candidates| == 0 then Err(LoadError(NoCandidateMessage))
    else
      match ReadFile(fs, candidates[0])
      case Ok(contents) =>
        assert FirstReadable(fs, candidates, 0);
        Ok(Page(DetectContentType(candidates[0]), contents))
      case Err(_) =>
        var r := FirstLoad(fs, candidates[1..]);
        if r.Ok? then
          var i :| 0 <= i < |candidates[1..]| && FirstReadable(fs, candidates[1..], i) &&
            r.value == Page(DetectContentType(candidates[1..][i]), ReadFile(fs, candidates[1..][i]).value);
          assert FirstReadable(fs, candidates, i + 1);
          r
        else r
  }

  /** Candidate i can be read and none before it can. */
  predicate FirstReadable(fs: FileSystem, candidates: seq<Path>, i: nat)
    requires i < |candidates|
  {
    ReadFile(fs, candidates[i]).Ok? &&
    forall j :: 0 <= j < i ==> ReadFile(fs, candidates[j]).Err?
  }

  /** Server::read_request_file as a specification. */
  function Resolve(fs: FileSystem, request: Path): (r: Result<Page, LoadError>)
    ensures r.Err? ==> r.error == LoadError(NoCandidateMessage)
    ensures r.Ok? ==> IsKnownType(r.value.contentType)
    ensures r.Ok? ==>
      Ok(r.value.contents) == ReadFile(fs, [PagesDir] + Normalize(request)) ||
      (ReadFile(fs, [PagesDir] + Normalize(request)).Err? &&
       Ok(r.value.contents) == ReadFile(fs, [PublicDir] + Normalize(request)))
  {
    FirstLoad(fs, Candidates(Normalize(request)))
  }

  /**
   * Server::read_request_file: normalise, then try each candidate in turn
   * and return as soon as one reads.
   */
  method ReadRequestFile(fs: FileSystem, request: Path) returns (r: Result<Page, LoadError>)
    ensures r == Resolve(fs, request)
  {
    var path := Normalize(request);
    var pathsToCheck := Candidates(path);
    for i := 0 to |pathsToCheck|
      invariant FirstLoad(fs, pathsToCheck) == FirstLoad(fs, pathsToCheck[i..])
    {
      var candidate := pathsToCheck[i];
      var file := ReadFile(fs, candidate);
      if file.Ok? {
        return Ok(Page(DetectContentType(candidate), file.value));
      }
      assert pathsToCheck[i..][1..] == pathsToCheck[i + 1..];
    }
    return Err(LoadError(NoCandidateMessage));
  }

  /** When the page under pages/ can be read, it is the result; public/ is not consulted. */
  lemma PagesTakePrecedence(fs: FileSystem, request: Path)
    requires ReadFile(fs, [PagesDir] + Normalize(request)).Ok?
    ensures Resolve(fs, request) ==
      Ok(Page(DetectContentType([PagesDir] + Normalize(request)),
              ReadFile(fs, [PagesDir] + Normalize(request)).value))
  {
    var c := Candidates(Normalize(request));
    assert c[0] == [PagesDir] + Normalize(request);
    assert FirstLoad(fs, c) == Ok(Page(DetectContentType(c[0]), ReadFile(fs, c[0]).value));
    assert Resolve(fs, request) == FirstLoad(fs, c);
  }

  /** When pages/ cannot be read and public/ can, the asset under public/ is the result. */
  lemma PublicIsFallback(fs: FileSystem, request: Path)
    requires ReadFile(fs, [PagesDir] + Normalize(request)).Err?
    requires ReadFile(fs, [PublicDir] + Normalize(request)).Ok?
    ensures Resolve(fs, request) ==
      Ok(Page(DetectContentType([PublicDir] + Normalize(request)),
              ReadFile(fs, [PublicDir] + Normalize(request)).value))
  {
    var c := Candidates(Normalize(request));
    assert c[0] == [PagesDir] + Normalize(request);
    assert c[1..] == [[PublicDir] + Normalize(request)];
    assert FirstLoad(fs, c) == FirstLoad(fs, c[1..]);
    assert FirstLoad(fs, c[1..]) == Ok(Page(DetectContentType(c[1]), ReadFile(fs, c[1]).value));
  }

  /** Resolution fails exactly when both candidates fail, and always with the same error. */
  lemma NotFoundIffBothFail(fs: FileSystem, request: Path)
    ensures Resolve(fs, request).Err? <==>
      ReadFile(fs, [PagesDir] + Normalize(request)).Err? &&
      ReadFile(fs, [PublicDir] + Normalize(request)).Err?
    ensures Resolve(fs, request).Err? ==>
      Resolve(fs, request).error == LoadError("failed to load any of ")
  {
    var c := Candidates(Normalize(request));
    assert c[0] == [PagesDir] + Normalize(request);
    assert c[1] == [PublicDir] + Normalize(request);
  }

  /**
   * The content type is that of the normalised request path, whichever
   * directory the page came from.
   */
  lemma ContentTypeOfNormalizedPath(fs: FileSystem, request: Path)
    ensures Resolve(fs, request).Ok? ==>
      Resolve(fs, request).value.contentType == DetectContentType(Normalize(request))
  {
    var p := Normalize(request);
    assert Extension([PagesDir]).None? && Extension([PublicDir]).None? by {
      assert '.' !in PagesDir && '.' !in PublicDir;
    }
    NotFoundIffBothFail(fs, request);
    if ReadFile(fs, [PagesDir] + p).Ok? {
      PagesTakePrecedence(fs, request);
      ContentTypeUnderDirectory(PagesDir, p);
    } else if ReadFile(fs, [PublicDir] + p).Ok? {
      PublicIsFallback(fs, request);
      ContentTypeUnderDirectory(PublicDir, p);
    }
  }

  /** A request without an extension that resolves is typed as HTML. */
  lemma ExtensionlessIsHtml(fs: FileSystem, request: Path)
    requires Extension(request).None?
    ensures Resolve(fs, request).Ok? ==> Resolve(fs, request).value.contentType == TextHtml
  {
    ContentTypeOfNormalizedPath(fs, request);
  }

  /**
   * The two reads open exactly "example_site/pages/<p>" and then
   * "example_site/public/<p>", where p is the normalised request. Nothing
   * resolves ".." segments, so p may still climb out of either directory.
   */
  lemma CandidatesArePrefixedByRoot(request: Path)
    ensures |Candidates(Normalize(request))| == 2
    ensures Target(Candidates(Normalize(request))[0]) == [SiteRoot, PagesDir] + Normalize(request)
    ensures Target(Candidates(Normalize(request))[1]) == [SiteRoot, PublicDir] + Normalize(request)
  {
  }

  /** Two file systems that agree on a path give the same read of it. */
  predicate AgreeOn(fs: FileSystem, fs': FileSystem, t: Path) {
    (t in fs <==> t in fs') && (t in fs ==> fs[t] == fs'[t])
  }

  /**
   * Resolution depends only on the files at the two candidate targets, and
   * once pages/ reads, only on that file.
   */
  lemma ResolveReadsOnlyCandidates(fs: FileSystem, fs': FileSystem, request: Path)
    requires AgreeOn(fs, fs', Target([PagesDir] + Normalize(request)))
    requires ReadFile(fs, [PagesDir] + Normalize(request)).Ok? ||
      AgreeOn(fs, fs', Target([PublicDir] + Normalize(request)))
    ensures Resolve(fs, request) == Resolve(fs', request)
  {
    var p := Normalize(request);
    assert ReadFile(fs, [PagesDir] + p) == ReadFile(fs', [PagesDir] + p);
    if ReadFile(fs, [PagesDir] + p).Ok? {
      PagesTakePrecedence(fs, request);
      PagesTakePrecedence(fs', request);
    } else {
      assert ReadFile(fs, [PublicDir] + p) == ReadFile(fs', [PublicDir] + p);
      if ReadFile(fs, [PublicDir] + p).Ok? {
        PublicIsFallback(fs, request);
        PublicIsFallback(fs', request);
      } else {
        NotFoundIffBothFail(fs, request);
        NotFoundIffBothFail(fs', request);
      }
    }
  }
}
