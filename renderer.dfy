/**
 * The server: it holds the template loaded at startup and renders each
 * request by substituting the resolved page into it.
 */
module Renderer {
  import opened Wrappers
  import opened Paths
  import opened ContentType
  import opened Resolver
  import opened Template

  const StatusOk: nat := 200
  const StatusNotFound: nat := 404

  /** The Content-Type axum gives a String response before the handler appends its own. */
  const StringBodyType: string := "text/plain; charset=utf-8"

  /** What a failed resolution is reported as, before the resolver's message. */
  const FailurePrefix: string := "Failed to read file: "

  /** Where the template is read from (under the site root). */
  const TemplatePath: Path := ["templates", "main.html"]

  /**
   * A successful response: the status, the values of its Content-Type
   * headers in order, and the body.
   */
  datatype Response = Response(status: nat, contentTypes: seq<string>, body: string)

  /** The error half of handle_page's result: a status and a message. */
  datatype Rejection = Rejection(status: nat, message: string)

  /**
   * handle_page as a specification: resolve the request; on failure a 404
   * carrying the resolver's message, on success the template with the page
   * substituted, typed by the page's content type. The String body first
   * gets axum's own text/plain type; the handler appends the page's type
   * after it rather than replacing it.
   */
  function Render(template: string, fs: FileSystem, request: string): (r: Result<Response, Rejection>)
    ensures r.Err? ==> r.error == Rejection(StatusNotFound, FailurePrefix + NoCandidateMessage)
    ensures r.Ok? ==>
      r.value.status == StatusOk && |r.value.contentTypes| == 2 &&
      r.value.contentTypes[0] == StringBodyType && IsKnownType(r.value.contentTypes[1])
  {
    match Resolve(fs, Components(request))
    case Err(e) =>
      Err(Rejection(StatusNotFound, FailurePrefix + e.message))
    case Ok(page) =>
      Ok(Response(StatusOk, [StringBodyType, page.contentType], Substitute(template, page.contents)))
  }

  class Server {
    var template: string

    /** A server whose template is still empty. */
    constructor Empty()
      ensures template == ""
    {
      template := "";
    }

    /**
     * Server::new: start with an empty template, then load the template
     * file into it; a failed load is returned as the error.
     */
    static method New(fs: FileSystem) returns (r: Result<Server, LoadError>)
      ensures r.Ok? <==> ReadFile(fs, TemplatePath).Ok?
      ensures r.Ok? ==> fresh(r.value) && r.value.template == ReadFile(fs, TemplatePath).value
      ensures r.Err? ==> r.error == ReadFile(fs, TemplatePath).error
    {
      var svr := new Server.Empty();
      var loaded := ReadFile(fs, TemplatePath);
      if loaded.Err? {
        return Err(loaded.error);
      }
      svr.template := loaded.value;
      return Ok(svr);
    }
  }

  /** handle_page: resolve the request and wrap the page in the server's template. */
  method HandlePage(server: Server, fs: FileSystem, path: string) returns (r: Result<Response, Rejection>)
    ensures r == Render(server.template, fs, path)
  {
    var pageInput := ReadRequestFile(fs, Components(path));
    if pageInput.Err? {
      return Err(Rejection(StatusNotFound, FailurePrefix + pageInput.error.message));
    }
    var page := Substitute(server.template, pageInput.value.contents);
    return Ok(Response(StatusOk, [StringBodyType, pageInput.value.contentType], page));
  }

  /** root_route: the request for "/" is the request for "index". */
  method RootRoute(server: Server, fs: FileSystem) returns (r: Result<Response, Rejection>)
    ensures r == Render(server.template, fs, "index")
  {
    r := HandlePage(server, fs, "index");
  }

  /** path_route: the rest of the URL is passed on as it is. */
  method PathRoute(server: Server, fs: FileSystem, path: string) returns (r: Result<Response, Rejection>)
    ensures r == Render(server.template, fs, path)
  {
    r := HandlePage(server, fs, path);
  }

  /** Rendering fails exactly when resolution does, and then the template plays no part. */
  lemma NotFoundIgnoresTemplate(template: string, other: string, fs: FileSystem, request: string)
    ensures Render(template, fs, request).Err? <==> Resolve(fs, Components(request)).Err?
    ensures Render(template, fs, request).Err? ==> Render(other, fs, request) == Render(template, fs, request)
  {
  }

  /**
   * With the marker exactly once in the template, the body is the template
   * with the page's contents in the marker's place.
   */
  lemma RenderFillsUniqueMarker(pre: string, post: string, fs: FileSystem, request: string)
    requires forall i :: OccursAt(pre + Marker + post, Marker, i) ==> i == |pre|
    ensures Resolve(fs, Components(request)).Ok? ==>
      Render(pre + Marker + post, fs, request).Ok? &&
      Render(pre + Marker + post, fs, request).value.body ==
        pre + Resolve(fs, Components(request)).value.contents + post
  {
    if Resolve(fs, Components(request)).Ok? {
      SubstituteUnique(pre, post, Resolve(fs, Components(request)).value.contents);
    }
  }

  /** Without the marker the template is served unchanged and the page's contents are dropped. */
  lemma RenderWithoutMarker(template: string, fs: FileSystem, request: string)
    requires forall i :: !OccursAt(template, Marker, i)
    ensures Resolve(fs, Components(request)).Ok? ==>
      Render(template, fs, request).Ok? && Render(template, fs, request).value.body == template
  {
    if Resolve(fs, Components(request)).Ok? {
      SubstituteAbsent(template, Resolve(fs, Components(request)).value.contents);
    }
  }

  /**
   * A response succeeds exactly when resolution does, and its body is the
   * template with every marker replaced by the page's contents; with
   * Template.ReplaceAtFirst and Template.ReplaceAbsent this fixes the body
   * for any number of markers.
   */
  lemma RenderBodyIsSubstitution(template: string, fs: FileSystem, request: string)
    ensures Render(template, fs, request).Ok? <==> Resolve(fs, Components(request)).Ok?
    ensures Render(template, fs, request).Ok? ==>
      Render(template, fs, request).value.body ==
        Substitute(template, Resolve(fs, Components(request)).value.contents)
  {
  }

  /**
   * The second Content-Type of a successful response is the type detected
   * from the normalised request path, whichever directory served it.
   */
  lemma RenderTypeIsDetected(template: string, fs: FileSystem, request: string)
    ensures Render(template, fs, request).Ok? ==>
      Render(template, fs, request).value.contentTypes[1] == DetectContentType(Normalize(Components(request)))
  {
    ContentTypeOfNormalizedPath(fs, Components(request));
  }

  /** The root route serves what a request for "index.html" does. */
  lemma RootIsIndexHtml(template: string, fs: FileSystem)
    ensures Render(template, fs, "index") == Render(template, fs, "index.html")
  {
    ComponentsOfName("index");
    ComponentsOfName("index.html");
    IndexNormalizesToIndexHtml();
  }

  /** "index" gets the extension html; "index.html" already has it. */
  lemma IndexNormalizesToIndexHtml()
    ensures Normalize(["index"]) == ["index.html"] == Normalize(["index.html"])
  {
    assert '.' !in "index";
    assert FileName(["index"]) == Some("index");
    NormalizeAppendsHtml(["index"]);
    assert "index" + ".html" == "index.html";
    LastDotAfter("index", "html");
    assert "index" + ("." + "html") == "index.html";
    assert Extension(["index.html"]) == Some("html");
  }
}
