/** Concrete requests against small sites, worked through the model. */
module Scenarios {
  import opened Wrappers
  import opened Paths
  import opened ContentType
  import opened Resolver
  import opened Template
  import opened Renderer

  const ShellHead: string := "<html><body>"
  const ShellTail: string := "</body></html>"

  /** The shell with body in place of its one marker. */
  lemma FillShell(body: string)
    ensures Substitute(ShellHead + Marker + ShellTail, body) == ShellHead + body + ShellTail
  {
    OnlyMarkerWithoutBraces(ShellHead, ShellTail);
    SubstituteUnique(ShellHead, ShellTail, body);
  }

  /** "/" with pages/index.html holding "Hello" is served as HTML inside the shell. */
  lemma ServeIndexPage(template: string, fs: FileSystem)
    requires template == ShellHead + Marker + ShellTail
    requires fs == map[[SiteRoot, PagesDir, "index.html"] := Text("Hello")]
    ensures Render(template, fs, "index") ==
      Ok(Response(StatusOk, [StringBodyType, TextHtml], ShellHead + "Hello" + ShellTail))
  {
    ComponentsOfName("index");
    IndexPageResolves(fs);
    FillShell("Hello");
  }

  lemma IndexPageResolves(fs: FileSystem)
    requires fs == map[[SiteRoot, PagesDir, "index.html"] := Text("Hello")]
    ensures Resolve(fs, ["index"]) == Ok(Page(TextHtml, "Hello"))
  {
    IndexNormalizesToIndexHtml();
    IndexPageIsRead(fs);
    PagesTakePrecedence(fs, ["index"]);
    assert Extension(["index"]).None? by {
      assert '.' !in "index";
    }
    ExtensionlessIsHtml(fs, ["index"]);
  }

  lemma IndexPageIsRead(fs: FileSystem)
    requires fs == map[[SiteRoot, PagesDir, "index.html"] := Text("Hello")]
    ensures ReadFile(fs, [PagesDir] + ["index.html"]) == Ok("Hello")
  {
    assert Target([PagesDir] + ["index.html"]) == [SiteRoot, PagesDir, "index.html"];
  }

  /**
   * A stylesheet found only under public/ keeps its own path, is typed as
   * CSS, and is still wrapped in the template.
   */
  lemma StylesheetIsWrapped(template: string, fs: FileSystem, css: string)
    requires template == ShellHead + Marker + ShellTail
    requires fs == map[[SiteRoot, PublicDir, "style.css"] := Text(css)]
    ensures Render(template, fs, "style.css") ==
      Ok(Response(StatusOk, [StringBodyType, TextCss], ShellHead + css + ShellTail))
  {
    ComponentsOfName("style.css");
    StylesheetResolves(fs, css);
    FillShell(css);
  }

  lemma StylesheetResolves(fs: FileSystem, css: string)
    requires fs == map[[SiteRoot, PublicDir, "style.css"] := Text(css)]
    ensures Resolve(fs, ["style.css"]) == Ok(Page(TextCss, css))
  {
    StylesheetPath();
    assert Target([PagesDir] + ["style.css"]) == [SiteRoot, PagesDir, "style.css"];
    assert [SiteRoot, PagesDir, "style.css"][1] != [SiteRoot, PublicDir, "style.css"][1];
    assert ReadFile(fs, [PagesDir] + ["style.css"]).Err?;
    assert Target([PublicDir] + ["style.css"]) == [SiteRoot, PublicDir, "style.css"];
    PublicIsFallback(fs, ["style.css"]);
  }

  /** "style.css" keeps its name and, under public/, is typed as CSS. */
  lemma StylesheetPath()
    ensures Normalize(["style.css"]) == ["style.css"]
    ensures DetectContentType([PublicDir, "style.css"]) == TextCss
  {
    LastDotAfter("style", "css");
    assert "style" + ("." + "css") == "style.css";
    assert Extension(["style.css"]) == Some("css");
    assert FileName([PublicDir, "style.css"]) == Some("style.css");
  }

  /** A page that is in neither directory is a 404 with the fixed message. */
  lemma MissingPageIsNotFound(template: string, fs: FileSystem)
    requires Target([PagesDir, "about.html"]) !in fs && Target([PublicDir, "about.html"]) !in fs
    ensures Render(template, fs, "about") ==
      Err(Rejection(StatusNotFound, "Failed to read file: failed to load any of "))
  {
    var message := FailurePrefix + NoCandidateMessage;
    assert message == "Failed to read file: failed to load any of ";
    AboutIsUnresolved(fs);
    ComponentsOfName("about");
    assert Render(template, fs, "about") == Err(Rejection(StatusNotFound, message));
  }

  lemma AboutIsUnresolved(fs: FileSystem)
    requires Target([PagesDir, "about.html"]) !in fs && Target([PublicDir, "about.html"]) !in fs
    ensures Resolve(fs, ["about"]).Err?
  {
    AboutGetsHtml();
    assert [PagesDir] + ["about.html"] == [PagesDir, "about.html"];
    assert [PublicDir] + ["about.html"] == [PublicDir, "about.html"];
    NotFoundIffBothFail(fs, ["about"]);
  }

  lemma AboutGetsHtml()
    ensures Normalize(["about"]) == ["about.html"]
  {
    assert '.' !in "about";
    assert FileName(["about"]) == Some("about");
    NormalizeAppendsHtml(["about"]);
    assert "about" + ".html" == "about.html";
  }

  /**
   * Nothing rejects "..": the request "../secret" opens
   * example_site/pages/../secret.html, a file outside pages/, and serves
   * its text as HTML inside the template.
   */
  lemma ParentSegmentsAreFollowed(template: string, fs: FileSystem, secret: string)
    requires fs == map[[SiteRoot, PagesDir, "..", "secret.html"] := Text(secret)]
    ensures Render(template, fs, "../secret") ==
      Ok(Response(StatusOk, [StringBodyType, TextHtml], Substitute(template, secret)))
  {
    ComponentsOfTwoNames("..", "secret");
    assert ".." + "/" + "secret" == "../secret";
    ParentRequestResolves(fs, secret);
  }

  lemma ParentRequestResolves(fs: FileSystem, secret: string)
    requires fs == map[[SiteRoot, PagesDir, "..", "secret.html"] := Text(secret)]
    ensures Resolve(fs, ["..", "secret"]) == Ok(Page(TextHtml, secret))
  {
    assert FileName(["..", "secret"]) == Some("secret");
    assert LastDot("secret") == None;
    NormalizeAppendsHtml(["..", "secret"]);
    assert ["..", "secret"][..1] == [".."];
    assert "secret" + ".html" == "secret.html";
    var n := Normalize(["..", "secret"]);
    assert n == ["..", "secret.html"];
    assert Target([PagesDir] + n) == [SiteRoot, PagesDir, "..", "secret.html"];
    PagesTakePrecedence(fs, ["..", "secret"]);
    ExtensionlessIsHtml(fs, ["..", "secret"]);
  }
}
