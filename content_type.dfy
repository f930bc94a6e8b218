/** The content type of a page, chosen from the extension of the path it was read from. */
module ContentType {
  import opened Wrappers
  import opened Paths

  const TextCss: string := "text/css"
  const TextHtml: string := "text/html"
  const ApplicationJs: string := "application/js"
  const TextPlain: string := "text/plain"

  /** The four answers detect_content_type can give. */
  predicate IsKnownType(t: string) {
    t == TextCss || t == TextHtml || t == ApplicationJs || t == TextPlain
  }

  /**
   * A path with no extension counts as "html"; "css", "html" and "js" have a
   * type of their own and every other extension is plain text. The extension
   * of a path built from a Rust &str is always valid UTF-8, so the second
   * "html" fallback (for an extension that is not valid UTF-8) never applies.
   */
  function DetectContentType(p: Path): (r: string)
    ensures IsKnownType(r)
    ensures r == TextCss <==> Extension(p) == Some("css")
    ensures r == TextHtml <==> Extension(p) == None || Extension(p) == Some("html")
    ensures r == ApplicationJs <==> Extension(p) == Some("js")
    ensures r == TextPlain <==>
      Extension(p).Some? && Extension(p).value != "css" &&
      Extension(p).value != "html" && Extension(p).value != "js"
  {
    var ext := match Extension(p) case Some(e) => e case None => "html";
    if ext == "css" then TextCss
    else if ext == "html" then TextHtml
    else if ext == "js" then ApplicationJs
    else TextPlain
  }

  /**
   * Putting a path under a directory whose own name has no extension does not
   * change its content type: only the last component is consulted.
   */
  lemma {:induction false} ContentTypeUnderDirectory(dir: Segment, q: Path)
    requires Extension([dir]).None?
    ensures DetectContentType([dir] + q) == DetectContentType(q)
  {
    if q == [] {
      assert [dir] + q == [dir];
      assert Extension([dir] + q) == Extension(q);
    } else {
      assert ([dir] + q)[|q|] == q[|q| - 1];
      assert FileName([dir] + q) == FileName(q);
      assert Extension([dir] + q) == Extension(q);
    }
  }
}
