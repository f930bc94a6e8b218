# EssaCMS page server, modelled in Dafny

EssaCMS is a small HTTP server that serves templated pages. At startup it
reads `templates/main.html` under the site root `example_site` and keeps it
as the server's template. Each request path then goes through these steps:

1. It is parsed as a path. If it has a file name but no extension, it gets
   `.html`.
2. It is looked up first under `pages/`, then under `public/`. Both are read
   with the prefix `example_site/`, and the first read that succeeds gives
   the page.
   A file counts only if its bytes are valid UTF-8.
3. The page's contents replace every `{{content}}` in the template. The
   content type comes from the extension of the path that was read: `css`,
   `html` (also used when there is no extension), `js`, or anything else,
   which is plain text.
4. When neither read succeeds, the result is a 404 with the message
   `Failed to read file: failed to load any of `.

`/` is handled as the path `index`. Any other path is passed on as it is.

The model is split into these modules:

- `Paths` (`paths.dfy`): paths as sequences of components, in the way Rust's
  `std::path` parses them. It covers `Path::new`, `file_name`, `extension`,
  `file_stem` and `with_extension`.
- `ContentType` (`content_type.dfy`): `detect_content_type`.
- `Resolver` (`resolver.dfy`): `Server::read_file`, the normalisation, and
  the loop over the candidates in `Server::read_request_file`. The loop is a
  method. It is proved against the specification function `FirstLoad`.
- `Template` (`template.dfy`): `str::replace` as used for the marker.
- `Renderer` (`renderer.dfy`): the `Server` class with its `template` field,
  `Server::new`, `handle_page` (a method proved against the function
  `Render`), `root_route` and `path_route`.
- `Scenarios` (`scenarios.dfy`): concrete sites and requests worked through
  the model.

The file system is a parameter. It is a map from a path to what reading that
path gives: the text, an I/O failure, or bytes that are not valid UTF-8. A
path that is not in the map reads as `No such file or directory (os error 2)`.

Behaviours of the code worth noting:

- CSS and JS files are also wrapped in the template (`Scenarios.StylesheetIsWrapped`).
- A request for `style.css` looks up `pages/style.css`, not `pages/style.html`.
- Nothing rejects `..` segments. The request `../secret` opens
  `example_site/pages/../secret.html` and serves it
  (`Scenarios.ParentSegmentsAreFollowed`).
- The 404 message does not list the paths that were tried.

A successful response carries two `Content-Type` values. Turning the `String`
body into a response gives it axum's `text/plain; charset=utf-8`. The handler
then calls `HeaderMap::append`, which adds the detected type after that value
instead of replacing it. `Response.contentTypes` records both values, in that
order.

## Model

| member | source | states |
|---|---|---|
| `Paths.Components` | src/main.rs:103 | Parsing the request string gives components that are never empty, never `.`, and never contain `/`. A string is a component exactly when it is one of the `/`-separated pieces and names something. |
| `Paths.KeepNamesSingle` | src/main.rs:103 | A single piece is kept exactly when it names something (it is not empty and not `.`). |
| `Paths.KeepNamesAppend` | src/main.rs:103 | Keeping the named pieces of two joined lists is the same as keeping those of each list and joining the results. With `KeepNamesSingle`, the named pieces are kept in their order, each as often as it occurs. |
| `Paths.JoinSplit` | src/main.rs:103 | Splitting a string at `/` loses nothing: joining the pieces with `/` gives the string back. |
| `Paths.FileName` | src/main.rs:40-41 | There is no file name exactly when the path is empty or its last component is empty, `.` or `..`. Otherwise the file name is the last component. |
| `Paths.FileStem` | src/main.rs:65 | A stem exists exactly when a file name does. It is a non-empty prefix of the file name. Without an extension it is the whole file name. With one, the file name is the stem, a `.`, and the extension. |
| `Paths.WithExtension` | src/main.rs:65 | Without a file name, the path is unchanged. Otherwise it keeps its length and all components but the last. An empty extension leaves the stem as the last component. |
| `Paths.Extension` | src/main.rs:40-44 | The extension is the part after the last `.` of the file name, and it contains no `.`. There is no extension when the file name has no `.` after its first character, or when there is no file name. |
| `Paths.WithExtensionSets` | src/main.rs:65 | `with_extension` with a non-empty extension that has no `.` makes that the path's extension. The stem and all earlier components stay the same. |
| `ContentType.DetectContentType` | src/main.rs:39-51 | The function is total and returns one of the four types. `css`, `html` and `js` map to their types. A missing extension gives `text/html`. Every other extension gives `text/plain`. Each case holds in both directions. |
| `ContentType.ContentTypeUnderDirectory` | src/main.rs:69-70 | Putting a path under `pages` or `public` does not change its content type. |
| `Resolver.ReadFile` | src/main.rs:54-59 | A read succeeds exactly when the file at `example_site/<p>` holds valid text, and then it returns that text. A missing file gives the I/O error `No such file or directory (os error 2)`. Any other I/O failure gives that failure's own text. Bytes that are not UTF-8 give the decoding error. |
| `Resolver.Normalize` | src/main.rs:62-66 | A path that has an extension is unchanged. A path with a file name but no extension gets `.html` on its last component and now has the extension `html`. Afterwards, every path has an extension or has no file name. |
| `Resolver.NormalizeAppendsHtml` | src/main.rs:65 | A path with a file name but no extension becomes the same path with `.html` appended to its last component. |
| `Resolver.NormalizeIdempotent` | src/main.rs:62-66 | Normalising twice gives the same result as normalising once. |
| `Resolver.FirstLoad` | src/main.rs:73-85 | The result fails exactly when every candidate fails, and then the error is `failed to load any of `. Otherwise the page comes from the first readable candidate, typed by that candidate's path, and every earlier candidate failed. |
| `Resolver.Resolve` | src/main.rs:61-86 | A failure always carries `failed to load any of `. A success has one of the four types. Its contents are those of `pages/<p>` if that reads, and otherwise those of `public/<p>`, where `<p>` is the normalised request. |
| `Resolver.ReadRequestFile` | src/main.rs:61-86 | The loop with an early return gives exactly the first-match result of `FirstLoad` over `pages/<p>` then `public/<p>`. |
| `Resolver.PagesTakePrecedence` | src/main.rs:68-80 | When `pages/<p>` can be read, its contents are the result, and `public/` is never consulted. |
| `Resolver.PublicIsFallback` | src/main.rs:68-84 | When `pages/<p>` fails and `public/<p>` reads, the file under `public/` is the result. |
| `Resolver.NotFoundIffBothFail` | src/main.rs:73-85 | Resolution fails exactly when both candidates fail, and always with `LoadError("failed to load any of ")`. |
| `Resolver.ContentTypeOfNormalizedPath` | src/main.rs:62-78 | The content type is the one for the normalised request path, not the raw request. |
| `Resolver.ExtensionlessIsHtml` | src/main.rs:62-78 | A request without an extension that resolves is always typed `text/html`. |
| `Resolver.CandidatesArePrefixedByRoot` | src/main.rs:56-71 | There are two reads. The first opens `example_site/pages/<p>` and the second `example_site/public/<p>`, where `<p>` is the normalised request. `..` segments in `<p>` are kept as they are. |
| `Resolver.ResolveReadsOnlyCandidates` | src/main.rs:68-84 | The result depends only on the two candidate files. Once `pages/<p>` reads, it depends only on that one file. |
| `Template.ReplaceAll` | src/main.rs:107 | A replacement no longer than the pattern never makes the string longer. One no shorter never makes it shorter. So a replacement of the same length keeps the length. |
| `Template.ReplaceAtFirst` | src/main.rs:107 | At the first occurrence of the pattern, the text before it is copied, the occurrence becomes the replacement, and replacing continues after it without overlap. Applied again to the rest, this gives the result for any number of occurrences. |
| `Template.ReplaceAbsent` | src/main.rs:107 | Replacing in a string that does not contain the pattern leaves it unchanged. |
| `Template.ReplaceAfterPrefix` | src/main.rs:107 | A prefix in which no occurrence starts is copied through unchanged. |
| `Template.ReplaceUnique` | src/main.rs:107 | When the pattern occurs exactly once, the result has the replacement in its place, and every other character is unchanged. |
| `Template.ReplaceBySelf` | src/main.rs:107 | Replacing the pattern with itself changes nothing. |
| `Template.SubstituteAbsent` | src/main.rs:107 | A template without `{{content}}` comes back unchanged, whatever the page body is. |
| `Template.SubstituteUnique` | src/main.rs:107 | A template with exactly one `{{content}}` gets the page body in its place and is otherwise unchanged. |
| `Template.SubstituteMarkerIsIdentity` | src/main.rs:107 | Substituting the marker text for the marker gives the template back. |
| `Template.OnlyMarkerWithoutBraces` | src/main.rs:107 | If the text around one marker contains no `{`, that marker is the template's only one. |
| `Renderer.Render` | src/main.rs:97-114 | A failure is always the 404 with `Failed to read file: failed to load any of `. A success is status 200 with axum's `text/plain; charset=utf-8` first and one of the four detected types after it. |
| `Renderer.RenderBodyIsSubstitution` | src/main.rs:103-107 | A response succeeds exactly when resolution does. Its body is then the template with every `{{content}}` replaced by the page's contents, left to right and without overlap, whatever the number of markers. |
| `Renderer.RenderTypeIsDetected` | src/main.rs:103-112 | The second Content-Type of a success is the type detected from the normalised request path, whichever directory served the page. |
| `Renderer.Server.New` | src/main.rs:88-94 | Startup succeeds exactly when `templates/main.html` reads. The new server's template is that file's text. Otherwise the read error is returned. |
| `Renderer.HandlePage` | src/main.rs:97-114 | Handling a request gives exactly `Render` of the server's template. |
| `Renderer.RootRoute` | src/main.rs:116-120 | `/` is rendered as the path `index`. |
| `Renderer.PathRoute` | src/main.rs:122-127 | Any other path is rendered as it was received. |
| `Renderer.NotFoundIgnoresTemplate` | src/main.rs:103-106 | Rendering fails exactly when resolution fails. A failure does not depend on the template. |
| `Renderer.RenderFillsUniqueMarker` | src/main.rs:107 | With exactly one marker in the template, the body is the template with the page contents in the marker's place. |
| `Renderer.RenderWithoutMarker` | src/main.rs:107 | Without a marker, the body is the template unchanged, and the page contents are dropped. |
| `Renderer.RootIsIndexHtml` | src/main.rs:116-120 | `/` serves the same response as a request for `index.html`. |
| `Scenarios.ServeIndexPage` | src/main.rs:116-120 | With the template `<html><body>{{content}}</body></html>` and `pages/index.html` = `Hello`, `/` gives `<html><body>Hello</body></html>` as `text/html`. |
| `Scenarios.StylesheetIsWrapped` | src/main.rs:107 | A stylesheet found only under `public/` is typed `text/css` and is still wrapped in the template. |
| `Scenarios.MissingPageIsNotFound` | src/main.rs:103-106 | When neither `pages/about.html` nor `public/about.html` exists, `about` gives the fixed 404. |
| `Scenarios.ParentSegmentsAreFollowed` | src/main.rs:56-70 | With only `example_site/pages/../secret.html` on disk, `../secret` gives status 200. Its contents fill the template, typed `text/html`, although the file lies outside `pages`. |

## Left out

- Network binding, the axum `Router`, the `/*path` route pattern, `TraceLayer` and the fallback `handler_404` (src/main.rs:129-166) are HTTP plumbing. The routes appear only as the two methods `RootRoute` and `PathRoute`.
- Printing the startup error and exiting (src/main.rs:136-142) is process I/O. `Server.New` returns the error instead.
- `Arc<RwLock<Server>>` and the `async` read lock (src/main.rs:97-101) are left out. The lock is only ever taken for reading, so `HandlePage` reads the server's field directly.
- `tracing` logging (src/main.rs:55, src/main.rs:82) is diagnostic only.
- `fs::read` and `String::from_utf8` are not modelled. Their outcome is an entry of the file-system map, with the text each error displays as.
- `HeaderValue::from_str(...).expect(...)` cannot fail, because all four content types are valid header values. Only the header values are recorded, not the `http` types.
- Absolute request paths are not modelled. `Path::join` lets a leading `/` replace the base, but here a leading `/` is simply dropped. Platform separators other than `/` are left out too.
- `.` components are dropped, and a path names a file by its remaining components. The file-system map therefore cannot tell `pages/./x` from `pages/x`, and it does not model that reading a directory fails.
- A trailing `/` is dropped, so `style.css/` is handled as `style.css`. The program keeps it: it opens `example_site/pages/style.css/` and `example_site/public/style.css/`, which the operating system refuses for a regular file, so the result is a 404. Where the model serves `style.css`, the program answers 404.
- `Template.ReplaceAll` and the `Replace*` lemmas require a non-empty pattern. `str::replace` also accepts the empty pattern, but the handler only ever passes `{{content}}`.
