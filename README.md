# klistra: naming, templating and publishing, modelled in Dafny

klistra turns a Markdown file into one self-contained, dark-themed HTML page. It then
either writes the page next to the input file or uploads it to a Backblaze B2 bucket
through the S3 API under a freshly generated UUID, and prints the page's public URL.
Everything in the program is I/O plumbing except a small deterministic core inside
`main`:

- **remote naming**: the object key `<prefix without trailing '/'>/p/<id>/index.html`,
  the public URL `<domain>/p/<id>` and the endpoint `https://s3.<region>.backblazeb2.com`;
- **local naming**: the page title (the input's file stem, or `Document`) and the
  local output path (the input path with its extension replaced by `html`), following
  the path rules of Rust's `std::path::Path` on Unix;
- **page templating**: fixed text around three holes (title, date label, rendered
  fragment), filled verbatim;
- **publishing**: the local-or-remote decision, write-if-absent for local output, and
  the single PUT request for remote output.

Files:

- `wrappers.dfy`: `Option`.
- `remote_naming.dfy`: key, URL and endpoint. Each has an inverse that reads the id
  (or region) back, proved in both directions. Also trimming of the prefix and a
  predicate for the text form of a version-4 UUID.
- `local_naming.dfy`: file name, stem, extension, `with_extension`, the title and the
  output path over paths as `seq<char>`.
- `page.dfy`: the template as a `Template` value, `Fill`/`Render` and the inverse
  `Unfill`, with layout lemmas.
- `publish.dfy`: `Resolve`, `WriteIfAbsent`, and a `Host` class. `Host` holds the file
  map, the request log and the stored objects, which its `Run` method updates.

The clock, the random id, the Markdown renderer, the file system and the network become
inputs. `date` is the date label, `id` the generated UUID text and `fragment` the
rendered HTML. The file system is a `map<string, string>` from path to content. The
storage service is a log of `PutRequest`s plus a map from (bucket, key) to body.
`writeSucceeds` and `uploadSucceeds` say whether the file write or the upload fails.

How the naming behaves, as the code does it:

- The stem is never empty. A file name is never empty, and a name whose only '.' leads it
  keeps the whole name as its stem. So the title falls back to `Document` exactly when
  the path names no file: for example `..`, `a/..`, `/` or the empty path
  (`LocalNaming.Title`, `LocalNaming.NoFileNameExactly`). A trailing separator does not
  hide the file name: `a/` names the file `a`.
- The program's help text (src/main.rs:36-37) promises output "with the same base name as
  the input file (extension .html)". `with_extension` leaves a path that names no file
  unchanged, and a source ending in `.html` maps to itself. The source exists, so local
  output then reports that the file already exists and writes nothing
  (`LocalNaming.OutputPath`, `LocalNaming.OutputPathShape`).
- `with_extension` cuts the original path right after the stem. Trailing separators
  and `.` components after the file name therefore disappear: `a/b.md/` becomes
  `a/b.html` (`LocalNaming.TrailingSeparatorKeepsOutput`).

## Model

| member | source | states |
|---|---|---|
| RemoteNaming.TrimEndSlashes | src/main.rs:269 | `trim_end_matches('/')` yields a prefix of the input that does not end in '/', and everything it removed is '/' |
| RemoteNaming.TrimEndSlashesUnique | src/main.rs:269 | trimming removes every trailing '/' and nothing else: any split into a part without a trailing '/' and an all-'/' tail is the trimmed result |
| RemoteNaming.TrimEndSlashesIdempotent | src/main.rs:269 | trimming twice equals trimming once |
| RemoteNaming.SlashPrefixKey | src/main.rs:267-271 | an empty or all-'/' prefix gives the key `/p/<id>/index.html` |
| RemoteNaming.ObjectKey | src/main.rs:267-271 | the key reads back to its id under its prefix; with ObjectKeyReadsBack, only this key does |
| RemoteNaming.PublicUrl | src/main.rs:282 | the URL reads back to its id under its domain; with PublicUrlReadsBack, only this URL does |
| RemoteNaming.Endpoint | src/main.rs:247 | the endpoint reads back to its region; with EndpointReadsBack, only this URL does |
| RemoteNaming.ObjectKeyReadsBack | src/main.rs:267-271 | a string reads back to `id` under `prefix` exactly when it is the key `trim(prefix) ++ "/p/" ++ id ++ "/index.html"` |
| RemoteNaming.PublicUrlReadsBack | src/main.rs:282 | a string reads back to `id` under `domain` exactly when it is `domain ++ "/p/" ++ id` (domain unmodified, no `index.html`) |
| RemoteNaming.EndpointReadsBack | src/main.rs:247 | a string reads back to `region` exactly when it is `"https://s3." ++ region ++ ".backblazeb2.com"` |
| RemoteNaming.DistinctIdsDistinctNames | src/main.rs:267-282 | two publishes with different ids get different keys and different public URLs |
| RemoteNaming.PrefixSlashesIgnored | src/main.rs:267-271 | trailing '/' on the prefix do not change the key: `docs/` and `docs` both give `docs/p/<id>/index.html` |
| RemoteNaming.UuidIsOneSegment | src/main.rs:244 | a version-4 UUID id holds no '/', so in the key it forms exactly one path segment and the key is 50 characters longer than the trimmed prefix |
| LocalNaming.StripTail | src/main.rs:93-94 | dropping trailing separators and "." components leaves a prefix of the path that ends in a real component or is empty, and every character removed is a '/' or a whole "." component |
| LocalNaming.ComponentStart | src/main.rs:93-94 | the last component starts after the last '/' and holds no '/' |
| LocalNaming.FileName | src/main.rs:93-94 | a file name, when there is one, is non-empty, holds no '/', and is neither "." nor ".." |
| LocalNaming.LastIndexOf | src/main.rs:93-94 | finds the last occurrence of a character, or reports that there is none |
| LocalNaming.SplitAtDotParts | src/main.rs:93-94 | a file name splits into a non-empty stem and, after its last '.', an extension without '.'; without an extension the name has no '.' after its first character, so the split is determined |
| LocalNaming.SplitAtDot | src/main.rs:93-94 | without an extension the stem is the whole name; with one, stem, "." and extension rebuild the name |
| LocalNaming.FileStem | src/main.rs:93 | a path has a stem exactly when it names a file, and the stem is a prefix of the file name |
| LocalNaming.Extension | src/main.rs:94 | an extension exists only for a path that names a file, and holds no '.' |
| LocalNaming.StemAndExtension | src/main.rs:93-94 | a path has a stem exactly when it has a file name; stem, "." and extension rebuild the file name; neither part holds a '/'; without an extension the file name has no '.' after its first character |
| LocalNaming.Title | src/main.rs:93-96 | the title is never empty; it is the file stem when the path names a file and "Document" otherwise |
| LocalNaming.DirThenName | src/main.rs:229-230 | the directory part followed by the file name is a prefix of the path |
| LocalNaming.StemCut | src/main.rs:229-230 | the path cut where the stem ends is the directory part followed by the stem |
| LocalNaming.NameAfterDir | src/main.rs:229-230 | a plain name appended to a directory part is the file name, and the directory part is kept |
| LocalNaming.SplitAfterStem | src/main.rs:229-230 | `stem.ext` splits back into `stem` and `ext` when `ext` is non-empty and holds no '.' |
| LocalNaming.HtmlNameAfterDir | src/main.rs:229-230 | `<dir><stem>.html` has file name `<stem>.html`, directory part `<dir>`, stem `<stem>` and extension `html` |
| LocalNaming.WithExtension | src/main.rs:230 | a path that names no file is unchanged; otherwise the result is the directory part, the stem and, for a non-empty extension, "." and the extension |
| LocalNaming.OutputPath | src/main.rs:229-230 | a path that names no file is unchanged; otherwise the output is the directory part, the stem and ".html" |
| LocalNaming.OutputPathShape | src/main.rs:229-230 | the output path keeps the input's directory part and stem, names the file `<stem>.html`, and has extension `html` |
| LocalNaming.OutputNamedAfterTitle | src/main.rs:93-96 | when the title is not the fallback, the output file is named `title ++ ".html"` and has the same title |
| LocalNaming.OutputPathIdempotent | src/main.rs:230 | deriving the output path again from the output path changes nothing |
| LocalNaming.TitleAndOutputOfPlainFile | src/main.rs:93-96 | `<dir><stem>.<ext>` has title `<stem>` and output path `<dir><stem>.html` |
| LocalNaming.DotFileIsAllStem | src/main.rs:93-96 | a name whose only '.' leads it, `<dir>.<rest>`, is all stem: its title is `.<rest>` and its output path is `<dir>.<rest>.html` |
| LocalNaming.TrailingSlashIgnored | src/main.rs:93-94 | appending '/' changes neither the stripped path, the file name nor the directory part |
| LocalNaming.TrailingCurDirIgnored | src/main.rs:93-94 | appending "/." changes neither the stripped path, the file name nor the directory part |
| LocalNaming.TrailingSeparatorKeepsOutput | src/main.rs:229-230 | for a path that names a file, appending '/' or "/." leaves the output path unchanged |
| LocalNaming.NoFileNameExactly | src/main.rs:93-96 | a path names no file exactly when nothing is left after stripping, or what is left is ".." or ends in "/.." |
| LocalNaming.ParentDirNamesNoFile | src/main.rs:93-96 | a path ending in `..` names no file: its title is `Document` and its output path is the input path itself |
| Page.PageTemplateIsPageShaped | src/main.rs:98-224 | the fixed text opens with the doctype, ends its head with `<title>`, opens the date `div` before the date, closes it after, and ends with `</html>` |
| Page.Fill | src/main.rs:98-226 | the page is as long as the fixed text plus the three holes; FillThenUnfill and UnfillFill state what it holds |
| Page.Render | src/main.rs:98-226 | the published page is longer than the doctype, `</html>` and the three holes together; RenderFrame, RenderTitle and RenderDateThenFragment state its layout |
| Page.Unfill | src/main.rs:98-226 | reading the holes back returns a title and a date of the requested lengths |
| Page.FillThenUnfill | src/main.rs:98-226 | a filled page reads back to the title, date and fragment that were filled in |
| Page.UnfillThenFill | src/main.rs:98-226 | a page that reads back to a title, date and fragment is the page filled with them |
| Page.UnfillFill | src/main.rs:98-226 | reading the holes of a page gives back exactly the title, date and fragment, and only a page filled with them reads back to them |
| Page.RenderInjective | src/main.rs:98-226 | pages with equally long titles and dates are equal only when title, date and fragment are |
| Page.FillFrame | src/main.rs:98-226 | a filled page-shaped template starts with the doctype and ends with `</html>` |
| Page.FillTitle | src/main.rs:98-226 | a filled page holds `<title>` then the title verbatim then `</title>` |
| Page.FillDate | src/main.rs:98-226 | a filled page holds the date verbatim in the date `div` |
| Page.FillFragmentAfterDate | src/main.rs:98-226 | in a filled page the date `div` closes before the fragment, which follows verbatim |
| Page.RenderFrame | src/main.rs:98-226 | the published page starts with `<!DOCTYPE html>` and ends with `</html>` |
| Page.RenderTitle | src/main.rs:104 | the published page contains `<title>` ++ title ++ `</title>` |
| Page.RenderDateThenFragment | src/main.rs:220-221 | the published page holds the date verbatim in `<div class="date">…</div>`, and after it the fragment verbatim |
| Publish.Resolve | src/main.rs:228-282 | local output exactly when requested, at the input path with extension `html`; otherwise the configured bucket, and an endpoint, key and URL that read back to the configured region and to the same id |
| Publish.WriteIfAbsent | src/main.rs:232-240 | an existing output file is never overwritten and reported as existing, with success; otherwise exactly that path is created holding the page, unless the write fails; no other path changes |
| Publish.SecondLocalRunKeepsFirst | src/main.rs:232-241 | after a successful local run a second one writes nothing, reports that the file exists, and the file keeps the first run's content |
| Publish.UploadRequest | src/main.rs:273-280 | the upload carries the page as its body with content type `text/html` |
| Publish.Host.Run | src/main.rs:93-282 | local mode writes through `WriteIfAbsent` and sends no request; remote mode leaves the files alone, issues exactly one PUT of the page under the key, stores it when accepted, and reports the public URL for the same id |
| Publish.PublishLocallyTwice | src/main.rs:228-242 | two local runs: the second reports that the file exists, the file holds the first page or the file that was already there, and no request is sent |

## Left out

- Command-line parsing (src/main.rs:30-44) and finding, reading and deserialising the configuration file (src/main.rs:46-80) are not modelled. The configuration is an input value. The model does not capture that `main` needs a readable configuration and a readable Markdown file even in local mode, because both are loaded before the branch.
- Markdown rendering with `pulldown_cmark` (src/main.rs:84-89) is a foreign library: the rendered fragment is an input string.
- Date formatting with `chrono` (src/main.rs:91) depends on the clock: the date label is an input.
- UUID generation (src/main.rs:244) is randomness: the id is an input, and `IsUuidV4Text` only states the shape of its text form. Collision resistance is a probability, so it is not modelled. What is proved is that distinct ids give distinct names.
- The S3 client set-up (src/main.rs:248-265) is not modelled: credentials, path-style addressing, checksum options and the region object. Only the endpoint string and the request fields are.
- The network call and its failure modes are reduced to `uploadSucceeds`. A failed upload is modelled as storing nothing.
- Printed messages (src/main.rs:233-239, 284) are not modelled; the `Outcome` constructors stand for them.
- The style sheet (src/main.rs:105-216) is the abbreviated constant `Page.StyleRules`, not the exact CSS text. Only the text around the three holes matters to the properties.
- `LocalNaming.WithExtension` follows `PathBuf::set_extension`: it truncates the path right after the stem and appends the new extension. Some releases of the Rust standard library first copy the path up to the old extension's '.' and then set the extension. The two differ only for a file name whose stem is ".", such as `..md`. The model gives `a/..html` for `a/..md`, where those releases give `a/..`.
- Paths use Unix rules only: no Windows prefixes or '\\' separators.
- `Path::to_str` can fail only on non-UTF-8 names. The input path is a `String`, so the stem is always valid text; the model has no case where it fails.
- `Publish.WriteIfAbsent`: "exists" means the path is in the file map. The source tests `fs::metadata(..).is_ok()`, which is also false on errors such as permission denied; in that case the source attempts the write.
- `Publish.WriteIfAbsent`: a failed write is modelled as leaving no file. The checked-then-written sequence is not atomic in the source, so a file created by someone else between the check and the write is not modelled.
- Asynchronous execution (tokio) is not modelled; the run is sequential.
