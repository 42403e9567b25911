# Request rules of the Hugging Face 3D-generation server

`hugging-face-server/app.py` is a small Flask server that turns an image into
a 3D model by calling a remote Hunyuan3D-2.1 Space. Almost all of it is I/O:
routes, file saves, the remote call, a trimesh export. This project models
the pure rules the server applies to what it receives and what it answers:

- **Upload filename check** (`allowed_file`, `ALLOWED_EXTENSIONS`): a name is
  accepted when it holds a `.` and the lower-cased text after its last `.` is
  `png`, `jpg`, `jpeg` or `webp`; and the order of the upload route's checks
  (no file part, empty name, type refused).
- **Extension of an image fetched by URL**: the text after the URL's last `.`,
  cut at the first `?`, cut to four characters, replaced by `jpg` unless it is
  one of the four (without lower-casing).
- **Form options**: `remove_background` and `randomize_seed` are on unless given
  a value that does not lower-case to `true`; `output_format` defaults to
  `glb`, and only a value that lower-cases to `obj` adds an OBJ link.
- **Answer and download links**: the answer always carries
  `/api/download/{job_id}/glb`; the route `/api/download/<job_id>/<format>`
  matches exactly these links and sends `glb` to `{job_id}.glb` and `obj` to
  the job's folder.

Files:

- `python_str.dfy` (module `PyStr`): the Python string operations the rules use,
  `str.lower`, `split(sep)[-1]` / `rsplit(sep, 1)[1]`, `split(sep)[0]` and
  `s[:n]`, each characterised by its postconditions, with uniqueness lemmas.
- `uploads.dfy` (module `Uploads`): `allowed_file`, the upload checks and the
  URL extension, with their properties.
- `responses.dfy` (module `Responses`): form flags, output format, the answer
  record, the download route.
- `wrappers.dfy` (module `Wrappers`): `Option`.

Python's `str.lower()` is modelled as ASCII lower-casing. Every comparison the
rules make after lower-casing is against an all-ASCII word (`png`, `jpg`,
`jpeg`, `webp`, `true`, `obj`) that holds neither `k` nor `i`; the only
non-ASCII characters that Unicode lower-casing maps into ASCII are the Kelvin
sign (to `k`) and capital I with dot (to `i` plus a combining dot), so ASCII
lower-casing gives the same verdict as Python's on every input.

## Model

| member | source | states |
|---|---|---|
| `PyStr.AfterLast` | hugging-face-server/app.py:191 | the text after the last separator: a suffix of the input, free of the separator, preceded by the separator unless it is the whole input (the whole input when there is no separator) |
| `PyStr.AfterLastUnique` | hugging-face-server/app.py:32 | those three properties determine `split(".")[-1]` / `rsplit(".", 1)[1]` uniquely |
| `PyStr.AfterLastLower` | hugging-face-server/app.py:32 | splitting at the last `.` and lower-casing commute |
| `PyStr.BeforeFirst` | hugging-face-server/app.py:191 | the text before the first separator: a prefix, free of the separator, followed by it unless it is the whole input |
| `PyStr.Lower` | hugging-face-server/app.py:32 | `str.lower()`: same length, each `A`..`Z` becomes the matching `a`..`z` (through `LowerChar`), every other character is kept |
| `PyStr.Prefix` | hugging-face-server/app.py:191 | `s[:n]`: a prefix of length `min(n, len(s))` |
| `Uploads.AllowedExtensionShape` | hugging-face-server/app.py:22 | `AllowedExtensions` is `{png, jpg, jpeg, webp}`; every allowed extension is lower case, 3 or 4 characters, with no `.` or `?` |
| `Uploads.AllowedFile` | hugging-face-server/app.py:31-32 | an accepted name contains a `.` and is at least four characters long |
| `Uploads.AllowedFileByParts` | hugging-face-server/app.py:31-32 | for any stem and a suffix without `.`, `stem.suffix` is accepted iff the lower-cased suffix is exactly one of png, jpg, jpeg, webp |
| `Uploads.AllowedFileHasSuffix` | hugging-face-server/app.py:31-32 | an accepted name has a last `.` followed by an allowed extension once lower-cased |
| `Uploads.SuffixMakesAllowedFile` | hugging-face-server/app.py:31-32 | a name whose last `.` is followed by an allowed extension once lower-cased is accepted |
| `Uploads.AllowedFileMeansSuffix` | hugging-face-server/app.py:31-32 | accepted iff some `.` is the last one in the name and the lower-cased text after it is allowed (both directions) |
| `Uploads.AllowedFileIgnoresCase` | hugging-face-server/app.py:32 | two names equal up to letter case get the same verdict |
| `Uploads.AllowedFileInnerDotExample` | hugging-face-server/app.py:32 | `a.b.png` is accepted |
| `Uploads.AllowedFileLastSuffixExample` | hugging-face-server/app.py:32 | `x.png.exe` is refused |
| `Uploads.AllowedFileEmptySuffixExample` | hugging-face-server/app.py:32 | `file.` is refused: its suffix is empty |
| `Uploads.AllowedFileNoDotExample` | hugging-face-server/app.py:32 | `png` is refused: it has no `.` |
| `Uploads.AllowedFileNoStemExample` | hugging-face-server/app.py:32 | `.webp` is accepted: the stem may be empty |
| `Uploads.AllowedFileUpperCaseExample` | hugging-face-server/app.py:32 | `photo.JPEG` is accepted |
| `Uploads.CheckUpload` | hugging-face-server/app.py:102-111 | a file is accepted iff present and its name passes `allowed_file`; a missing part and an empty name get their own errors |
| `Uploads.RawUrlExtension` | hugging-face-server/app.py:191 | the derived extension before the fallback has at most 4 characters, no `?`, no `.`, and starts the text after the URL's last `.` |
| `Uploads.UrlExtension` | hugging-face-server/app.py:191-193 | the extension is always allowed; an allowed raw extension is kept, anything else becomes `jpg` |
| `Uploads.RawUrlExtensionOfSuffix` | hugging-face-server/app.py:191 | only the text after the last `.` matters: for `stem.tail` the raw extension is `tail` cut at its first `?` and to four characters, whatever the stem |
| `Uploads.RawUrlExtensionOfShortSuffix` | hugging-face-server/app.py:191 | a last suffix of at most four characters without `?` is taken unchanged |
| `Uploads.UrlExtensionOfImageUrl` | hugging-face-server/app.py:191-193 | a URL ending in `.ext` keeps `ext`, for every allowed `ext` |
| `Uploads.UrlExtensionOfImageUrlWithQuery` | hugging-face-server/app.py:191-193 | a URL ending in `.ext?query`, with no `.` in the query, keeps `ext` |
| `Uploads.UrlExtensionOfOtherSuffix` | hugging-face-server/app.py:191-193 | a last suffix of at most four characters, with no `?`, that is not an allowed extension gives `jpg` |
| `Uploads.UrlExtensionIsCaseSensitive` | hugging-face-server/app.py:191-193 | a short suffix with an upper-case letter becomes `jpg` (where `AllowedFileByParts` shows `allowed_file` lower-cases it) |
| `Uploads.AllowedExtensionNameAllowed` | hugging-face-server/app.py:31-32 | `stem.ext` is accepted for every stem and every allowed `ext` |
| `Uploads.SavedImageNameAllowed` | hugging-face-server/app.py:191-195 | the name `{job_id}.{ext}` the URL route saves under always passes `allowed_file` |
| `Uploads.UrlExtensionKeptExample` | hugging-face-server/app.py:191-193 | `….png` gives `png` |
| `Uploads.UrlExtensionTruncatedExample` | hugging-face-server/app.py:191-193 | `….jpegs` is cut to `jpeg`, which is kept |
| `Uploads.UrlExtensionQueryDotExample` | hugging-face-server/app.py:191-193 | `….png?v=1.5` splits at the query's `.`, giving `5` and so `jpg` |
| `Uploads.UrlExtensionUpperCaseExample` | hugging-face-server/app.py:191-193 | `….PNG` gives `jpg` (contrast `AllowedFileUpperCaseExample`) |
| `Uploads.UrlExtensionOtherTypeExample` | hugging-face-server/app.py:191-193 | `….gif` gives `jpg` |
| `Responses.FormGet` | hugging-face-server/app.py:128-131 | `form.get(key, default)`: the form's value when the key is present, the default otherwise |
| `Responses.FormFlag` | hugging-face-server/app.py:128-129 | an absent flag is on |
| `Responses.FormFlagSpellings` | hugging-face-server/app.py:128-129 | a given flag is on iff its value is one of the 16 case spellings of `true` |
| `Responses.ReadFlags` | hugging-face-server/app.py:128-129 | `remove_background` and `randomize_seed` are on when absent |
| `Responses.ReadFlagsMeaning` | hugging-face-server/app.py:128-129 | each of the two flags is on iff it is absent or spells `true` |
| `Responses.OutputFormat` | hugging-face-server/app.py:131 | the format is lower case, and `glb` when the field is absent |
| `Responses.WantsObjSpellings` | hugging-face-server/app.py:131 | the format is `obj` iff the field is given and is a case spelling of `obj` |
| `Responses.Respond` | hugging-face-server/app.py:141-150 | the answer carries the job id, status `completed`, the GLB link always, and the OBJ link iff the format is `obj` |
| `Responses.RespondToUpload` | hugging-face-server/app.py:131-150 | the upload route's answer has an OBJ link iff `output_format` is given and lower-cases to `obj` |
| `Responses.DownloadUrl` | hugging-face-server/app.py:144-150 | a link starts with `/api/download/` and ends, after the job id, with `/` and the format; `MatchDownloadUrl` reads both back |
| `Responses.MatchDownloadRoute` | hugging-face-server/app.py:240-241 | a matched path has two non-empty segments without `/` and is exactly the download URL built from them |
| `Responses.DownloadPathSplits` | hugging-face-server/app.py:240-241 | a path with the download prefix and a later `/` is the download URL of the text before and after that `/` |
| `Responses.MatchDownloadUrl` | hugging-face-server/app.py:240-241 | every download URL built from two such segments matches and yields them back |
| `Responses.ServeDownload` | hugging-face-server/app.py:244-261 | a GLB target comes only from a `…/glb` path and names `{job_id}.glb`; an OBJ target only from `…/obj` |
| `Responses.ServeDownloadOfUrl` | hugging-face-server/app.py:240-261 | for a job id segment, the URL with format `glb` serves `{job_id}.glb`, with `obj` the job's folder, and with any other format gives 404 |
| `Responses.ResponseLinksResolve` | hugging-face-server/app.py:137-150 | the GLB link of an answer leads to the `{job_id}.glb` the route wrote, the OBJ link to the job's folder |

## Left out

- Flask routing machinery, request and response objects, `jsonify`, status codes: framework I/O. Only the pattern of the download route is modelled, as `MatchDownloadRoute`, with the default segment rule (non-empty, no `/`); percent-decoding, trailing-slash redirects and the redirect that merges repeated slashes (Werkzeug redirects `/api/download/a//glb` to `/api/download/a/glb`; `MatchDownloadRoute` gives no match for the first, so `ServeDownload` answers `NotFound` there) are not modelled.
- File saves, copies and removals, `os.makedirs`, `os.listdir`, `send_file`: filesystem effects. `ServeDownload` says which file or folder is looked up, not whether it exists.
- `fetch_3d_from_image` and the Gradio call, `convert_glb_to_obj`, and all of `hugging-face-server/gradio-client.py`: a remote service and a foreign mesh library. A failure there (the 500 answer) is not modelled, so `Respond` describes the successful answer only.
- `ObjDirectory(jobId)`: the OBJ folder is `os.path.splitext(os.path.basename(glb_path))[0]`, which is the job id because `uuid4` ids hold no `.`; `splitext` itself is not modelled.
- The HTTP image download (`requests.get`), `int(...)` / `float(...)` parsing of `steps`, `guidance_scale` and `seed`, and `uuid.uuid4()`: network, Python number parsing with exceptions and floats, randomness. The job id is a parameter; `ResponseLinksResolve` requires it to be a segment (non-empty, no `/`), which every `uuid4` string is.
- The URL route's JSON handling (the `image_url` presence check, values that are not strings, and passing `remove_background` through without parsing): JSON values are not modelled; its `output_format` rule is the same as the upload route's and is covered by `Respond` given the lower-cased value.
- `list_models`: sorted by file creation time (floats from the filesystem).
- The text of the "File type not allowed" message, which prints the set in Python's unordered set order.
- `Lower`: ASCII case mapping only; as argued above this does not change any verdict of the modelled rules.
- A filename that is `None` rather than a string (where `allowed_file` would raise): filenames are strings in this model.
