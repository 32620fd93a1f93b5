# Filename sanitizer and download response of a yt-dlp web wrapper

This project models the core of a small Flask service. The service takes a media URL and asks yt-dlp to download it. It stores the file under `downloads/` and answers with a link to fetch the file. Almost all of the service is I/O. Two parts are real logic, and the model covers both.

- **`sanitize_filename`** (module `Filename`, file `filename.dfy`) is a pure string transform made of three passes, applied in this order:
  1. each of `< > : " / \ | ? *` becomes `_`;
  2. each maximal run of code points above 0x7F becomes a single `_`;
  3. each space becomes `_`.

  Each pass is its own recursive function over `string` (`seq<char>`), and `Sanitize` composes them. Module `FilenameProperties` (file `filename_properties.dfy`) proves the properties of the transform:
  - what the output excludes;
  - idempotence, and an exact description of the fixed points;
  - length bounds;
  - behaviour on ASCII input;
  - splitting at an ASCII separator such as the `.` between title and extension;
  - an independent reference definition of pass 2, which decides position by position from the character and its left neighbour.
- **The response decision of `download_video`** (module `Handler`, file `handler.dfy`) is a pure function over an abstract collaborator. yt-dlp becomes a function from the URL to an `Outcome`: `DownloadError`, `OtherError(message)`, or `Info(title?, ext?)`. The storage directory becomes a predicate `fileExists` on the sanitized name. The function returns a status and a JSON body: 400 when no URL is given, 400 when the content is unavailable, 500 for any other failure, 404 when the file is missing, and 200 with the link otherwise.

Python's `str` is a sequence of code points. Dafny's `char` is a Unicode scalar value, so "non-ASCII" means a code point above 0x7F, as in the character class `[^\x00-\x7F]`.

A title `My Video!` with extension `mp4` is linked as `My_Video!.mp4`, because the sanitizer leaves `!` alone: it is neither reserved, nor above 0x7F, nor a space (`Handler.TitleWithSpaceAndBang`). yt-dlp's `restrictfilenames` may write a different name on disk; see the next paragraph.

The existence check uses the sanitizer's name, not the name yt-dlp actually wrote with `restrictfilenames`. The model makes no claim that the two agree. `fileExists` is an arbitrary predicate on the sanitized name.

## Model

| member | source | states |
|---|---|---|
| Filename.ReplaceReserved | app.py:17 | Pass 1 keeps the length. Position by position, each of the nine reserved characters becomes `_` and every other character is unchanged. |
| Filename.NonAsciiRunLength | app.py:18 | The leading run that pass 2 consumes is maximal. Every character before the returned length is non-ASCII, and the character at that length, if any, is ASCII. |
| Filename.CollapseNonAscii | app.py:18 | Pass 2 output is all ASCII and no longer than its input. Every output character is `_` or a character of the input, so the pass introduces nothing but `_`. |
| Filename.ReplaceSpaces | app.py:19 | Pass 3 keeps the length. Position by position, spaces become `_` and every other character is unchanged. |
| Filename.Sanitize | app.py:15-20 | The three passes in source order. The output has no reserved character (so no `/` or `\`), no code point above 0x7F and no space, and is never longer than the input. |
| FilenameProperties.CollapseFixesAscii | app.py:18 | Pass 2 is the identity on all-ASCII text. |
| FilenameProperties.PassesFixClean | app.py:17-19 | A clean text is a fixed point of each of the three passes. Clean means all ASCII, with no reserved character and no space. |
| FilenameProperties.SanitizedIsFixedPointOfEachPass | app.py:15-20 | The sanitizer's output is a fixed point of pass 1, pass 2 and pass 3 separately. |
| FilenameProperties.FixedPointsAreClean | app.py:15-20 | `Sanitize(s) == s` holds exactly when `s` is clean (both directions). |
| FilenameProperties.Idempotent | app.py:15-20 | `Sanitize(Sanitize(s)) == Sanitize(s)` for every string. |
| FilenameProperties.AsciiInputKeepsPositions | app.py:17-19 | On all-ASCII input the length is unchanged. Exactly the reserved characters and spaces become `_`, and every other character (`!`, `.`, letters) stays in place. |
| FilenameProperties.AsciiSanitizeIs | app.py:17-19 | On ASCII input, any string that agrees with that character-by-character rule is the sanitized text. |
| FilenameProperties.ReplaceReservedAppend | app.py:17 | Pass 1 distributes over concatenation. |
| FilenameProperties.ReplaceSpacesAppend | app.py:19 | Pass 3 distributes over concatenation. |
| FilenameProperties.RunStopsAtAscii | app.py:18 | A non-ASCII run never extends past an ASCII character: the leading run of `a + [c] + b` is the leading run of `a`. |
| FilenameProperties.CollapseSplitsAtAscii | app.py:18 | Pass 2 splits at any ASCII character: `Collapse(a + [c] + b) == Collapse(a) + [c] + Collapse(b)`. |
| FilenameProperties.SanitizeSplitsAtAscii | app.py:15-20 | The whole sanitizer splits at any ASCII character. The separator is sanitized on its own. |
| FilenameProperties.DotSplit | app.py:47 | The stored name satisfies `Sanitize(title + "." + ext) == Sanitize(title) + "." + Sanitize(ext)`. |
| FilenameProperties.CollapseMatchesEmitFrom | app.py:18 | From any position that is not inside a run, pass 2 on the suffix equals the position-by-position contributions from there on. |
| FilenameProperties.CollapseIsPositional | app.py:18 | Pass 2 equals the reference definition on every input. An ASCII character is kept, the first character of a non-ASCII run gives one `_`, and later characters of the run give nothing. |
| FilenameProperties.RunBecomesOneUnderscore | app.py:18 | A non-empty string made only of non-ASCII characters sanitizes to a single `_`, whatever its length. |
| FilenameProperties.TwoRunsAndASpace | app.py:18-19 | Two non-ASCII words separated by a space sanitize to `___`. |
| FilenameProperties.DotDotSurvives | app.py:17-19 | `..` passes through unchanged, so the sanitizer does not reject parent-directory names. |
| FilenameProperties.TraversalPathFlattened | app.py:17-19 | `../etc/passwd` becomes `.._etc_passwd`: the separators are replaced, but the leading `..` stays. |
| Handler.NoUrl | app.py:26 | The request has no usable URL exactly when the field is absent, null or the empty string. Any non-empty string, even one of only spaces, goes on to the collaborator, as Python's truthiness test does. |
| Handler.StoredName | app.py:45-47 | The name for the metadata is built from `title.ext`, with defaults `video` and `mp4`, then sanitized. It is clean (all ASCII, no reserved character, no space) and no longer than `title.ext`. |
| Handler.StoredNameSplits | app.py:45-47 | The stored name is the sanitized title, a dot, and the sanitized extension. |
| Handler.DownloadVideo | app.py:24-69 | Error taxonomy:<br>• no or empty URL gives 400 "No URL provided";<br>• `DownloadError` gives 400 "The file wasn't available on the site.";<br>• any other error gives 500 with its message;<br>• a missing file gives 404 "File not found on server.";<br>• otherwise 200 with a link built from the sanitized `title.ext` and the raw title.<br>Status is 200 exactly when the body is a link, and it is always one of 200/400/404/500. |
| Handler.NoUrlIgnoresCollaborator | app.py:24-27 | Without a URL the response is 400 and depends on neither the collaborator nor the storage directory. |
| Handler.BadRequestCauses | app.py:24-66 | The status is 400 exactly when the URL is missing or empty, or when the collaborator reports `DownloadError`. |
| Handler.SuccessLinkNamesCheckedFile | app.py:45-62 | A 200 link is the fixed base followed by the name that was checked for existence. That name is `Sanitize(title) + "." + Sanitize(ext)`, contains no `/` or `\`, and is a fixed point of the sanitizer. |
| Handler.TitleWithSpaceAndBang | app.py:44-62 | For title `My Video!` and extension `mp4` the answer is 200, with link `http://localhost:5000/download-file/My_Video!.mp4` and title `My Video!` unchanged. |
| Handler.BangTitleName | app.py:45-47 | For title `My Video!` and extension `mp4` the stored name is `My_Video!.mp4`. |
| Handler.MissingMetadataDefaults | app.py:45-62 | Metadata without title or extension is linked as `video.mp4`, with title `video`. |
| Handler.DefaultName | app.py:45-47 | Metadata without title or extension gives the stored name `video.mp4`. |

## Left out

- yt-dlp extraction and download (app.py:34-46) belong to a third-party library. They are modelled only as the `Outcome` the collaborator returns. The options passed to yt-dlp (format, output template, quiet, restricted filenames) have no model.
- `download_file` (app.py:71-90) is not modelled. Its traversal safety rests on werkzeug's `secure_filename`, which is not part of this model. The model also does not claim traversal safety for the sanitizer: `DotDotSurvives` shows that `..` passes through it.
- `os.path.exists`, `os.path.abspath` and the startup `os.makedirs` (app.py:48, 54, 92-94) are filesystem I/O. Existence is the `fileExists` predicate, applied to the sanitized name relative to the storage root.
- Flask routing, CORS, logging, `jsonify` and `app.run` (app.py:1-13, 96-97) are framework plumbing. A response is a status and a body datatype.
- Handler.DownloadVideo: the `url` field is modelled as `Option<string>`. A JSON value of another type (a number, a list, `false`) and a request body that is not JSON are not modelled: Python's truthiness test and Flask's own JSON error handling apply to those.
- Handler.DownloadVideo: a metadata field that is present but not a string is not modelled. For example, a `title` of `None` would be rendered as `"None"` in the f-string while `null` would be returned as the title. A field is either a string or missing (`None` in the model), and a missing field takes its default.
- Python strings can hold lone surrogate code points. Dafny's `char` cannot, so such input is outside the model.
- The race between concurrent downloads of the same title is not modelled. The service has no concurrency logic.
