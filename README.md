# Image captioner upload handler — a Dafny model

The system is a small Flask backend. A client posts an image to `/upload`.
The handler checks the request and saves the file. It runs a pretrained
image-captioning pipeline on the file and answers with JSON: the caption, the
sanitized filename and a full URL under which the image can be fetched.

This project models the part of `app.py` that is decided by code in the
repository itself. Each piece is a pure function with lemmas about it:

- `allowed_file`, the extension allow-list check (module `Upload`);
- the ordered early-return checks of the upload handler, each ending in a
  400 answer with its own message (module `Upload`);
- the caption fallback chain over the model's output (module `Handler`);
- the construction of the image URL from the host URL and the filename, and
  the 200 / 400 response that results (module `Handler`).

Module `Python` gives the Python semantics these pieces use: `None`-able
values, truthiness and the `or` chain, and `str.lower`, `str.rsplit(sep, 1)`
and `str.rstrip(chars)` with a single-character argument.

Modelling choices:

- `request.files` is a map from form-field name to an `UploadedFile`. It
  stands for Werkzeug's multi-valued dictionary: the value under `file` is the
  first part with that field name, which is what `request.files['file']`
  returns. Only the part's client-supplied `filename` is modelled. Werkzeug
  gives the empty string when the client sends `filename=""`; a part sent
  without any `filename` parameter lands in `request.form`, not in
  `request.files`, and so appears here as a missing `file` field.
- `secure_filename` is a parameter of type `string -> string` and is left
  uninterpreted.
- The captioning pipeline's output is a parameter. `first` is its first
  element: the values under `generated_text` and `caption`, each `None` when
  the key is absent. `rawResult` is an opaque string standing for
  `str(result)`.
- `request.host_url` is a string parameter.

## Model

| member | source | states |
|---|---|---|
| `Python.FirstTruthy` | app.py:65 | the operand an `or` chain yields is the first truthy one, and the last one when none is truthy; every operand before it is falsy (`None` or `''`) |
| `Python.TruthyValues` | app.py:65 | truthiness of the `dict.get` values: `None` and `''` are falsy, every other string is truthy |
| `Python.OrChain` | app.py:65 | an `or` chain yields one of its operands: the first truthy one when there is one, and otherwise the last operand |
| `Python.OrChainOfThree` | app.py:65 | `a or b or c` yields `a` when `a` is truthy, otherwise `b` when `b` is truthy, otherwise `c` |
| `Python.LowerChar` | app.py:32 | the ASCII model of `lower()` on one character: an upper-case ASCII letter becomes the matching lower-case letter, every other character is unchanged, and the result is never an upper-case ASCII letter |
| `Python.Lower` | app.py:32 | the ASCII model of `lower()`: the result has the same length, and each character is lowered in place by `LowerChar` |
| `Python.LowerIdempotent` | app.py:32 | lowering a lowered string changes nothing |
| `Python.LastIndexOf` | app.py:32 | the cut point of `rsplit('.', 1)` holds the separator and no separator follows it |
| `Python.LastIndexOfUnique` | app.py:32 | a separator with no separator after it is the last one, so the cut point is unique |
| `Python.RSplitOnce` | app.py:32 | `rsplit(sep, 1)` gives `[s]` when `sep` is absent; otherwise two parts that rejoin to `s` around `sep`, the second part being free of `sep` |
| `Python.RSplitOnceOfJoin` | app.py:32 | splitting `before + sep + after` with `after` free of `sep` gives back exactly `[before, after]` |
| `Python.LastIndexOfLower` | app.py:32 | lowering keeps every non-letter separator in the same place, so the last one is at the same index |
| `Python.RSplitOnceOfLower` | app.py:32 | splitting on `.` commutes with lowering: the lowered name has a dot exactly when the name does, and its final part is the lowered final part |
| `Python.RStrip` | app.py:68 | `rstrip('/')` gives a prefix of its input that does not end in `/`, and only `/` characters were removed |
| `Python.RStripUnique` | app.py:68 | those three properties determine the result of `rstrip` |
| `Python.RStripIdempotent` | app.py:68 | stripping a stripped string changes nothing |
| `Python.RStripIgnoresTrailing` | app.py:68 | appending any number of the stripped character does not change the result |
| `Upload.AllowedExtensionsLowered` | app.py:17 | each of the five allowed extensions (png, jpg, jpeg, gif, webp) is non-empty, has no `.` and is already lower case |
| `Upload.AllowedFile` | app.py:30-32 | `allowed_file(f)` holds exactly when some `.` in `f` has no `.` after it and the lowered text after it is one of png, jpg, jpeg, gif, webp |
| `Upload.NoDotNotAllowed` | app.py:32 | a name without a `.` is rejected |
| `Upload.AllowedFileByFinalExtension` | app.py:32 | for any stem, dots included, `stem.ext` is allowed exactly when the lowered `ext` is in the allow-list |
| `Upload.AllowedFileOfLower` | app.py:32 | lowering the whole name does not change the verdict |
| `Upload.AllowedFileCaseInsensitive` | app.py:32 | two names equal up to letter case get the same verdict |
| `Upload.MixedCaseExtensionExample` | app.py:32 | `a.tar.PNG` is accepted |
| `Upload.InnerExtensionExample` | app.py:32 | `x.png.exe` is rejected |
| `Upload.DotEdgeExamples` | app.py:32 | `photo.` (empty extension) and `png` (no dot) are rejected; `.png` is accepted |
| `Upload.Validate` | app.py:44-53 | a request that proceeds has a `file` part with a non-empty, allowed name and proceeds with that part; every rejection carries one of the three messages |
| `Upload.MessagesDistinct` | app.py:44-53 | the three 400 messages differ from one another, so the message says which check failed |
| `Upload.ValidateNoFileProvided` | app.py:44-45 | "No file provided" is given exactly when there is no `file` part |
| `Upload.ValidateNoFileSelected` | app.py:47-50 | "No file selected" is given exactly when the `file` part is present and its name is empty |
| `Upload.ValidateFileTypeNotAllowed` | app.py:52-53 | the file-type message is given exactly when the part is present, its name is non-empty and `allowed_file` rejects it |
| `Upload.ValidateProceeds` | app.py:44-53 | a request proceeds exactly when it passes all three checks, and it proceeds with its `file` part |
| `Upload.ProceedHasAllowedFinalExtension` | app.py:49-53 | every request that proceeds has a non-empty name whose final extension, lowered, is in the allow-list |
| `Upload.EmptyNameReportedAsNotSelected` | app.py:49-53 | an empty name would fail the extension check too, but the earlier check decides the message: "No file selected" |
| `Handler.SelectCaption` | app.py:65 | the caption is `generated_text` when it is present and non-empty, otherwise `caption` when it is present and non-empty, otherwise the stringified raw result |
| `Handler.SelectCaptionNeverEmptyField` | app.py:65 | the caption is one of the three candidates, and an empty caption can only be the stringified raw result |
| `Handler.ImageUrl` | app.py:68-69 | the image URL always ends with `/uploads/` followed by the filename |
| `Handler.ImageUrlHostPart` | app.py:68-69 | the text before `/uploads/` is the host URL with every trailing `/` removed and nothing else |
| `Handler.ImageUrlIgnoresTrailingSlashes` | app.py:68-69 | host URLs that differ only in trailing slashes give the same image URL |
| `Handler.UploadResponse` | app.py:44-76 | the status is 400 exactly when validation rejects, with the rejection's message as the error body; otherwise it is 200 with a success body |
| `Handler.SuccessBody` | app.py:55-76 | a success body comes from a `file` part with a non-empty, allowed name; its `filename` is the sanitized name; its `image_url` is the host URL with every trailing `/` removed, then `/uploads/`, then that filename (so it ends with `/uploads/` and the filename); its caption is the selected one |
| `Handler.ClientErrors` | app.py:44-53 | a missing part, an empty name and a disallowed extension each get a 400 with their own message, in that order of precedence |

## Left out

- Flask routing, `jsonify`, the landing page, CORS set-up and the server start: web-framework plumbing.
- The 16 MiB request limit: Werkzeug checks it when the form data is first read, at the `'file' not in request.files` test inside the handler's `try`; the exception it raises is caught by the broad `except Exception` and so becomes a 500 answer, which is left out as described below.
- `secure_filename`: a Werkzeug function whose code is not part of this model; it is an uninterpreted parameter, so nothing is proved about path-traversal removal.
- Saving the file, creating the upload directory, and the `/uploads/<filename>` route with its 404 answer: file-system I/O.
- Image decoding with PIL, the captioning pipeline and device selection: external model and numeric code. Their output is a parameter.
- The broad `except Exception` that turns any failure into a 500 answer, including the `IndexError` of `result[0]` on an empty pipeline result: its triggers come from code outside this model.
- Python `str.lower` on non-ASCII text: only ASCII letters are case-mapped, so the model keeps the length, which Python's full mapping does not always do (`'İ'.lower()` has two characters). No non-ASCII character lowers to one of the letters the allowed extensions are made of, so the verdict of `allowed_file` is unaffected; the case-insensitivity lemmas speak of ASCII case only.
- Concurrent requests: the shared model instance and racing writes of files with the same sanitized name.
