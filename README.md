# Smart camera capture: a Dafny model

The application is a single Flask file, `app.py`. It serves a page on which a
user takes a photo with the browser's camera. The photo is posted as a data URL,
with coordinates and an optional place name, to `POST /upload`. The handler
`upload_image` decodes the image and settles on a place name: the client's, or
the `display_name` from a server-side reverse-geocoding lookup, or a sentinel.
It writes `captured_photos/photo_<ts>_<safe>.png` and a JSON sidecar next to it.

This project models:

- **`PyStr`** (`pystr.dfy`): the Python `str` operations the handler is made
  of. These are `split(',')`, `replace` of one character, `replace('.png',
  '.json')` (all non-overlapping occurrences, scanned left to right) and `[:60]`.
  It also proves facts about them: where the split falls, and that
  `replace` changes a string exactly at the occurrences it replaces.
- **`Wire`** (`wire.dfy`): the JSON body of `POST /upload`. Absent and `null`
  fields are both `None`, as `dict.get` reads them. Python truthiness of a
  coordinate is also defined here.
- **`Upload`** (`upload.dfy`): `upload_image`. The base64 decoder and the
  geocoder are function parameters, and the server clock is the `now` string.
  The steps of the handler are pure functions: payload extraction,
  effective place name, sanitising, image and sidecar paths, metadata record,
  response text. `UploadImage` is the handler itself, written step by step. The
  lookup and the two writes are not performed; the method returns them in
  order as a list of effects, beside the response or the exception.
- **`CaptureUi`** (`capture_ui.dfy`): the Capture, Re-Capture and Remove click
  handlers of the embedded page script. They are modelled as a class whose
  fields are the `style.display` flags of the video, the canvas and the four
  buttons, plus the canvas picture.

Some behaviour of the code is easy to get wrong:

- Sanitising replaces each `,` and each space separately. So
  "Bengaluru, Karnataka, India" becomes `Bengaluru__Karnataka__India`, with two
  underscores for each ", ", not `Bengaluru_Karnataka_India`
  (`Upload.ScenarioClientName`). Only `,` and space are replaced. Other
  non-alphanumeric characters pass through.
- The sidecar path is not always `<base>.json`. The code replaces every `.png`
  in the image path, so a `.png` within the first 60 characters of the place
  name changes the path in the middle as well. A `.png` after them is cut off
  by `[:60]` (`Upload.SanitizeIgnoresTail`). `Upload.SidecarShared` shows two uploads with different
  image files, place names `x.png` and `x.json`, that write one and the same
  sidecar file.
- The server-side lookup runs when the client sent no name, an empty name,
  or the literal "Unknown Location", and then only when both coordinates are
  truthy. A coordinate of exactly `0` counts as missing.
- Remove does not hide the canvas. After Capture then Remove, the page is back
  in Live mode, and the cleared canvas stays displayed beside the video.
- The response text contains a backslash followed by `n`, not a line break.
  The f-string's `\\n` is an escaped backslash.

## Model

| member | source | states |
|---|---|---|
| `PyStr.FirstIndex` | app.py:135 | the index of the first occurrence of a character, or the length when it does not occur: no earlier occurrence, and the character at the index when it is in range |
| `PyStr.Split` | app.py:135 | `str.split` on one character gives at least one piece, and no piece contains the separator |
| `PyStr.SplitJoin` | app.py:135 | joining the pieces of a split with the separator gives back the input |
| `PyStr.SplitAtFirst` | app.py:135 | the first piece of a split is the text before the first separator; the remaining pieces are the split of the text after it, and there is only one piece when the separator does not occur |
| `Upload.ExtractPayload` | app.py:135 | `image.split(',')[1]` fails exactly when the data URL has no comma; otherwise it is the text after the first comma, up to the second comma or the end, and it contains no comma |
| `Upload.DecodeImage` | app.py:134-136 | a missing image, a data URL without a comma and a payload the decoder rejects are the three errors, each in its own case; otherwise the bytes are the decoder's output for the payload |
| `Wire.Truthy` | app.py:144 | Python truthiness of `lat` and `lon`: `None` and `0` are false; its consequence for the handler is stated by `Upload.NeedsLookup` and `Upload.ZeroCoordinateSkipsLookup` |
| `Upload.ClientName` | app.py:141 | `data.get('location_name') or "Unknown Location"` is never empty: it is the client's name when that is a non-empty string, and otherwise the default |
| `Upload.NeedsLookup` | app.py:144 | the lookup is due exactly when the client sent no name, an empty one or the literal "Unknown Location", and both coordinates are non-zero numbers |
| `Upload.EffectiveLocation` | app.py:139-154 | a non-empty client name other than "Unknown Location" is kept verbatim; no usable name with a falsy coordinate gives "Unknown Location"; a lookup is consulted only when the name is the default and both coordinates are truthy; a raising lookup gives "Error fetching location", a result without `display_name` gives "Unknown Location", otherwise the name is `display_name` |
| `Upload.GeocoderIgnoredUnlessNeeded` | app.py:141-144 | when no lookup is due, the place name is the same whatever the geocoder would answer |
| `Upload.ZeroCoordinateSkipsLookup` | app.py:144 | with no client name, a latitude or longitude of exactly `0` skips the lookup and gives "Unknown Location", whatever the geocoder would answer |
| `PyStr.ReplaceChar` | app.py:156 | one-character `replace` keeps the length, leaves no occurrence of the replaced character and keeps every other character; `PyStr.ReplaceCharIsReplaceAll` ties it to the general `replace` |
| `PyStr.ReplaceCharIsReplaceAll` | app.py:156 | replacing one character equals the general `replace` with one-character strings |
| `PyStr.Take` | app.py:156 | `[:n]` is the prefix of length `min(|s|, n)` |
| `Upload.Sanitize` | app.py:156 | the safe name has length `min(|name|, 60)`, each of its characters is the name's character at that position with `,` and space mapped to `_`, and it contains no `,` and no space |
| `Upload.SanitizeKeepsSafeNames` | app.py:156 | a name without `,` or space and at most 60 characters long is used unchanged |
| `Upload.SanitizeIgnoresTail` | app.py:156 | only the first 60 characters of a place name matter to the file name: a longer name is sanitised as its first 60 characters |
| `Upload.SanitizeMerges` | app.py:156-158 | sanitising is not one-to-one: the distinct names `A,B` and `A B` get the same image path |
| `Upload.FileName` | app.py:157 | the file name starts with `photo_` and ends with `.png`, and is at most 71 characters longer than the timestamp, since the place part is cut to 60; a name of at most 60 characters contributes exactly its own length |
| `Upload.ImagePath` | app.py:158 | the path of the image file under `captured_photos`; what it is made of is stated by `Upload.ImagePathIsBasePng` |
| `Upload.ImagePathIsBasePng` | app.py:157-158 | the image path is `captured_photos/photo_<ts>_<safe>` followed by `.png` |
| `PyStr.ReplaceAll` | app.py:169 | `str.replace` with a non-empty pattern, scanning left to right; its meaning is stated by `PyStr.ReplaceAllByPieces`, `ReplaceAllAbsent`, `ReplaceAllTrailing` and `ReplaceAllInertSuffix` |
| `PyStr.ReplaceAllByPieces` | app.py:169 | `s.replace(pat, rep)` and `s` are the same pieces joined by `rep` and by `pat` respectively, and no piece contains `pat` |
| `PyStr.ReplaceAllAbsent` | app.py:169 | a string without `pat` is unchanged by `replace` |
| `PyStr.ReplaceAllTrailing` | app.py:169 | for a pattern whose first character does not recur in it, a trailing occurrence is always replaced, whatever precedes it |
| `PyStr.ReplaceAllInertSuffix` | app.py:169 | appending text that contains no `pat` and starts with a character not in `pat` appends it unchanged to the result |
| `Upload.MetaPath` | app.py:169 | `filepath.replace('.png', '.json')`; its properties are stated by the four `Upload.Sidecar…` lemmas below |
| `Upload.SidecarReplacesEveryPng` | app.py:157-169 | the image path and the sidecar path are the same pieces, joined by `.png` in one and by `.json` in the other, and no piece contains `.png`: they differ exactly at every `.png` |
| `Upload.SidecarEndsInJson` | app.py:157-169 | the sidecar path is the rewritten base path followed by `.json`, so it never equals the image path |
| `Upload.SidecarIsBaseJson` | app.py:157-169 | when the base path contains no `.png`, the sidecar path is `<base>.json` |
| `Upload.SidecarShared` | app.py:156-169 | for every timestamp, the place names `x.png` and `x.json` give different image paths but the same sidecar path |
| `Upload.Confirmation` | app.py:172 | the response text has the file name right after `✅ Photo saved as ` and ends with the place name, so both can be read back from it |
| `Upload.UploadImage` | app.py:133-172 | a request fails exactly when the image cannot be decoded, with that error and no lookup or write; a successful one performs a lookup exactly when it is due, then writes the decoded bytes to the image path, then writes `{timestamp, latitude, longitude, location_name}` with the unsanitised effective name to the sidecar path, and answers with the file name and the effective name |
| `Upload.ScenarioClientName` | app.py:141-156 | the client name "Bengaluru, Karnataka, India" is stored verbatim whatever the coordinates, and its file name part is `Bengaluru__Karnataka__India` |
| `Upload.ScenarioNothingKnown` | app.py:139-156 | with no name and null coordinates the stored name is "Unknown Location" and the file name part `Unknown_Location` |
| `Upload.ScenarioNoComma` | app.py:134-136 | an image field without a comma, such as `AAAA`, fails with the no-comma error whatever the decoder, so the handler answers with an exception and writes nothing |
| `CaptureUi.CapturePage.Valid` | app.py:78-104 | exactly one of {Capture} and {Re-Capture, Save, Remove} is shown; the constructor and the three handlers each establish it, from any state |
| `CaptureUi.CapturePage.constructor` | app.py:19-34 | the loaded page is Live: the video and Capture are shown; the canvas, Re-Capture, Save and Remove are hidden; the canvas is empty |
| `CaptureUi.CapturePage.Capture` | app.py:78-86 | after Capture the page is Captured: the canvas, Re-Capture, Save and Remove are shown; the video and Capture are hidden; the canvas holds the live frame, if there was one |
| `CaptureUi.CapturePage.Recapture` | app.py:88-95 | after Re-Capture the page is Live: the video and Capture are shown; the canvas and the other three buttons are hidden; the canvas picture is unchanged |
| `CaptureUi.CapturePage.Remove` | app.py:97-104 | after Remove the page is Live: the video and Capture are shown; the other three buttons are hidden; the canvas is cleared and keeps its display state |

`CaptureUi.CapturePage.Valid` also says that the video is shown together
with Capture, and that the canvas is shown whenever the Captured controls are.
`CaptureUi.CaptureThenLeave` is an example client with no contract of its own.
It shows that Capture then Remove leaves an empty canvas on screen, and that
Capture then Re-Capture keeps the frame on the hidden canvas.

## Left out

- Flask routing, `request.get_json` and the HTTP status (app.py:1-4, 128-133) are framework plumbing. A body that is not a JSON object is not modelled. The response text is modelled as `Upload.Confirmation`.
- The file writes and `os.makedirs` (app.py:6-7, 160-161, 169-170) are I/O. They appear only as `WriteImage`/`WriteMeta` effects carrying the path and the content. A failing write is not modelled, and neither is the orphaned image that a failed sidecar write leaves. So `Upload.UploadImage` reports success in two cases where `open` at app.py:160 always fails. The first is a place name with a `/` within its first 60 characters, because the directory `captured_photos/photo_<ts>_<text before the slash>` does not exist. The second is a file name longer than 255 bytes (`ENAMETOOLONG`). The fixed parts of the name take 26 bytes, so 58 or more four-byte characters in the sanitised part are enough. The path is a string of characters here, and its UTF-8 length is not modelled. `os.path.join` is modelled as joining with `/`.
- The JSON serialisation of the sidecar (`json.dump(..., indent=2)`) is a library codec, so the record `Upload.Meta` stands for it.
- The reverse-geocoding request (app.py:146-151) is network I/O: its URL, query parameters and `User-Agent` header are not modelled. The geocoder is a parameter that either raises or returns an object with or without `display_name`. `requests.get` is called without a timeout, so the real lookup can hang; the total `geocode` parameter cannot.
- An `image`, `display_name`, `location_name`, `latitude` or `longitude` of an unexpected JSON type is not modelled. Examples are a numeric or list `image`, on which `split` would raise at app.py:135, and a `null` or numeric `display_name`, on which `replace` would raise at app.py:156. The image and the names are strings, and coordinates are numbers or null.
- `base64.b64decode` (app.py:136) and `canvas.toDataURL` (app.py:107) are library codecs. The decoder is an opaque parameter.
- `datetime.now()` (app.py:138) is a clock. The timestamp is the `now` parameter, and its format is not checked.
- Coordinates are floats in the source and reals here. Only their truthiness matters to the handler.
- The camera and geolocation requests, the client-side reverse geocoding that forms "city, state, country", the info banner, the alerts and the HTML/CSS (app.py:9-76) are browser APIs and asynchronous callbacks. The page's `latitude`, `longitude` and `locationName` globals (app.py:48) belong to them.
- The Save click handler (app.py:106-122) only serialises the canvas and calls `fetch`, which is network I/O. It changes no display state.
- Filename collisions between concurrent requests and last-writer-wins overwrites (no locking) are concurrency, outside a single-request model. `Upload.SidecarShared` and `Upload.SanitizeMerges` show which distinct requests reach the same paths.
