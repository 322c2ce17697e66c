# Face attendance server: gallery loading, face classification and debounce

A Dafny model of the logic of `face_server.py`. The server loads a gallery of
known faces from an image directory at start-up. It answers `POST /recognize`
with the names of the faces in a submitted image. For each recognised face it
posts an attendance event `{device_id, face_uid}` to an attendance endpoint.
A per-identity debounce window of 3 seconds suppresses repeated posts.

Files:

- `wrappers.dfy`: module `Wrappers`, the `Option` datatype.
- `gallery.dfy`: module `GalleryLoader`. This is the start-up loop over the
  directory listing, which builds `images` and `classNames`. It also holds
  `findEncodings`, which builds `encodeListKnown`, and
  `os.path.splitext(name)[0]`.
- `debounce.dfy`: module `Debounce`. It holds `post_attendance_face` as a pure
  state transition (`PostAttendance`, and `PostAll` for a series of calls). It
  also holds the class `DebounceTracker`, whose map field
  `lastPostTimeByFace` the method updates in place. A ghost history `posted`
  stands for the outbound POSTs.
- `recognition.dfy`: module `Recognition`. It holds the per-face decision: the
  first index of minimum distance (`np.argmin`), then the match flag, then an
  identity or `"Unknown"`. It also holds the handler loop over
  `zip(encodings, faces)` and the properties of a whole request.

The vision library is represented by parameters:

- The result of `cv2.imread` is part of each directory entry (`None` when the
  file does not decode).
- `face_encodings(img)` on a gallery image is `encodeAll`.
- `face_locations` is `locate`.
- `face_encodings(img, faces)` is `encodeAt`.
- `compare_faces` and `face_distance` work element-wise over the known
  encodings, so they are the per-pair functions `isMatch` and `distance`.
  Distances are `real` and are only compared.

The clock is a parameter as well. `time()` inside `post_attendance_face` is
the argument `now`. Within a request, `clock(i)` is the reading taken when face
`i` is posted. Nothing assumes that the clock is monotonic.

The two gallery lists are modelled as the code builds them. `classNames` gets
a name for every image that decodes. `encodeListKnown` gets an encoding only
for images in which a face is found. When some decoded image has no face, the
lists drift out of index alignment, and a face can then be reported under
another file's name (`Recognition.MisattributedWhenAnImageHasNoFace`). Because
`|encodeListKnown| <= |classNames|` always holds, the lookup
`classNames[matchIndex]` is always in range.

Three behaviours of the code worth knowing:

- An image that decodes but shows no face still adds a name to `classNames`,
  which causes the drift described above.
- An identity never seen counts as last posted at time 0, so a call with
  `now < 3` is suppressed.
- The check-and-record step has no lock; the model covers single-threaded
  calls only.

## Model

| member | source | states |
|---|---|---|
| `Debounce.PostAttendance` | face_server.py:57-62 | A call whose clock reading is less than 3 s after the identity's last post time (0 if unseen) changes nothing and posts nothing. Otherwise it posts exactly one event `{ESP32_001, faceUid}` and records `now` for that identity. No other identity's entry changes. |
| `Debounce.PostAll` | face_server.py:57-62 | Over any series of calls, posts are only appended, at most one per call, and the earlier history is kept. |
| `Debounce.DebounceTracker.constructor` | face_server.py:26 | The process starts with an empty map and no posts, which satisfies `Valid()`. |
| `Debounce.DebounceTracker.PostAttendanceFace` | face_server.py:57-72 | Reads and updates the dictionary in place. The new map and the post history are exactly what `PostAttendance` gives for the old state. It keeps the tracker's invariant `Valid()`: the map covers every post, and posts of one identity are at least 3 s apart. |
| `Debounce.PostAttendanceKeepsSpacing` | face_server.py:58-62 | One call preserves two facts. Every posted identity has an entry no earlier than each of its posts. Any two posts of one identity are at least 3 s apart. |
| `Debounce.PostAllKeepsSpacing` | face_server.py:58-62 | For any series of calls and any clock readings, no identity is ever posted twice less than the debounce window apart. |
| `Debounce.FromStartWellSpaced` | face_server.py:26 | Every history produced from process start is spaced by the window, and every event carries the device id. |
| `Debounce.DeviceIdAlwaysSent` | face_server.py:64-67 | Every posted event carries the configured device identifier. |
| `Debounce.AtMostOnePostWithinWindow` | face_server.py:58-62 | Two calls for one identity whose readings are less than 3 s apart post at most once. |
| `Debounce.BothPostWhenApart` | face_server.py:58-62 | After an allowed call, a call for the same identity at least 3 s later also posts, so both events are sent in order. |
| `GalleryLoader.RFind` | face_server.py:41 | Gives the last index of the character, or -1 when it does not occur. No occurrence lies after the result. |
| `GalleryLoader.StemOf` | face_server.py:41 | The root is a prefix of the file name. When a part is cut, it is the last dot and everything after it, and the root keeps a non-dot character. When nothing is cut, only dots precede any dot. |
| `GalleryLoader.StemOfJoin` | face_server.py:41 | For `root.ext`, where `ext` has no dot and `root` is not all dots, the identity is exactly `root`. |
| `GalleryLoader.StemOfNoDot` | face_server.py:41 | A file name without a dot is its own identity. |
| `GalleryLoader.Decodable` | face_server.py:35-39 | Undecodable files are dropped and every decodable file is kept. The listing is kept whole exactly when every file decodes. |
| `GalleryLoader.LoadedImages` | face_server.py:35-40 | Holds one image per decodable file, in listing order, namely the image that file decoded to. |
| `GalleryLoader.LoadedNames` | face_server.py:35-41 | Holds one name per decodable file, in listing order, namely that file's name without its last extension. |
| `GalleryLoader.LoadImages` | face_server.py:35-41 | The directory loop builds exactly `LoadedImages` and `LoadedNames`. |
| `GalleryLoader.FirstEncodings` | face_server.py:45-52 | Holds at most one encoding per image. |
| `GalleryLoader.FindEncodings` | face_server.py:45-52 | The loop returns the first encoding of each image that has one, in order, and skips images without a face. |
| `GalleryLoader.FirstEncodingsAppend` | face_server.py:45-52 | The encodings of two runs of images are the encodings of each run, joined in order. |
| `GalleryLoader.OneImageContribution` | face_server.py:50-51 | An image without a face contributes nothing, so every later encoding sits one place lower than its image. An image with a face contributes exactly its first encoding, in its place. |
| `GalleryLoader.OneEncodingPerImageIff` | face_server.py:45-52 | There are exactly as many encodings as images if and only if every image yields at least one face. |
| `GalleryLoader.AlignedWhenEveryImageHasAFace` | face_server.py:45-52 | When every image has a face, encoding `i` is the first face of image `i`. |
| `GalleryLoader.LoadGallery` | face_server.py:35-54 | Start-up gives `|encodeListKnown| <= |classNames|`. The two lists have equal length exactly when every decoded image shows a face. |
| `GalleryLoader.FullyAlignedGallery` | face_server.py:35-54 | When all files decode and each shows a face, gallery position `i` pairs file `i`'s root name with its face. |
| `Recognition.ArgMin` | face_server.py:95 | `matchIndex` is a position of minimum distance, and no earlier position has that minimum, so ties go to the first. |
| `Recognition.Classify` | face_server.py:92-102 | An empty gallery gives no identity. A recognised face is the first closest entry, and that entry matches. A face that is not recognised has a first closest entry that does not match. |
| `Recognition.PerKnown` | face_server.py:90-91 | `compare_faces` and `face_distance` give exactly one value per known encoding. |
| `Recognition.PerKnownAt` | face_server.py:90-91 | Value `i` of either list is the per-pair result for known encoding `i`. |
| `Recognition.Decide` | face_server.py:90-97 | The recognised index is always a valid index into the known encodings. |
| `Recognition.RecognizedNames` | face_server.py:88-102 | Holds one result per (encoding, location) pair, in detection order, each a gallery identity or `"Unknown"`. |
| `Recognition.Notifications` | face_server.py:96-100 | At most one notification per face, always for a gallery identity. |
| `Recognition.Zipped` | face_server.py:89 | `zip` keeps the encodings that have a location, in order, stopping at the shorter input. |
| `Recognition.RecognizeFace` | face_server.py:90-102 | Reports the gallery identity or `"Unknown"` that the decision gives. It posts that identity through the tracker only when the face is recognised. |
| `Recognition.RecognizeFaces` | face_server.py:88-103 | The loop returns `RecognizedNames` for the zipped faces. The tracker ends in the state the face notifications produce, in order. |
| `Recognition.Recognize` | face_server.py:76-105 | A body that does not decode gives the 400 answer and changes no state. Otherwise the answer lists one name per face, and only recognised faces are posted. |
| `Recognition.EmptyGalleryAllUnknown` | face_server.py:92-94 | With an empty gallery, every face is `"Unknown"` and no notification is made. |
| `Recognition.NameIsDecision` | face_server.py:95-102 | Face `i` is reported as `classNames[matchIndex]` exactly when it is recognised, and as `"Unknown"` otherwise. |
| `Recognition.NoNotificationIffNoneRecognised` | face_server.py:96-102 | A request makes no notification if and only if none of its faces is recognised. |
| `Recognition.RepeatedRequestPostsAtMostOnce` | face_server.py:57-62 | The same one-face image submitted twice within the debounce window posts at most one event. |
| `Recognition.ExampleGalleryDrifts` | face_server.py:35-54 | Take `ani.jpg`, which decodes but has no face, and `budi.jpg`, which has face 7. Start-up builds two names but one encoding. |
| `Recognition.MisattributedWhenAnImageHasNoFace` | face_server.py:97 | In that gallery, budi's face is reported and notified as `"ani"`. |

## Left out

- Flask routing, reading the request body, the JSON responses and the top-level `except` that turns an exception into a 500 answer. The model cannot raise: every index is in range because `|encodeListKnown| <= |classNames|`. The 400 answer is modelled.
- The HTTP POST to the attendance endpoint, its 5 s timeout, and the logging of its result or failure. These are network I/O. A post is the event appended to the ghost history `posted`, and since failures are swallowed they change nothing else.
- `print` output at start-up and per request.
- The image codec, colour conversion, face detection, face encoding, the distance metric and the match tolerance. These are foreign library code, represented by parameters. The library derives `compare_faces` from the distance and a tolerance. The model does not assume this, so its results hold for any flag function.
- Creating the image directory and listing it. This is filesystem I/O, and the listing is an input.
- Local IP discovery through a socket, and `waitress.serve`. These are networking and server start-up.
- Concurrent requests sharing the debounce map. The code has no lock, and the model covers single-threaded calls only.
