# Calendar progress screen — a Dafny model

This project models the logic of `CalendarProgressView`, the one screen of the
app. On that screen a user picks a day in a calendar. The app looks for the
video recorded that day (`yyyy-MM-dd.mov` in the documents directory). The
"View Video" and "Describe Video" buttons are enabled only when that file
exists. "Describe Video" uploads the file as `multipart/form-data` to a
description server, and a string `description` in the JSON reply is shown in
the details card. A second upload path, for a WAV file to an emotion
prediction server, builds its body the same way. Its reply is only logged.

The model is functional. Every datatype is immutable and every operation is a
pure function, one module per concern:

| module | what it holds |
|---|---|
| `Wrappers` | `Option`, usable with `:-` |
| `Utf8` | `Encode` (what `.data(using: .utf8)` produces) and its strict inverse `Decode` |
| `Decimal` | zero-padded decimal fields, as `yyyy`, `MM` and `dd` write them |
| `DateName` | Gregorian days, the video file name of a day, and the parser that reads a name back |
| `Resolver` | looking the day's video up in a directory listing |
| `Multipart` | the request body, byte for byte, and a reader for it (the receiving side) |
| `Upload` | the two requests (endpoint, method, `Content-Type` header, body, timeout) |
| `Response` | abstract JSON replies and how each completion handler classifies them |
| `SeqRegroup` | regrouping facts about sequence concatenation that guide the proofs |
| `Screen` | the screen's state record, its events, its invariant, and the text of the details card |

Every operation except `DescriptionCard`, which only chooses the card's text, has a partner definition, and lemmas connect the two:
- File names are proved to be a bijection with well-formed names. The partner is `ParseFileName`.
- Upload bodies are read back by `ParseBody`. Like a reader that follows section 5.1.1 of RFC 2046, it ends the file bytes at the FIRST delimiter (CRLF, `--`, boundary). It returns exactly the part that was written if and only if the file bytes hold no such delimiter (`DelimiterFree`). The app never checks this and relies on the random UUID in the boundary.
- UTF-8 encoding round-trips through `Decode`.
- A run of screen events is compared with `LatestDescription`, a reference definition.
- Reachable screen states keep the invariant `Coherent`.

Inputs the code reads from the environment are parameters here:
- the documents directory and its listing at the moment of a lookup;
- what reading a file returned (`None` when the read failed);
- the UUID in the boundary;
- the reply a completion handler receives. Its JSON is already parsed: `Malformed`, or a top-level object or array. A top-level string, number, boolean or null counts as `Malformed`, because the code parses without allowing fragments.

## Model

| member | source | states |
|---|---|---|
| `DateName.FileName` | HTJ12/calendar.swift:109-111 | the name ends in `.mov`, is at least 14 characters, is exactly 14 characters iff the year has at most four digits, and uses only digits, `-`, `.`, `m`, `o`, `v` |
| `DateName.FileNameRoundTrip` | HTJ12/calendar.swift:109-111 | the name of a day reads back as that day |
| `DateName.ParsedNameIsFileName` | HTJ12/calendar.swift:109-111 | a name that reads as a day is exactly that day's name, so every day has one spelling |
| `DateName.FileNameBijection` | HTJ12/calendar.swift:109-111 | a name reads as day `d` if and only if it is `d`'s file name |
| `DateName.FileNameInjective` | HTJ12/calendar.swift:109-111 | two different days never share a video file |
| `Resolver.VideoFor` | HTJ12/calendar.swift:112-123 | the lookup yields a URL exactly when the day's name is in the directory; that URL is in the documents directory and its name reads back as the looked-up day |
| `Utf8.DecodeEncode` | HTJ12/calendar.swift:233-235 | the UTF-8 bytes of any header text decode back to that text |
| `Utf8.EncodeConcat` | HTJ12/calendar.swift:233-238 | encoding pieces one by one and appending the bytes, as the code does, gives the encoding of the whole text |
| `Multipart.PartLayout` | HTJ12/calendar.swift:233-237 | a part is its header's bytes, then the file's bytes verbatim, then CRLF |
| `Multipart.ParseEncodeBody` | HTJ12/calendar.swift:172-183 | a body read back with its boundary yields no part when only the closing delimiter was written, and otherwise exactly the one part written, its bytes intact, provided the names hold no `"`, the type holds no CR and the bytes hold no delimiter |
| `Multipart.EmbeddedDelimiterBreaksRoundTrip` | HTJ12/calendar.swift:233-238 | the converse: when the file bytes hold a delimiter for the boundary, the part read back is not the part written |
| `Multipart.CloseInsideContent` | HTJ12/calendar.swift:236-238 | file bytes that are themselves the closing lines `CRLF--B--CRLF` are not delimiter-free, so such a file is not read back as written |
| `Upload.Boundary` | HTJ12/calendar.swift:169 | every boundary starts with `Boundary-`, followed by the UUID |
| `Upload.AnnouncedBoundary` | HTJ12/calendar.swift:227-228 | the `Content-Type` header announces exactly the boundary the body uses |
| `Upload.PredictRequest` | HTJ12/calendar.swift:163-186 | a POST to the prediction endpoint with a 300 s timeout and the announced boundary; when the file cannot be read the request is still built, with only `--B--CRLF` as its body |
| `Upload.PredictRequestRoundTrip` | HTJ12/calendar.swift:172-184 | `ParseRequest` reads back field `file`, type `audio/wav`, the file's name and bytes, or no part when the file was unreadable, provided the bytes hold no delimiter |
| `Upload.DescribeRequest` | HTJ12/calendar.swift:216-241 | a request exists if and only if the video could be read; it is a POST to the description endpoint with a 300 s timeout and the announced boundary |
| `Upload.DescribeRequestRoundTrip` | HTJ12/calendar.swift:227-240 | `ParseRequest` reads back field `video`, type `video/mp4`, the file's name and the video's bytes unchanged, provided the bytes hold no delimiter |
| `Upload.DescribeRequestNeedsDelimiterFree` | HTJ12/calendar.swift:227-238 | the converse: a video whose bytes hold the request's own delimiter is not read back as sent |
| `Response.Receive` | HTJ12/calendar.swift:243-251 | a document is delivered exactly when there is no transport error, there is data, and the parser accepted it; a transport error wins over everything else |
| `Response.ClassifyDescribe` | HTJ12/calendar.swift:252-267 | a string `description` is taken if and only if present, even beside an `error`; a string `error` is a refusal only without one; undelivered replies are failures |
| `Response.ClassifyPredict` | HTJ12/calendar.swift:188-209 | an `emotion` member of any value wins even beside `error`; `error` counts only without `emotion`; an object with neither is unexpected; a non-object document is dropped |
| `Screen.DescriptionCard` | HTJ12/calendar.swift:82-90 | the card shows iff `isExpanded`, which the first change of the selected day sets; its text is never empty: the description when there is one, otherwise `Awaiting video description...` |
| `Screen.SelectDate` | HTJ12/calendar.swift:39-44 | picking the same day changes nothing; picking another day selects it, shows the card, enables the buttons exactly when its file exists, and keeps the description |
| `Screen.Describe` | HTJ12/calendar.swift:65-68 | a tap sends a request exactly when a video was found and could be read, and sends it to the description endpoint |
| `Screen.ReceiveDescription` | HTJ12/calendar.swift:252-257 | a reply with a string `description` replaces the description with exactly that string; any other reply leaves the whole state unchanged |
| `Screen.Step` | HTJ12/calendar.swift:39-68 | only a tap sends anything; a tap changes no state; every event except a date change leaves everything but the description unchanged |
| `Screen.StepKeepsCoherent` | HTJ12/calendar.swift:108-123 | every event keeps the invariant: a found video is the selected day's file, and nothing is found before a day is picked |
| `Screen.RunKeepsCoherent` | HTJ12/calendar.swift:108-123 | the invariant holds after any sequence of events |
| `Screen.ReachableIsCoherent` | HTJ12/calendar.swift:108-123 | in any state reachable from launch, an enabled video lies in the documents directory and its name reads back as the selected day |
| `Screen.RunKeepsExpanded` | HTJ12/calendar.swift:39-42 | once shown, the card is never hidden again |
| `Screen.DescribeSendsSelectedVideo` | HTJ12/calendar.swift:216-238 | in a coherent state with a video, a tap with readable data sends a request that `ParseRequest` reads as field `video` named after the selected day, carrying that data, provided the data hold no delimiter |
| `Screen.RunAppend` | HTJ12/calendar.swift:39-68 | running one more event is one more step of the screen |
| `Screen.RunShowsLatestDescription` | HTJ12/calendar.swift:255-257 | after any events the description is the one from the latest reply carrying a string `description`, or the initial one if there was none |
| `Screen.LaunchLeavesTodayUnresolved` | HTJ12/calendar.swift:10-14 | at launch, picking today again runs no lookup, so both buttons stay disabled even if today's video exists |

Members without a row of their own are covered by the rows above:
- `Multipart.EncodeBody` (lines 172-183 and 230-238) by `PartLayout`, `ParseEncodeBody` and `EmbeddedDelimiterBreaksRoundTrip`.
- `Screen.Initial` (lines 10-14) by `LaunchLeavesTodayUnresolved` and `ReachableIsCoherent`.
- `Screen.ViewVideoEnabled` and `Screen.DescribeEnabled` (lines 63 and 77) by `SelectDate` and `LaunchLeavesTodayUnresolved`.
- `Upload.ContentType` (lines 170 and 228) by `AnnouncedBoundary`, `PredictRequest` and `DescribeRequest`.
- `Multipart.EncodePart` (lines 177-181 and 233-237) by `PartLayout` and, through `EncodeBody`, by `ParseEncodeBody`.
- `DateName.FormatDate` (line 110) by `FileName`, `FileNameRoundTrip` and `FileNameBijection`.
- `Screen.Run` by `RunAppend`, `RunKeepsCoherent`, `RunKeepsExpanded` and `RunShowsLatestDescription`.

Notes on reading the code:
- `onChange(of: selectedDate)` runs only when the value changes. So picking the day that is already selected does nothing. At launch the selected day is today, and no lookup has run yet. This is why `LaunchLeavesTodayUnresolved` holds.
- The description is never cleared. After a different day is picked, the previous day's description stays on screen.
- The handlers never look at the HTTP status. A non-2xx reply that carries a string `description` updates the screen like any other reply.
- The prediction handler ignores a top-level array and logs nothing for it. The description handler logs an array as unexpected. Other non-object documents never reach either handler, because the parser rejects them.
- The file name goes between quotes without escaping. The round-trip lemmas therefore require a name without `"`. The names the screen uploads are day names, and these never contain one (`DescribeSendsSelectedVideo` needs no such requirement on the name). The file bytes must also hold no delimiter, as stated above.

## Left out

- SwiftUI layout, styling, `VideoPlayerView`, `ExpandedDateView`, the preview, and the "Selected Date" heading of the card: presentation only.
- `shouldNavigateToVideo` and the navigation to the player: navigation only. Its button is modelled only through its enabled condition.
- `convertMovToWav` and `processVideoAudio`: asynchronous media export through the platform's media framework, and no control on the screen calls them. `sendWavToServer` is modelled on its own, and so is the handler of its reply.
- Networking (URLSession, sending, the timeout's effect), UUID generation and file reads are I/O and randomness. They appear as parameters and as the `Reply` value.
- `JSONSerialization` is abstracted as the `Payload`/`Json` datatypes. Number values are kept as their literal text, with no floating point.
- The date formatter's locale, time zone and calendar settings: a day is a Gregorian (year, month, day) triple with year 1 or later. Years before the Common Era are not modelled.
- Overlapping uploads and the ordering of asynchronous replies: each reply is an event, and it is applied whenever it arrives.
- Logging (`print`): a side effect with no contract.
- `videoanalyze.py` and `app.py`: a training script and a server endpoint, not part of the screen. `ParseBody` plays the server's part only so far as reading the multipart body.
- ParseBody: reads only a body with exactly one part or none, and nothing after the closing delimiter. A preamble, an epilogue or a second part is rejected, though section 5.1.1 of RFC 2046 allows them. The app never writes them.
