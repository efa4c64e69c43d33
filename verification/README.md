# iFlytek speech-dictation client, modelled in Dafny

This project models the `IFlytek` client of the Andleoht ASR tool
(`api/core/tools/provider/builtin/andleoht/tools/asr.py`). The client turns an audio file into
text through iFlytek's streaming dictation service (`wss://ws-api.xfyun.cn/v2/iat`), and the
model covers its three parts:

* **`create_url`** (module `Signer`). It builds the signed handshake URL. The signed text is
  three lines: `host: ws-api.xfyun.cn`, `date: <date>` and `GET /v2/iat HTTP/1.1`. It is signed
  with HMAC-SHA256 under the API secret, and the digest is Base64-encoded. It goes into the
  `authorization` line together with the API key, `hmac-sha256` and `host date request-line`.
  That line is Base64-encoded too. The result is the query `authorization`, `date`, `host`,
  form-encoded in that order after a single `?`.
* **the feeder that `on_open` starts** (module `Feeder`). It reads the audio in chunks of 8000
  bytes. The first chunk goes out as a frame of status 0, together with the app id and the
  business arguments (`iat`, `zh_cn`, `mandarin`, `vinfo` 1, `vad_eos` 10000). Every further
  chunk goes out as a frame of status 1. The first empty read produces a frame of status 2 with
  no audio, and the feeder stops. `Feed` is the loop itself, and it is proved equal to the
  reference definition `Session`. Consequences of this:
  * When the audio length is a multiple of 8000, the empty last frame follows the full chunks.
    For example, 24000 bytes give four frames (0, 1, 1, 2).
  * Empty audio gives a single last frame.
* **`on_message`** (module `Receiver`, class `IFlytek`). It parses each server reply. When the
  reply has a `code` and a `sid` (of any value) and the code is 0, it joins the `w` of every
  candidate of every `cw` group in `data.result.ws` and appends the result to `text`. A reply
  that is not a JSON object, a missing key, a value of a shape the loop cannot walk, or a
  non-zero code adds nothing. `Gather` is the nested result loop, proved
  against the reference definitions `AllPresent` and `Flat`.

Several Python library functions are modelled concretely, in module `Encoding`, so that the
URL and frame properties are proved with nothing taken on trust:

* UTF-8 encoding (`str.encode('utf-8')`).
* Base64 (`base64.b64encode`), together with a decoder and the round trip.
* `quote_plus` and `urlencode`, with no safe characters beyond letters, digits and `_.-~`.
* `str.split` on one separator.

HMAC-SHA256 is not modelled. It is a parameter of type `Signer.Hmac`, and every property of the
URL holds for any keyed function.

## Model

| member | source | states |
|---|---|---|
| Feeder.Status.Code | api/core/tools/provider/builtin/andleoht/tools/asr.py:35-37 | the status field of a frame is one of 0, 1, 2 (first, continue, last) |
| Feeder.Read | api/core/tools/provider/builtin/andleoht/tools/asr.py:122 | a read returns min(8000, remaining) bytes, and they are the next bytes of the stream |
| Feeder.Feed | api/core/tools/provider/builtin/andleoht/tools/asr.py:117-149 | the frames the feeder loop sends are exactly `Session` of the audio, and the loop terminates |
| Feeder.RestShape | api/core/tools/provider/builtin/andleoht/tools/asr.py:121-147 | after the first chunk: ceil(L/8000)+1 frames, all but the last are continue frames without config, carrying 1..8000 bytes (exactly 8000 except the final one), then the empty last frame; the payloads rejoin to the input |
| Feeder.SessionPayload | api/core/tools/provider/builtin/andleoht/tools/asr.py:121-147 | concatenating the frames' audio in sending order gives back the whole input |
| Feeder.SessionChunkSizes | api/core/tools/provider/builtin/andleoht/tools/asr.py:118-122 | no frame carries more than 8000 bytes, and any frame followed by a non-empty frame carries exactly 8000 |
| Feeder.SessionEndsWithEmptyLast | api/core/tools/provider/builtin/andleoht/tools/asr.py:124-125 | the session ends with a frame of status `Last`, sent as code 2, with empty audio, and no earlier frame has status `Last` or code 2 |
| Feeder.SessionFirstFrame | api/core/tools/provider/builtin/andleoht/tools/asr.py:127-135 | a `First` frame is sent iff the audio is non-empty; it is then frame 0, sent with code 0, and it is the only frame carrying app id and business arguments; empty audio sends only the last frame |
| Feeder.SessionFrameCount | api/core/tools/provider/builtin/andleoht/tools/asr.py:121-147 | non-empty audio of L bytes gives ceil(L/8000)+1 frames, and every middle frame is a non-empty `Continue` frame sent with code 1 |
| Feeder.ThreeFullChunks | api/core/tools/provider/builtin/andleoht/tools/asr.py:121-147 | 24000 bytes give four frames sent with status codes 0, 1, 1, 2, the last one empty |
| Feeder.OneFullChunk | api/core/tools/provider/builtin/andleoht/tools/asr.py:121-147 | exactly 8000 bytes give the first frame with all of them, then the empty last frame |
| Feeder.FrameAudioDecodes | api/core/tools/provider/builtin/andleoht/tools/asr.py:131 | a frame's "audio" field (`AudioField`, the Base64 text of the chunk) has 4*ceil(n/3) characters for n bytes, at most 10668 for a chunk of the feeder, and decodes back to the chunk |
| Receiver.Gather | api/core/tools/provider/builtin/andleoht/tools/asr.py:101-104 | the result loop yields a text iff every group has `cw` and every candidate has `w`, and the text is all candidates' words in order |
| Receiver.WordsSpec | api/core/tools/provider/builtin/andleoht/tools/asr.py:103-104 | the inner loop succeeds iff every candidate has `w`, and it yields their concatenation |
| Receiver.FragmentsSpec | api/core/tools/provider/builtin/andleoht/tools/asr.py:101-104 | the outer loop succeeds iff no lookup fails, and it yields the group texts in order |
| Receiver.ContributionSpec | api/core/tools/provider/builtin/andleoht/tools/asr.py:91-108 | a reply adds its words iff it parses, has `code` and `sid`, the code is 0 and the result is complete; any other reply adds "" |
| Receiver.ErrorAddsNothing | api/core/tools/provider/builtin/andleoht/tools/asr.py:95-97 | a reply with a non-zero code adds nothing, whatever result it carries |
| Receiver.FlatAppend | api/core/tools/provider/builtin/andleoht/tools/asr.py:101-104 | the words of two runs of complete word groups are the first run's words followed by the second's |
| Receiver.EmptyGroupIgnored | api/core/tools/provider/builtin/andleoht/tools/asr.py:102-104 | a group whose `cw` is empty (a list, `{}` or `""`) adds no words and the words of the groups around it are still appended, whether or not `message` is present |
| Receiver.TranscriptAppend | api/core/tools/provider/builtin/andleoht/tools/asr.py:106 | the text left by two runs of replies is the first run's text followed by the second's |
| Receiver.IgnoredMessage | api/core/tools/provider/builtin/andleoht/tools/asr.py:91-108 | a reply that is not accepted, or that carries no words, can be removed from a run without changing the text |
| Receiver.ReplyAdds | api/core/tools/provider/builtin/andleoht/tools/asr.py:99-106 | a successful one-word reply adds exactly that word |
| Receiver.MixedReplies | api/core/tools/provider/builtin/andleoht/tools/asr.py:91-108 | "hello", an error reply, a non-JSON reply and " world" leave "hello world" |
| Receiver.Receive | api/core/tools/provider/builtin/andleoht/tools/asr.py:106 | delivering replies one by one appends their transcript to `text` |
| Receiver.IFlytek.constructor | api/core/tools/provider/builtin/andleoht/tools/asr.py:40-48 | a new client keeps its credentials, announces format "lame" and has empty text |
| Receiver.IFlytek.OnMessage | api/core/tools/provider/builtin/andleoht/tools/asr.py:91-108 | `text` becomes the old text followed by the reply's contribution; nothing else changes |
| Receiver.IFlytek.OnOpen | api/core/tools/provider/builtin/andleoht/tools/asr.py:116-150 | the frames sent are the session for this client's app id and format |
| Receiver.IFlytek.CreateUrl | api/core/tools/provider/builtin/andleoht/tools/asr.py:66-89 | the client's URL is `Signer.CreateUrl` for its key and secret, and it is the endpoint, one `?` and a query |
| Signer.SignatureOriginLines | api/core/tools/provider/builtin/andleoht/tools/asr.py:72-74 | the signed text is exactly the lines `host: ws-api.xfyun.cn`, `date: <date>` and `GET /v2/iat HTTP/1.1` |
| Signer.SignatureOriginInjective | api/core/tools/provider/builtin/andleoht/tools/asr.py:72-74 | different dates give different signed texts |
| Signer.SignatureDecodes | api/core/tools/provider/builtin/andleoht/tools/asr.py:76-78 | the signature contains no `"` and decodes to the HMAC of the UTF-8 signed text under the UTF-8 secret |
| Signer.AuthorizationOriginFields | api/core/tools/provider/builtin/andleoht/tools/asr.py:80-81 | the authorization line's quoted values are the API key, `hmac-sha256`, `host date request-line` and the signature, in that order |
| Signer.AuthorizationDecodes | api/core/tools/provider/builtin/andleoht/tools/asr.py:82 | the authorization value decodes to the UTF-8 authorization line |
| Signer.CreateUrlShape | api/core/tools/provider/builtin/andleoht/tools/asr.py:83-88 | the URL is the endpoint, one `?`, and the fields `authorization=<quoted>`, `date=<quoted>`, `host=ws-api.xfyun.cn` joined by `&` |
| Signer.CreateUrlDateInjective | api/core/tools/provider/builtin/andleoht/tools/asr.py:66-89 | for ASCII dates, equal URLs come from equal dates |
| Encoding.Utf8CharShape | api/core/tools/provider/builtin/andleoht/tools/asr.py:76 | each character encodes to 1 to 4 bytes, ASCII to its own code, others to a lead byte and continuation bytes |
| Encoding.Base64Shape | api/core/tools/provider/builtin/andleoht/tools/asr.py:78 | Base64 output has 4*ceil(n/3) characters, all from the Base64 alphabet or `=` |
| Encoding.Base64RoundTrip | api/core/tools/provider/builtin/andleoht/tools/asr.py:82 | decoding the Base64 text of any bytes gives those bytes back |
| Encoding.QuotePlusUrlSafe | api/core/tools/provider/builtin/andleoht/tools/asr.py:88 | a form-encoded value holds only unreserved characters, `+` and `%` escapes, so never `&`, `=` or `?` |
| Encoding.QuotePlusRoundTrip | api/core/tools/provider/builtin/andleoht/tools/asr.py:88 | for ASCII text, unquoting the form-encoded value gives the text back |
| Encoding.UrlEncodeFields | api/core/tools/provider/builtin/andleoht/tools/asr.py:88 | splitting the encoded query at `&` gives back the `key=value` fields in order, and it holds no `?` |

## Left out

- Transport: the websocket connection, `ws.send`, `run_forever`, its TLS options, `ws.close`, `on_error` and `on_close` are not modelled. Sending a frame is appending it to the list of frames sent.
- Concurrency: the feeder runs on its own thread while replies arrive. The model treats the frames sent and the replies received as two separate sequences, with no interleaving.
- Timing: the 0.04 s pause between frames and the 1 s pause after the last frame.
- The clock: `create_url` takes the current time. In the model the RFC 1123 date is a parameter, and `format_date_time` is not modelled.
- HMAC-SHA256 is a parameter. No property that depends on the hash, such as "a different secret gives a different signature", is stated.
- JSON: the frames are datatypes rather than JSON text. A frame's audio is kept as bytes, and its Base64 form is `Feeder.AudioField`. Replies are modelled after parsing, by what the handler does with each value. A text that is not a JSON object is `Malformed`. `sid` and `message` are only present or absent, since their values never reach `text`. A value whose lookup or iteration raises is `None`. An empty object or string where the handler iterates a list counts as the empty list, because the loop then runs zero times.
- Receiver.Message: `code` is an integer. A code that is not a number, such as `"0"` or null, takes the error branch and is written as a non-zero code. In Python a JSON `false` or `0.0` code also compares equal to 0 and would be accepted; that case is not represented.
- Printing and logging: the error line printed for a non-zero code, and the warning logged for an exception, are not modelled.
- `get_audio_text` and the tool's `_invoke` are not modelled. They download the file, store the stream and format, run the connection, and return `text`. The feeder reads from position 0 of a fresh stream, which is what `Feed` starts from.
- Feeder.Feed: the audio stream is a byte sequence with a read position, not a shared file object.
