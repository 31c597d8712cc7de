# OpenHD camera formats and MAVLink endpoints in Dafny

This project models two parts of OpenHD, the open-source digital video and
telemetry link for drones.

- **Camera** (`camera.dfy`). This is the value side of a camera. A
  `VideoFormat` (codec, width, height, framerate) has an equality that ignores
  the codec, a validity check, a printer `codec|WxH@F`, and a parser built on
  `regex_search` with the pattern `([\w\d\s\-\:\/]*)\|(\d*)x(\d*)\@(\d*)`. The
  module also has the camera endpoint's "supports anything" check, the bitrate
  sanity check, the default camera settings, a camera's two debug strings, and
  the dummy camera.
  - The regex is modelled as a greedy matcher that takes one start position
    at a time (`MatchPrefix`), together with a leftmost search (`Search`).
  - An independent reading of the pattern (`PatternAt`) states what a match
    is. Soundness and completeness lemmas tie the matcher to it.
  - On that basis, the model proves that the parser reads back what the
    printer writes.
- **Endpoint** (`endpoint.dfy`). This is the transport-independent MAVLink
  endpoint of the telemetry service, modelled as a class.
  - It counts messages sent, failed sends and messages received. It holds a
    single callback slot, forwards each received message to the callback, and
    is alive while messages keep arriving.
  - Each endpoint takes its parser channel from a process-wide counter. That
    counter is modelled as a `ChannelAllocator` object handed to each
    endpoint's constructor.
  - Three things are method arguments: the transport's `sendMessageImpl`
    outcome, the messages the MAVLink decoder extracts from a chunk of bytes,
    and the current time.
  - Ghost histories of the transmitted messages and of the callback
    invocations let the contracts state contents, not just counts.

`options.dfy` holds the `Option` type that both modules use.

## Model

| member | source | states |
|---|---|---|
| Camera.CodecToString | OpenHD/ohd_video/inc/openhd-camera.hpp:51-56 | The codec name the printer writes is non-empty. It is made only of characters the parser's codec group accepts, and the parser side maps it back to the same codec. |
| Camera.StringToCodec | OpenHD/ohd_video/inc/openhd-camera.hpp:73 | Any string mapped to a known codec is one of the three codec names. Everything else is Unknown. |
| Camera.CodecNamesInverse | OpenHD/ohd_video/inc/openhd-camera.hpp:53-73 | Every string the parser side maps to a known codec is that codec's printed name. Together with CodecToString's contract, this makes the two maps inverse. |
| Camera.CameraTypeToString | OpenHD/ohd_video/inc/openhd-camera.hpp:171-181 | camera_type_to_string, which both debug strings use: dummy, csi, jetson_csi, uvc, ip, unknown. CameraTypeToStringInjective proves these names distinct. |
| Camera.CameraTypeToStringInjective | OpenHD/ohd_video/inc/openhd-camera.hpp:171-181 | Distinct camera types print as distinct names. |
| Camera.Atoi | OpenHD/ohd_video/inc/openhd-camera.hpp:74-76 | atoi on a run of decimal digits: the run's value, and 0 for an empty run. NatToDecimal proves that it reads back every printed non-negative number. |
| Camera.NatToDecimal | OpenHD/ohd_video/inc/openhd-camera.hpp:53-54 | A non-negative int prints as non-empty decimal digits with no leading zero, and atoi reads them back as the same number. |
| Camera.IntToDecimalInjective | OpenHD/ohd_video/inc/openhd-camera.hpp:53-54 | Distinct ints print as distinct texts. |
| Camera.IntToDecimal | OpenHD/ohd_video/inc/openhd-camera.hpp:53-54 | The printed form of an int is non-empty. It starts with '-' exactly when the number is negative. Otherwise it is all digits, and atoi reads it back as the number. |
| Camera.Span | OpenHD/ohd_video/inc/openhd-camera.hpp:69 | A greedy star over a character class splits the text into a run of the class and a rest. The rest cannot extend the run, and the two together are the text. |
| Camera.SpanOf | OpenHD/ohd_video/inc/openhd-camera.hpp:69 | That split is unique: a run of the class, followed by text that cannot extend it, is exactly what the greedy star takes. |
| Camera.DefaultFormat | OpenHD/ohd_video/inc/openhd-camera.hpp:26-33 | The VideoFormat member defaults, h264 640x480@30. fromString starts from them (`ret{}`, line 67) and returns them when nothing matches (FromStringNoMatch). |
| Camera.SameFormat | OpenHD/ohd_video/inc/openhd-camera.hpp:35-38 | operator==: width, height and framerate agree, and the codec is not compared. SameFormatIgnoresCodec characterises it. |
| Camera.IsValid | OpenHD/ohd_video/inc/openhd-camera.hpp:42-45 | isValid: a known codec; width, height and framerate all positive; at most 4096 wide, 2160 high and 240 fps. RoundTripValid and EmptyGroupNotValid relate it to the parser. |
| Camera.FormatToString | OpenHD/ohd_video/inc/openhd-camera.hpp:51-56 | toString prints codec, a pipe character, width, 'x', height, '@', framerate, the numbers in decimal. Its partner is RoundTrip: fromString reads the text back. |
| Camera.SameFormatIgnoresCodec | OpenHD/ohd_video/inc/openhd-camera.hpp:34-38 | `operator==` holds exactly when the formats are equal once the codec is disregarded. Any two codecs are alike to it, and it is symmetric. |
| Camera.MatchPrefix | OpenHD/ohd_video/inc/openhd-camera.hpp:69-71 | A match attempt at the start of a string yields groups drawn from the pattern's character classes. |
| Camera.MatchPrefixSound | OpenHD/ohd_video/inc/openhd-camera.hpp:69-71 | Whatever the attempt finds is a match of the pattern at the start of the text: the groups with their literals, followed by a rest that does not start with a digit. |
| Camera.MatchPrefixComplete | OpenHD/ohd_video/inc/openhd-camera.hpp:69-71 | Every match of the pattern at the start of the text is what the attempt finds, so that match is unique. |
| Camera.MatchAt | OpenHD/ohd_video/inc/openhd-camera.hpp:69-71 | A match attempt at a position yields groups drawn from the pattern's character classes. |
| Camera.MatchAtSound | OpenHD/ohd_video/inc/openhd-camera.hpp:69-71 | Whatever the attempt at a position finds is a match of the pattern at that position. |
| Camera.MatchAtComplete | OpenHD/ohd_video/inc/openhd-camera.hpp:69-71 | Wherever the pattern matches, the attempt at that position finds exactly those groups. |
| Camera.Search | OpenHD/ohd_video/inc/openhd-camera.hpp:71 | `regex_search` returns the leftmost position at which an attempt succeeds. It returns nothing only when no position succeeds. |
| Camera.FormatOf | OpenHD/ohd_video/inc/openhd-camera.hpp:73-76 | The format a match's groups describe: string_to_video_codec of the codec group and atoi of each digit group. |
| Camera.FromString | OpenHD/ohd_video/inc/openhd-camera.hpp:64-89 | fromString: the format of the leftmost match, or the defaults when nothing matches. No parsed number is negative. FromStringNoMatch, FromStringLeftmost and RoundTrip state the rest. |
| Camera.FromStringNoMatch | OpenHD/ohd_video/inc/openhd-camera.hpp:64-88 | When the pattern occurs nowhere in the input, fromString returns the defaults h264 640x480@30. |
| Camera.FromStringLeftmost | OpenHD/ohd_video/inc/openhd-camera.hpp:71-76 | When the pattern matches at p and nowhere before p, fromString returns the codec and the atoi values of that match's groups. |
| Camera.FormatStringMatches | OpenHD/ohd_video/inc/openhd-camera.hpp:46-69 | The text toString prints for non-negative numbers is a match of the parser's pattern at position 0. |
| Camera.RoundTrip | OpenHD/ohd_video/inc/openhd-camera.hpp:46-76 | fromString(toString(f)) == f, codec included, for every format whose numbers are non-negative. |
| Camera.RoundTripValid | OpenHD/ohd_video/inc/openhd-camera.hpp:39-76 | Every format that isValid accepts survives the round trip, both exactly and under `operator==`. |
| Camera.EmptyGroupNotValid | OpenHD/ohd_video/inc/openhd-camera.hpp:39-76 | If the leftmost match has an empty width, height or framerate group, atoi yields 0 there, so the parsed format is not valid. |
| Camera.EmptyGroupsExample | OpenHD/ohd_video/inc/openhd-camera.hpp:64-89 | The input "h264", pipe, "x@", which has every digit group empty, parses as H264 0x0@0, which isValid rejects. |
| Camera.CodecGroupAbsorbsPrefix | OpenHD/ohd_video/inc/openhd-camera.hpp:69-76 | "fmt: h264", pipe, "1x2@3" parses as Unknown 1x2@3. The text before the codec name is joined to it by codec-class characters, so it lands in the codec group, which the exact-match map does not recognise. |
| Camera.TrailingTextIgnored | OpenHD/ohd_video/inc/openhd-camera.hpp:51-76 | For every format with non-negative numbers, fromString reads the printed text back even when more text follows, provided that text does not start with a digit (for example " fps"). |
| Camera.SupportsAnything | OpenHD/ohd_video/inc/openhd-camera.hpp:102-104 | An endpoint supports nothing exactly when all four encoding flags are false, whatever its other fields. |
| Camera.DefaultBitrateKBits | OpenHD/ohd_video/inc/openhd-camera.hpp:107 | DEFAULT_BITRATE_KBITS: 5000 kbit/s, the default bitrate of CameraSettings. BitrateSaneRange proves it sane. |
| Camera.BitrateSane | OpenHD/ohd_video/inc/openhd-camera.hpp:110-115 | check_bitrate_sane: false for 100 kbit/s or less and for more than 1024 * 1024 * 50, true otherwise. BitrateSaneRange states the interval. |
| Camera.BitrateSaneRange | OpenHD/ohd_video/inc/openhd-camera.hpp:107-115 | A bitrate is sane exactly when it lies in (100, 52428800] kbit/s. The default of 5000 is sane. |
| Camera.DefaultCameraSettings | OpenHD/ohd_video/inc/openhd-camera.hpp:118-138 | The default settings select h264 640x480@30, which is valid, at the default bitrate, which is sane. They have no URL, and recording is off. |
| Camera.DefaultCamera | OpenHD/ohd_video/inc/openhd-camera.hpp:150-165 | The member defaults of Camera: type Unknown, name and vendor "unknown", empty vid, pid and bus, index 0, no endpoints, default settings. CreateDummyCamera is stated against it. |
| Camera.DebugName | OpenHD/ohd_video/inc/openhd-camera.hpp:171-175 | debugName: the name, a pipe character, then the camera-type name. Its partner is DebugNameDistinguishes. |
| Camera.DebugNameDistinguishes | OpenHD/ohd_video/inc/openhd-camera.hpp:171-175 | Two cameras have the same debugName only when they agree on name and type, whatever the name holds. No type name has a pipe character, so the last one in the text separates the two. |
| Camera.CameraToString | OpenHD/ohd_video/inc/openhd-camera.hpp:176-181 | to_string: "Camera", the index in decimal, then the type name in braces. Its partner is CameraToStringDistinguishes. |
| Camera.CameraToStringDistinguishes | OpenHD/ohd_video/inc/openhd-camera.hpp:176-181 | Two cameras have the same to_string only when they agree on index and type, negative indices included. |
| Camera.CreateDummyCamera | OpenHD/ohd_video/inc/openhd-camera.hpp:265-279 | The dummy camera is the default camera with these changes: name "DummyCamera", vendor "dummy", type Dummy, index 0, and format h264 640x480@30. That format is valid and the bitrate is sane. Every other setting keeps its default. |
| Endpoint.ToChannelField | OpenHD/ohd_telemetry/src/endpoints/MEndpoint.h:81 | Storing an id in the uint8_t channel field gives a value in 0..255. It keeps every id that fits, and it is congruent to the id modulo 256. |
| Endpoint.SequentialIncreasing | OpenHD/ohd_telemetry/src/endpoints/MEndpoint.h:90-97 | The ids a fresh counter has issued are strictly increasing, hence pairwise distinct. |
| Endpoint.ChannelFieldExhausted | OpenHD/ohd_telemetry/src/endpoints/MEndpoint.h:81-97 | After 256 checkouts, the next id no longer fits the channel field. Truncated to it, the id collides with an id already issued. |
| Endpoint.ChannelAllocator.constructor | OpenHD/ohd_telemetry/src/endpoints/MEndpoint.h:92 | The counter starts at 0 with nothing issued. |
| Endpoint.ChannelAllocator.CheckoutFreeChannel | OpenHD/ohd_telemetry/src/endpoints/MEndpoint.h:90-97 | checkoutFreeChannel returns the counter and increments it. The id is larger than every id issued before it. It fits the channel field exactly while fewer than 256 ids have been issued. |
| Endpoint.EverySendCounted | OpenHD/ohd_telemetry/src/endpoints/MEndpoint.h:38-47 | Every send is counted exactly once, as sent or as failed. All sends are counted as sent exactly when every transmission succeeded. |
| Endpoint.Deliveries | OpenHD/ohd_telemetry/src/endpoints/MEndpoint.h:77-79 | With a callback registered, each received message reaches it once and in order. With none, nothing is forwarded. |
| Endpoint.AliveAt | OpenHD/ohd_telemetry/src/endpoints/MEndpoint.h:54-58 | isAlive's test on the last arrival time: some message has arrived, and less than AliveWindow (5) seconds before now. |
| Endpoint.AliveIffRecentArrival | OpenHD/ohd_telemetry/src/endpoints/MEndpoint.h:54-58 | On a clock that never runs backward, testing only the last arrival is the same as asking whether any message arrived in the last AliveWindow seconds. |
| Endpoint.AliveWindowBounds | OpenHD/ohd_telemetry/src/endpoints/MEndpoint.h:54-58 | An endpoint that never received a message is not alive. One is alive the moment a message arrives and stays alive within the window. It is dead once the window has passed. |
| Endpoint.MEndpoint.IsAlive | OpenHD/ohd_telemetry/src/endpoints/MEndpoint.h:54-58 | isAlive applies AliveAt to the endpoint's last arrival time. IsAliveIffRecentArrival states what it means. |
| Endpoint.MEndpoint.IsAliveIffRecentArrival | OpenHD/ohd_telemetry/src/endpoints/MEndpoint.h:54-58 | For an endpoint in its invariant, isAlive holds exactly when some message in its whole arrival history came in less than AliveWindow seconds before now. |
| Endpoint.MEndpoint.constructor | OpenHD/ohd_telemetry/src/endpoints/MEndpoint.h:37 | A new endpoint takes the next channel id, truncated to uint8_t, and the allocator moves on. All counters are zero, no callback is set, and the endpoint is never alive. |
| Endpoint.MEndpoint.SendMessage | OpenHD/ohd_telemetry/src/endpoints/MEndpoint.h:38-45 | sendMessage hands the message to the transport. It counts the message as sent or as failed, according to the transport's result, never fails itself, and changes nothing else. |
| Endpoint.MEndpoint.SendMessages | OpenHD/ohd_telemetry/src/endpoints/MEndpoint.h:46-47 | All messages are transmitted in order, and a failure does not stop the rest. Sent grows by the successes and failed by the failures, so their sum grows by the number of messages. |
| Endpoint.MEndpoint.RegisterCallback | OpenHD/ohd_telemetry/src/endpoints/MEndpoint.h:48-53 | The single callback slot now holds the given callback, replacing any earlier one. The null callback empties the slot. Nothing else changes. |
| Endpoint.MEndpoint.OnNewMavlinkMessage | OpenHD/ohd_telemetry/src/endpoints/MEndpoint.h:78-79 | The received count goes up by one and the arrival time is appended to the history, so the endpoint is alive now. The message is forwarded to the callback, if one is registered. The clock reading must not be before the last arrival, as on a steady clock. |
| Endpoint.MEndpoint.ParseNewDataEmulateForMavsdk | OpenHD/ohd_telemetry/src/endpoints/MEndpoint.h:68-71 | An already parsed message has exactly the effect of onNewMavlinkMessage. |
| Endpoint.MEndpoint.ParseNewData | OpenHD/ohd_telemetry/src/endpoints/MEndpoint.h:66-67 | Every decoded message is counted, timestamped with the current clock reading and forwarded to the registered callback, in order. Liveness is refreshed whenever at least one message was decoded. With a callback that leaves the endpoint alone, nothing on the sending side changes. |

## Left out

- The codec and camera-type enums and their string maps are in a header that is not part of this model. The model uses lower-case names (h264, h265, mjpeg, unknown; dummy, csi, jetson_csi, uvc, ip, unknown) and an exact-match codec parser. The round trip depends on the two codec maps being inverse on the printed names. It does not depend on exact matching: a substring-based parser would keep it too. Camera.DebugNameDistinguishes and Camera.CameraToStringDistinguishes depend on the assumed camera-type names. Both need the names to be distinct, and DebugNameDistinguishes also needs them to contain no pipe character. Those are properties of the assumed mapping, not facts read from the header.
- Camera.StringToCodec: with exact matching, any text joined to the codec name by characters of the class `[\w\d\s\-\:\/]` lands in the codec group and makes the codec Unknown (see Camera.CodecGroupAbsorbsPrefix). Text before the codec name is tolerated only when a character outside that class separates it from the name. Text after the framerate is tolerated unless it starts with a digit, which the framerate group absorbs (see Camera.TrailingTextIgnored).
- `\w` and `\s` are modelled on ASCII in the classic locale. Other locales and wide characters are not modelled.
- Camera.Atoi: reads a digit run as its mathematical value. The model does not capture atoi's overflow beyond the int range, or the 32-bit width of the width, height and framerate fields.
- Camera.RoundTrip: holds only for non-negative numbers. A negative number prints with a '-' that the digit groups cannot match, and valid formats never carry one.
- The logging in fromString is left out. So is its `result.size() == 5` else branch: a successful match of a four-group pattern always has five sub-matches, so that branch is unreachable.
- CameraHolder, cameras_to_json, write_camera_manifest and the settings directory constant are left out. They are JSON and file I/O.
- DCameras.h (camera discovery) and ethernet_listener.h (the connection watcher) are not part of this model.
- The bodies of the MEndpoint constructor, sendMessage, sendMessages, registerCallback, isAlive, createInfo, parseNewData and onNewMavlinkMessage are not part of this model. Their contracts follow the header's documentation and declarations.
- Endpoint.MEndpoint.ParseNewData: the MAVLink byte decoder and its per-channel state (`mavlink_status_t`) are not modelled. The method takes the messages the decoder extracts from the new bytes.
- Endpoint.MEndpoint.SendMessage: sendMessageImpl is a transport-specific virtual call. Its boolean result is a parameter.
- createInfo is left out. It is a debug text built in code that is not part of this model.
- The mutex around the channel counter and the atomic send counters are left out. Each method is modelled as one atomic step, and concurrency is not modelled.
- steady_clock is modelled as an integer `now` argument in seconds. The receiving methods require a reading no earlier than the last arrival, which is what a steady clock guarantees.
- Endpoint.MEndpoint.IsAlive: the header's `lastMessage` is a time_point that starts at the clock's epoch and has no "never received" state. So a recency test on it would call a fresh endpoint alive while the steady clock is within the window of its epoch. The model follows the documented intent instead: `lastMessage` is None until the first message, and a fresh endpoint is never alive.
- Endpoint.MEndpoint.ParseNewData: every message decoded from one chunk is stamped with the single reading `now`. onNewMavlinkMessage would read the clock itself for each message, which may give slightly later times for later messages in the chunk.
- Endpoint.MEndpoint.OnNewMavlinkMessage: the callback's own effects are not modelled. In the source it is arbitrary code that runs synchronously inside onNewMavlinkMessage. It may call back into the same endpoint, for example sendMessage to reply on the link, and it may throw after the received count was already raised. Calling it here only records a delivery. The receive-side frame conditions (sent and failed counters and transmissions unchanged, and no exception) assume a callback that leaves the endpoint alone. The same holds for ParseNewDataEmulateForMavsdk and ParseNewData.
- Endpoint.AliveWindowBounds: the header leaves the liveness window as "X seconds". The model fixes it at 5 and uses a strict comparison.
- Endpoint.ChannelAllocator.CheckoutFreeChannel: the code does not detect that ids stop fitting the uint8_t channel field after 256 endpoints, and the model follows it. Truncated channels then repeat (see Endpoint.ChannelFieldExhausted).
- random_number is left out. It reads the wall clock and rand, and nothing in the modelled core uses it.
- The process-wide static counter is an explicit ChannelAllocator object that is passed to each endpoint constructor.
- The int counters of MEndpoint are modelled as unbounded naturals. Wrap-around after 2^31 messages is not modelled.
