/** The video side of a camera: the VideoFormat value with its printer and
    parser, the bitrate and endpoint sanity checks, the user settings and the
    camera record with its debug strings. */
module Camera {
  import opened Options

  // ---------------------------------------------------------------------------
  // Codecs and camera types
  // ---------------------------------------------------------------------------

  /** The codecs a stream can use. The enum and its string mapping live in a
      header that is not part of this model; the names below are lower-case
      and the parser side matches them exactly. */
  datatype VideoCodec = H264 | H265 | MJPEG | Unknown

  /** video_codec_to_string: a non-empty name made of characters the format
      parser accepts in its codec group, which the parser side maps back. */
  function CodecToString(c: VideoCodec): (r: string)
    ensures r != [] && AllCodecChars(r)
    ensures StringToCodec(r) == c
  {
    match c
    case H264 => "h264"
    case H265 => "h265"
    case MJPEG => "mjpeg"
    case Unknown => "unknown"
  }

  /** string_to_video_codec: every name it recognises is the name of the codec
      it returns; anything else is Unknown. */
  function StringToCodec(s: string): (r: VideoCodec)
    ensures r != VideoCodec.Unknown ==> s in {"h264", "h265", "mjpeg"}
  {
    if s == "h264" then H264
    else if s == "h265" then H265
    else if s == "mjpeg" then MJPEG
    else VideoCodec.Unknown
  }

  /** Every name the parser side recognises is the printed name of the codec
      it stands for (the other direction is CodecToString's contract). */
  lemma CodecNamesInverse(s: string)
    ensures StringToCodec(s) != VideoCodec.Unknown ==> CodecToString(StringToCodec(s)) == s
  {
  }

  /** The kinds of camera the discovery step can report. */
  datatype CameraType = Dummy | RaspberryPiCSI | JetsonCSI | UVC | IP | Unknown

  /** camera_type_to_string. */
  function CameraTypeToString(t: CameraType): string
  {
    match t
    case Dummy => "dummy"
    case RaspberryPiCSI => "csi"
    case JetsonCSI => "jetson_csi"
    case UVC => "uvc"
    case IP => "ip"
    case Unknown => "unknown"
  }

  /** Distinct camera types print distinctly. */
  lemma CameraTypeToStringInjective(t: CameraType, u: CameraType)
    requires CameraTypeToString(t) == CameraTypeToString(u)
    ensures t == u
  {
  }

  // ---------------------------------------------------------------------------
  // Characters and decimal numbers
  // ---------------------------------------------------------------------------

  predicate IsDigit(c: char) { '0' <= c <= '9' }

  /** \w: letters, digits and the underscore. */
  predicate IsWordChar(c: char) { 'a' <= c <= 'z' || 'A' <= c <= 'Z' || IsDigit(c) || c == '_' }

  /** \s in the classic locale: space, tab, line feed, vertical tab, form feed,
      carriage return. */
  predicate IsSpaceChar(c: char)
  {
    c == ' ' || c == '\t' || c == '\n' || c == '\U{000B}' || c == '\U{000C}' || c == '\r'
  }

  /** The character class [\w\d\s\-\:\/] of the codec group. */
  predicate IsCodecChar(c: char) { IsWordChar(c) || IsSpaceChar(c) || c == '-' || c == ':' || c == '/' }

  /** The two character classes of the format regex: the codec group's and \d. */
  datatype CharClass = CodecClass | DigitClass

  predicate InClass(cls: CharClass, c: char)
  {
    match cls
    case CodecClass => IsCodecChar(c)
    case DigitClass => IsDigit(c)
  }

  predicate AllIn(s: string, cls: CharClass) { forall k :: 0 <= k < |s| ==> InClass(cls, s[k]) }

  predicate AllDigits(s: string) { AllIn(s, DigitClass) }

  predicate AllCodecChars(s: string) { AllIn(s, CodecClass) }

  function DigitValue(c: char): (d: nat)
    requires IsDigit(c)
    ensures d < 10
  {
    c as int - '0' as int
  }

  function DigitChar(d: nat): (c: char)
    requires d < 10
    ensures IsDigit(c) && DigitValue(c) == d
  {
    ('0' as int + d) as char
  }

  /** atoi on a run of decimal digits (the only strings the parser hands it):
      the value of the digits, and 0 for the empty run. */
  function Atoi(ds: string): (n: nat)
    requires AllDigits(ds)
  {
    if ds == [] then 0 else Atoi(ds[..|ds| - 1]) * 10 + DigitValue(ds[|ds| - 1])
  }

  /** What a stringstream prints for a non-negative int: the shortest decimal
      form, which atoi reads back as the same number. */
  function NatToDecimal(n: nat): (r: string)
    ensures r != [] && AllDigits(r)
    ensures |r| > 1 ==> r[0] != '0'
    ensures Atoi(r) == n
  {
    if n < 10 then [DigitChar(n)]
    else
      var prefix := NatToDecimal(n / 10);
      var r := prefix + [DigitChar(n % 10)];
      assert r[..|r| - 1] == prefix;
      r
  }

  /** What a stringstream prints for an int: a minus sign before a negative value. */
  function IntToDecimal(n: int): (r: string)
    ensures r != []
    ensures n >= 0 ==> AllDigits(r) && Atoi(r) == n
    ensures n < 0 <==> r[0] == '-'
  {
    if n < 0 then "-" + NatToDecimal(-n) else NatToDecimal(n)
  }

  /** Splits t into its longest prefix of characters of class cls, which is
      what a greedy star takes, and the rest. */
  function Span(t: string, cls: CharClass): (r: (string, string))
    ensures r.0 + r.1 == t
    ensures AllIn(r.0, cls)
    ensures r.1 == [] || !InClass(cls, r.1[0])
  {
    if t == [] || !InClass(cls, t[0]) then ([], t)
    else
      var (run, rest) := Span(t[1..], cls);
      assert [t[0]] + run + rest == t;
      ([t[0]] + run, rest)
  }

  /** The longest prefix is unique: a run of the class followed by text that
      cannot extend it is exactly what Span splits off. */
  lemma {:induction false} SpanOf(x: string, rest: string, cls: CharClass)
    requires AllIn(x, cls)
    requires rest == [] || !InClass(cls, rest[0])
    ensures Span(x + rest, cls) == (x, rest)
  {
    if x == [] {
      assert x + rest == rest;
    } else {
      assert (x + rest)[0] == x[0];
      assert (x + rest)[1..] == x[1..] + rest;
      SpanOf(x[1..], rest, cls);
      assert [x[0]] + x[1..] == x;
    }
  }

  // ---------------------------------------------------------------------------
  // VideoFormat
  // ---------------------------------------------------------------------------

  /** A selected stream configuration: codec, width and height in pixels,
      frames per second. */
  datatype VideoFormat = VideoFormat(videoCodec: VideoCodec, width: int, height: int, framerate: int)

  /** The member defaults of VideoFormat, also what the parser falls back to. */
  const DefaultFormat := VideoFormat(H264, 640, 480, 30)

  /** operator==: compares the three numbers and deliberately not the codec. */
  predicate SameFormat(a: VideoFormat, b: VideoFormat)
  {
    a.width == b.width && a.height == b.height && a.framerate == b.framerate
  }

  /** operator== holds exactly when the two formats are equal once the codec is
      disregarded, so it is an equivalence that any two codecs share. */
  lemma SameFormatIgnoresCodec(a: VideoFormat, b: VideoFormat, c: VideoCodec)
    ensures SameFormat(a, b) <==> a.(videoCodec := b.videoCodec) == b
    ensures SameFormat(a, a.(videoCodec := c))
    ensures SameFormat(a, b) ==> SameFormat(b, a)
  {
  }

  /** isValid: a known codec and every number positive and at most 4K / 240 fps. */
  predicate IsValid(f: VideoFormat)
  {
    f.videoCodec != VideoCodec.Unknown && f.width > 0 && f.height > 0 &&
    f.framerate > 0 && f.width <= 4096 && f.height <= 2160 && f.framerate <= 240
  }

  /** toString: codec|WxH@F. */
  function FormatToString(f: VideoFormat): string
  {
    CodecToString(f.videoCodec) + "|" + IntToDecimal(f.width) + "x" + IntToDecimal(f.height) +
    "@" + IntToDecimal(f.framerate)
  }

  /** The four capture groups of the format regex. */
  datatype Groups = Groups(codec: string, width: string, height: string, framerate: string)

  /** The text a match with groups g covers. */
  function GroupsText(g: Groups): string
  {
    g.codec + "|" + g.width + "x" + g.height + "@" + g.framerate
  }

  /** Reference reading of the regex ([\w\d\s\-\:\/]*)\|(\d*)x(\d*)\@(\d*)
      matched at the start of t with groups g, the rest of t being rest: the
      groups and their separators, then the rest; each group drawn from its
      class; and the last group, which nothing follows, as long as the digits
      allow. (The first three groups cannot be extended: the literal after
      each lies outside its class.) */
  ghost predicate PatternPrefix(t: string, g: Groups, rest: string)
  {
    t == GroupsText(g) + rest &&
    AllCodecChars(g.codec) && AllDigits(g.width) && AllDigits(g.height) && AllDigits(g.framerate) &&
    (rest == [] || !IsDigit(rest[0]))
  }

  /** The regex matches s at position p with groups g. */
  ghost predicate PatternAt(s: string, p: nat, g: Groups)
  {
    p + |GroupsText(g)| <= |s| && PatternPrefix(s[p..], g, s[p + |GroupsText(g)|..])
  }

  /** How regex_search tries one start position, here the start of t: every
      group is greedy, and since no group can give back a character to the
      literal after it, the attempt succeeds or fails without backtracking. */
  function MatchPrefix(t: string): (r: Option<Groups>)
    ensures r.Some? ==> AllCodecChars(r.value.codec) && AllDigits(r.value.width)
    ensures r.Some? ==> AllDigits(r.value.height) && AllDigits(r.value.framerate)
  {
    var (codec, afterCodec) := Span(t, CodecClass);
    if afterCodec == [] || afterCodec[0] != '|' then None
    else
      var (width, afterWidth) := Span(afterCodec[1..], DigitClass);
      if afterWidth == [] || afterWidth[0] != 'x' then None
      else
        var (height, afterHeight) := Span(afterWidth[1..], DigitClass);
        if afterHeight == [] || afterHeight[0] != '@' then None
        else
          var (framerate, rest) := Span(afterHeight[1..], DigitClass);
          Some(Groups(codec, width, height, framerate))
  }

  /** The text a match covers, read from the inside out: each group, then its
      literal, then everything after. */
  lemma GroupsTextNested(g: Groups, rest: string)
    ensures GroupsText(g) + rest ==
      g.codec + (['|'] + (g.width + (['x'] + (g.height + (['@'] + (g.framerate + rest))))))
  {
  }

  /** A first character split off. */
  lemma HeadTail(t: string)
    requires t != []
    ensures t == [t[0]] + t[1..]
  {
  }

  /** Whatever the attempt finds is a match of the pattern at the start of t. */
  lemma MatchPrefixSound(t: string)
    requires MatchPrefix(t).Some?
    ensures var g := MatchPrefix(t).value;
      |GroupsText(g)| <= |t| && PatternPrefix(t, g, t[|GroupsText(g)|..])
  {
    var (codec, afterCodec) := Span(t, CodecClass);
    HeadTail(afterCodec);
    var (width, afterWidth) := Span(afterCodec[1..], DigitClass);
    HeadTail(afterWidth);
    var (height, afterHeight) := Span(afterWidth[1..], DigitClass);
    HeadTail(afterHeight);
    var (framerate, rest) := Span(afterHeight[1..], DigitClass);
    var g := Groups(codec, width, height, framerate);
    assert MatchPrefix(t) == Some(g);
    GroupsTextNested(g, rest);
    assert t == GroupsText(g) + rest;
    assert t[|GroupsText(g)|..] == rest;
  }

  /** The attempt finds every match the regex has at the start of t, so that
      match is unique. */
  lemma MatchPrefixComplete(t: string, g: Groups, rest: string)
    requires PatternPrefix(t, g, rest)
    ensures MatchPrefix(t) == Some(g)
  {
    var afterHeight := ['@'] + (g.framerate + rest);
    var afterWidth := ['x'] + (g.height + afterHeight);
    var afterCodec := ['|'] + (g.width + afterWidth);
    GroupsTextNested(g, rest);
    SpanOf(g.codec, afterCodec, CodecClass);
    assert afterCodec[1..] == g.width + afterWidth;
    SpanOf(g.width, afterWidth, DigitClass);
    assert afterWidth[1..] == g.height + afterHeight;
    SpanOf(g.height, afterHeight, DigitClass);
    assert afterHeight[1..] == g.framerate + rest;
    SpanOf(g.framerate, rest, DigitClass);
  }

  /** The attempt at position p of s. */
  function MatchAt(s: string, p: nat): (r: Option<Groups>)
    requires p <= |s|
    ensures r.Some? ==> AllCodecChars(r.value.codec) && AllDigits(r.value.width)
    ensures r.Some? ==> AllDigits(r.value.height) && AllDigits(r.value.framerate)
  {
    MatchPrefix(s[p..])
  }

  /** Whatever the attempt at p finds is a match of the pattern at p. */
  lemma MatchAtSound(s: string, p: nat)
    requires p <= |s| && MatchAt(s, p).Some?
    ensures PatternAt(s, p, MatchAt(s, p).value)
  {
    var g := MatchAt(s, p).value;
    MatchPrefixSound(s[p..]);
    assert s[p..][|GroupsText(g)|..] == s[p + |GroupsText(g)|..];
  }

  /** regex_search: the leftmost start position at or after from where the
      pattern matches, or None when it matches nowhere. */
  function Search(s: string, from: nat): (r: Option<nat>)
    requires from <= |s|
    ensures r.Some? ==> from <= r.value <= |s| && MatchAt(s, r.value).Some?
    ensures r.Some? ==> forall q :: from <= q < r.value ==> MatchAt(s, q).None?
    ensures r.None? ==> forall q :: from <= q <= |s| ==> MatchAt(s, q).None?
    decreases |s| - from
  {
    if MatchAt(s, from).Some? then Some(from)
    else if from == |s| then None
    else Search(s, from + 1)
  }

  /** Wherever the pattern matches, the attempt at that position finds it. */
  lemma MatchAtComplete(s: string, p: nat, g: Groups)
    requires PatternAt(s, p, g)
    ensures MatchAt(s, p) == Some(g)
  {
    MatchPrefixComplete(s[p..], g, s[p + |GroupsText(g)|..]);
  }

  /** The format a successful match describes; atoi turns an empty digit group into 0. */
  function FormatOf(g: Groups): VideoFormat
    requires AllDigits(g.width) && AllDigits(g.height) && AllDigits(g.framerate)
  {
    VideoFormat(StringToCodec(g.codec), Atoi(g.width), Atoi(g.height), Atoi(g.framerate))
  }

  /** fromString: the format of the leftmost match, or the defaults. The
      digit groups hold no sign, so no parsed number is negative. */
  function FromString(input: string): (r: VideoFormat)
    ensures r.width >= 0 && r.height >= 0 && r.framerate >= 0
  {
    match Search(input, 0)
    case None => DefaultFormat
    case Some(p) => FormatOf(MatchAt(input, p).value)
  }

  /** When the pattern occurs nowhere in the input, fromString returns the
      defaults h264 640x480@30. */
  lemma FromStringNoMatch(input: string)
    requires forall p: nat, g :: p <= |input| ==> !PatternAt(input, p, g)
    ensures FromString(input) == DefaultFormat
  {
    var r := Search(input, 0);
    if r.Some? {
      MatchAtSound(input, r.value);
      assert false;
    }
  }

  /** When the pattern matches at p with groups g and nowhere before p, the
      parsed format is the one g describes. */
  lemma FromStringLeftmost(input: string, p: nat, g: Groups)
    requires p <= |input| && PatternAt(input, p, g)
    requires forall q: nat, g' :: q < p ==> !PatternAt(input, q, g')
    ensures FromString(input) == FormatOf(g)
  {
    MatchAtComplete(input, p, g);
    var r := Search(input, 0);
    if r.value < p {
      MatchAtSound(input, r.value);
      assert false;
    }
  }

  /** The text toString prints for a format with non-negative numbers is one
      match of the parser's pattern, at the very start. */
  lemma FormatStringMatches(f: VideoFormat)
    requires f.width >= 0 && f.height >= 0 && f.framerate >= 0
    ensures PatternAt(FormatToString(f), 0, Groups(CodecToString(f.videoCodec),
      NatToDecimal(f.width), NatToDecimal(f.height), NatToDecimal(f.framerate)))
  {
  }

  /** Round trip: fromString reads back everything toString printed, codec
      included, whenever the numbers are non-negative. */
  lemma RoundTrip(f: VideoFormat)
    requires f.width >= 0 && f.height >= 0 && f.framerate >= 0
    ensures FromString(FormatToString(f)) == f
  {
    var g := Groups(CodecToString(f.videoCodec), NatToDecimal(f.width), NatToDecimal(f.height),
      NatToDecimal(f.framerate));
    FormatStringMatches(f);
    FromStringLeftmost(FormatToString(f), 0, g);
  }

  /** Every valid format survives the round trip. */
  lemma RoundTripValid(f: VideoFormat)
    requires IsValid(f)
    ensures FromString(FormatToString(f)) == f && SameFormat(FromString(FormatToString(f)), f)
  {
    RoundTrip(f);
  }

  /** An empty digit group in the leftmost match parses as 0, so the parsed
      format is never valid. */
  lemma EmptyGroupNotValid(input: string, p: nat, g: Groups)
    requires p <= |input| && PatternAt(input, p, g)
    requires forall q: nat, g' :: q < p ==> !PatternAt(input, q, g')
    requires g.width == [] || g.height == [] || g.framerate == []
    ensures !IsValid(FromString(input))
  {
    FromStringLeftmost(input, p, g);
  }

  /** "h264|x@" has all three digit groups empty: H264 0x0@0, which is not valid. */
  lemma EmptyGroupsExample()
    ensures FromString("h264|x@") == VideoFormat(H264, 0, 0, 0)
    ensures !IsValid(FromString("h264|x@"))
  {
    var g := Groups("h264", "", "", "");
    assert GroupsText(g) == "h264|x@";
    assert "h264|x@"[0..] == GroupsText(g) + "h264|x@"[7..];
    FromStringLeftmost("h264|x@", 0, g);
  }

  /** Text joined to the codec name by characters of the codec class lands in
      the codec group, so the exact-match codec map gives Unknown: "fmt: h264"
      is not a codec name, while the numbers still parse. */
  lemma CodecGroupAbsorbsPrefix()
    ensures FromString("fmt: h264|1x2@3") == VideoFormat(VideoCodec.Unknown, 1, 2, 3)
  {
    var g := Groups("fmt: h264", "1", "2", "3");
    assert GroupsText(g) == "fmt: h264|1x2@3";
    assert "fmt: h264|1x2@3"[0..] == GroupsText(g) + "fmt: h264|1x2@3"[15..];
    FromStringLeftmost("fmt: h264|1x2@3", 0, g);
  }

  /** Text after a printed format is ignored unless it starts with a digit,
      which the framerate group would absorb. */
  lemma TrailingTextIgnored(f: VideoFormat, tail: string)
    requires f.width >= 0 && f.height >= 0 && f.framerate >= 0
    requires tail == [] || !IsDigit(tail[0])
    ensures FromString(FormatToString(f) + tail) == f
  {
    var g := Groups(CodecToString(f.videoCodec), NatToDecimal(f.width), NatToDecimal(f.height),
      NatToDecimal(f.framerate));
    var s := FormatToString(f) + tail;
    assert GroupsText(g) == FormatToString(f);
    assert s[0..] == GroupsText(g) + s[|GroupsText(g)|..];
    assert s[|GroupsText(g)|..] == tail;
    FromStringLeftmost(s, 0, g);
  }

  // ---------------------------------------------------------------------------
  // Endpoints, bitrate and settings
  // ---------------------------------------------------------------------------

  /** One device node of a camera and the encodings it can deliver. */
  datatype CameraEndpoint = CameraEndpoint(
    deviceNode: string,
    bus: string,
    supportH264: bool,
    supportH265: bool,
    supportMJPEG: bool,
    supportRaw: bool,
    formats: seq<string>)

  /** supports_anything: at least one of the four encodings is available. */
  function SupportsAnything(e: CameraEndpoint): (r: bool)
    ensures !r <==> e == e.(supportH264 := false, supportH265 := false, supportMJPEG := false, supportRaw := false)
  {
    e.supportH264 || e.supportH265 || e.supportMJPEG || e.supportRaw
  }

  /** DEFAULT_BITRATE_KBITS */
  const DefaultBitrateKBits := 5000

  /** check_bitrate_sane: rejects 100 kbit/s or less and more than 50 * 1024 * 1024. */
  predicate BitrateSane(bitrateKBits: int)
  {
    !(bitrateKBits <= 100 || bitrateKBits > 1024 * 1024 * 50)
  }

  /** The sane bitrates form the range (100, 52428800], and the default lies in it. */
  lemma BitrateSaneRange(b: int)
    ensures BitrateSane(b) <==> 100 < b <= 52428800
    ensures BitrateSane(DefaultBitrateKBits)
  {
  }

  /** The user-selectable options of a camera. */
  datatype CameraSettings = CameraSettings(
    userSelectedVideoFormat: VideoFormat,
    bitrateKBits: int,
    url: string,
    enableAirRecordingToFile: bool)

  /** The member defaults of CameraSettings: h264 640x480@30, which is valid,
      at the default bitrate, which is sane; no URL and no recording. */
  function DefaultCameraSettings(): (s: CameraSettings)
    ensures s.userSelectedVideoFormat == DefaultFormat && IsValid(s.userSelectedVideoFormat)
    ensures s.bitrateKBits == DefaultBitrateKBits && BitrateSane(s.bitrateKBits)
    ensures s.url == [] && !s.enableAirRecordingToFile
  {
    CameraSettings(VideoFormat(H264, 640, 480, 30), DefaultBitrateKBits, "", false)
  }

  // ---------------------------------------------------------------------------
  // Camera
  // ---------------------------------------------------------------------------

  /** A discovered camera, its endpoints and its settings. */
  datatype Camera = Camera(
    cameraType: CameraType,
    name: string,
    vendor: string,
    vid: string,
    pid: string,
    bus: string,
    index: int,
    endpoints: seq<CameraEndpoint>,
    settings: CameraSettings)

  /** The member defaults of Camera. */
  function DefaultCamera(): Camera
  {
    Camera(CameraType.Unknown, "unknown", "unknown", "", "", "", 0, [], DefaultCameraSettings())
  }

  /** Splits s at its first sep into what comes before and what comes after. */
  function SplitFirst(s: string, sep: char): (string, string)
  {
    if s == [] then ([], [])
    else if s[0] == sep then ([], s[1..])
    else
      var (before, after) := SplitFirst(s[1..], sep);
      ([s[0]] + before, after)
  }

  /** Splitting at the first separator undoes joining at a separator that the
      left part does not contain. */
  lemma {:induction false} SplitFirstOfJoin(a: string, b: string, sep: char)
    requires sep !in a
    ensures SplitFirst(a + [sep] + b, sep) == (a, b)
  {
    if a == [] {
      assert a + [sep] + b == [sep] + b;
    } else {
      assert (a + [sep] + b)[0] == a[0];
      assert (a + [sep] + b)[1..] == a[1..] + [sep] + b;
      SplitFirstOfJoin(a[1..], b, sep);
      assert [a[0]] + a[1..] == a;
    }
  }

  /** Two strings joined at a separator that neither left part contains come
      apart again at that separator. */
  lemma SplitAtSeparator(a: string, b: string, a': string, b': string, sep: char)
    requires sep !in a && sep !in a'
    requires a + [sep] + b == a' + [sep] + b'
    ensures a == a' && b == b'
  {
    SplitFirstOfJoin(a, b, sep);
    SplitFirstOfJoin(a', b', sep);
  }

  /** Splits s at its last sep into what comes before and what comes after. */
  function SplitLast(s: string, sep: char): (string, string)
  {
    if s == [] then ([], [])
    else if s[|s| - 1] == sep then (s[..|s| - 1], [])
    else
      var (before, after) := SplitLast(s[..|s| - 1], sep);
      (before, after + [s[|s| - 1]])
  }

  /** Splitting at the last separator undoes joining at a separator that the
      right part does not contain. */
  lemma {:induction false} SplitLastOfJoin(a: string, b: string, sep: char)
    requires sep !in b
    ensures SplitLast(a + [sep] + b, sep) == (a, b)
  {
    var s := a + [sep] + b;
    if b == [] {
      assert s[..|s| - 1] == a;
    } else {
      var b0 := b[..|b| - 1];
      assert s[|s| - 1] == b[|b| - 1];
      assert s[..|s| - 1] == a + [sep] + b0;
      SplitLastOfJoin(a, b0, sep);
      assert b0 + [b[|b| - 1]] == b;
    }
  }

  /** Two strings joined at a separator that neither right part contains come
      apart again at that separator. */
  lemma SplitAtLastSeparator(a: string, b: string, a': string, b': string, sep: char)
    requires sep !in b && sep !in b'
    requires a + [sep] + b == a' + [sep] + b'
    ensures a == a' && b == b'
  {
    SplitLastOfJoin(a, b, sep);
    SplitLastOfJoin(a', b', sep);
  }

  /** debugName: name|type. */
  function DebugName(c: Camera): string
  {
    c.name + "|" + CameraTypeToString(c.cameraType)
  }

  /** Two cameras have equal debug names only when they agree on name and
      type: no type name holds a '|', so the last one separates the two. */
  lemma DebugNameDistinguishes(c: Camera, d: Camera)
    requires DebugName(c) == DebugName(d)
    ensures c.name == d.name && c.cameraType == d.cameraType
  {
    var tc, td := CameraTypeToString(c.cameraType), CameraTypeToString(d.cameraType);
    assert '|' !in tc && '|' !in td;
    SplitAtLastSeparator(c.name, tc, d.name, td, '|');
    CameraTypeToStringInjective(c.cameraType, d.cameraType);
  }

  /** to_string: Camera<index>{type}. */
  function CameraToString(c: Camera): string
  {
    "Camera" + IntToDecimal(c.index) + "{" + CameraTypeToString(c.cameraType) + "}"
  }

  /** Two cameras have equal to_string texts only when they agree on index
      and type. */
  lemma CameraToStringDistinguishes(c: Camera, d: Camera)
    requires CameraToString(c) == CameraToString(d)
    ensures c.index == d.index && c.cameraType == d.cameraType
  {
    var dc, dd := IntToDecimal(c.index), IntToDecimal(d.index);
    var tc, td := CameraTypeToString(c.cameraType), CameraTypeToString(d.cameraType);
    CameraStringShape(c);
    CameraStringShape(d);
    CancelPrefix("Camera", dc + ['{'] + (tc + "}"), dd + ['{'] + (td + "}"));
    NoBraceInDecimal(c.index);
    NoBraceInDecimal(d.index);
    SplitAtSeparator(dc, tc + "}", dd, td + "}", '{');
    IntToDecimalInjective(c.index, d.index);
    CancelSuffix(tc, td, "}");
    CameraTypeToStringInjective(c.cameraType, d.cameraType);
  }

  /** to_string grouped as prefix, number, brace and the rest. */
  lemma CameraStringShape(c: Camera)
    ensures CameraToString(c) ==
      "Camera" + (IntToDecimal(c.index) + ['{'] + (CameraTypeToString(c.cameraType) + "}"))
  {
  }

  lemma CancelPrefix(p: string, a: string, b: string)
    requires p + a == p + b
    ensures a == b
  {
    assert a == (p + a)[|p|..];
  }

  lemma CancelSuffix(a: string, b: string, q: string)
    requires a + q == b + q
    ensures a == b
  {
    assert a == (a + q)[..|a|];
  }

  /** A printed number never contains the brace that opens the type in to_string. */
  lemma NoBraceInDecimal(n: int)
    ensures '{' !in IntToDecimal(n)
  {
    if n < 0 {
      var ds := NatToDecimal(-n);
      assert forall k :: 0 <= k < |ds| ==> IsDigit(ds[k]);
      assert IntToDecimal(n) == "-" + ds;
    }
  }

  /** Distinct ints print distinctly. */
  lemma IntToDecimalInjective(m: int, n: int)
    requires IntToDecimal(m) == IntToDecimal(n)
    ensures m == n
  {
    var r := IntToDecimal(m);
    assert (m < 0) == (n < 0);
    if m < 0 {
      assert r[1..] == NatToDecimal(-m) == NatToDecimal(-n);
    }
  }

  /** createDummyCamera: the default camera renamed "DummyCamera" by vendor
      "dummy", of type Dummy at index 0, selecting h264 640x480 at the default
      30 fps, which is a valid format. */
  function CreateDummyCamera(): (c: Camera)
    ensures c.name == "DummyCamera" && c.vendor == "dummy" && c.index == 0 && c.cameraType == Dummy
    ensures c.settings.userSelectedVideoFormat == VideoFormat(H264, 640, 480, 30)
    ensures IsValid(c.settings.userSelectedVideoFormat) && BitrateSane(c.settings.bitrateKBits)
    ensures c == DefaultCamera().(name := c.name, vendor := c.vendor, cameraType := c.cameraType, settings := c.settings)
    ensures c.settings == DefaultCameraSettings().(userSelectedVideoFormat := c.settings.userSelectedVideoFormat)
  {
    var renamed := DefaultCamera().(name := "DummyCamera", index := 0, vendor := "dummy", cameraType := Dummy);
    var fmt := renamed.settings.userSelectedVideoFormat.(videoCodec := H264, width := 640, height := 480);
    renamed.(settings := renamed.settings.(userSelectedVideoFormat := fmt))
  }
}
