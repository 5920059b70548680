/**
  The bytes of a packet, as two copies of one program exchange them: little-endian
  fields at fixed places, with four unused bytes behind a configuration and in front
  of an input's text.
 */
module PacketBytes {
  import opened Wrappers
  import opened ByteOrder
  import opened SinglePrecision
  import opened SurfacePackets

  const CONFIG_WORDS := 23
  const UNUSED: seq<byte> := [0, 0, 0, 0]

  // ---- Words of four bytes ----

  /** A signed number as a word, in two's complement. */
  function Word(n: i32): u32 {
    if n < 0 then n + 0x1_0000_0000 else n
  }

  function Signed(w: u32): i32 {
    if w < 0x8000_0000 then w else w - 0x1_0000_0000
  }

  function WordBytes(words: seq<u32>): (s: seq<byte>)
    ensures |s| == 4 * |words|
  {
    if words == [] then [] else LittleEndian(words[0], 4) + WordBytes(words[1..])
  }

  function WordsOf(s: seq<byte>): (words: seq<u32>)
    requires |s| % 4 == 0
    ensures 4 * |words| == |s|
  {
    if s == [] then []
    else
      Widths();
      FromLittleEndianBound(s[..4]);
      [FromLittleEndian(s[..4])] + WordsOf(s[4..])
  }

  lemma {:induction false} WordsRoundTrip(words: seq<u32>)
    ensures WordsOf(WordBytes(words)) == words
  {
    if words != [] {
      var s := WordBytes(words);
      assert s[..4] == LittleEndian(words[0], 4) && s[4..] == WordBytes(words[1..]);
      Widths();
      LittleEndianRoundTrip(words[0], 4);
      WordsRoundTrip(words[1..]);
    }
  }

  // ---- Configurations ----

  function ConfigWords(c: Config): (words: seq<u32>)
    ensures |words| == CONFIG_WORDS
  {
    var l, w := c.layout, c.window;
    [l.windowId, Word(l.originX), Word(l.originY), Word(l.pixelW), Word(l.pixelH),
     Word(w.x), Word(w.y), Word(w.w), Word(w.h), Word(w.mode), Word(w.liveResize), Word(w.renderEnabled),
     l.displayScale, w.refreshHz, Word(l.buttonWidth), Word(l.titleHeight), Word(l.resizeBorder),
     Word(l.controlsX), Word(l.controlsY), Word(l.controlsW), Word(l.controlsH), Word(l.contentX), Word(l.backdrop)]
  }

  /** None for a display scale that no shell sends. */
  function ConfigOf(epoch: u64, paneRequest: u64, words: seq<u32>): Option<Config>
    requires |words| == CONFIG_WORDS
  {
    var i := w => Signed(w);
    if words[12] > INFINITY then None
    else
      Some(Config(
        epoch, paneRequest,
        Layout(words[0], i(words[1]), i(words[2]), i(words[3]), i(words[4]), words[12],
               i(words[14]), i(words[15]), i(words[16]),
               i(words[17]), i(words[18]), i(words[19]), i(words[20]), i(words[21]), i(words[22])),
        Window(i(words[5]), i(words[6]), i(words[7]), i(words[8]), i(words[9]), i(words[10]), i(words[11]), words[13])))
  }

  function ConfigBytes(c: Config): (s: seq<byte>)
    ensures |s| == CONFIGURE_SIZE
  {
    LittleEndian(c.epoch, 8) + LittleEndian(c.paneRequest, 8) + WordBytes(ConfigWords(c)) + UNUSED
  }

  function ParseConfig(s: seq<byte>): Option<Config>
    requires |s| == CONFIGURE_SIZE
  {
    ConfigOf(Long(s[..8]), Long(s[8..16]), WordsOf(s[16..108]))
  }

  function Long(s: seq<byte>): u64
    requires |s| == 8
  {
    Widths();
    FromLittleEndianBound(s);
    FromLittleEndian(s)
  }

  lemma LongRoundTrip(n: u64)
    ensures Long(LittleEndian(n, 8)) == n
  {
    Widths();
    LittleEndianRoundTrip(n, 8);
  }

  lemma ConfigRoundTrip(c: Config)
    ensures ParseConfig(ConfigBytes(c)) == Some(c)
  {
    hide LittleEndian, FromLittleEndian, WordBytes, WordsOf, Long, ConfigWords, ConfigOf;
    var s := ConfigBytes(c);
    assert s[..8] == LittleEndian(c.epoch, 8) && s[8..16] == LittleEndian(c.paneRequest, 8);
    assert s[16..108] == WordBytes(ConfigWords(c));
    LongRoundTrip(c.epoch);
    LongRoundTrip(c.paneRequest);
    WordsRoundTrip(ConfigWords(c));
    ConfigFromWords(c);
  }

  lemma ConfigFromWords(c: Config)
    ensures ConfigOf(c.epoch, c.paneRequest, ConfigWords(c)) == Some(c)
  {
  }

  // ---- Inputs ----

  function EventOf(s: seq<byte>): Event
    requires |s| == EVENT_SIZE
  {
    if HasMotionType(s) then Motion(s[4..36], WordsOf(s[36..40])[0], WordsOf(s[40..44])[0], s[44..])
    else OtherEvent(s)
  }

  function BytesOfEvent(e: Event): (s: seq<byte>)
    ensures |s| == EVENT_SIZE
  {
    match e
    case Motion(before, xrel, yrel, after) => MOTION_TYPE + before + WordBytes([xrel]) + WordBytes([yrel]) + after
    case OtherEvent(bytes) => bytes
  }

  lemma EventRoundTrip(e: Event)
    ensures EventOf(BytesOfEvent(e)) == e
  {
    hide WordBytes, WordsOf;
    if e.Motion? {
      var s := BytesOfEvent(e);
      assert HasMotionType(s) && s[4..36] == e.before && s[44..] == e.after;
      assert s[36..40] == WordBytes([e.xrel]) && s[40..44] == WordBytes([e.yrel]);
      WordsRoundTrip([e.xrel]);
      WordsRoundTrip([e.yrel]);
    }
  }

  function InputBytes(epoch: u64, e: Event, text: seq<byte>): (s: seq<byte>)
    ensures |s| == INPUT_SIZE + |text|
  {
    LittleEndian(epoch, 8) + BytesOfEvent(e) + LittleEndian(|text|, 4) + UNUSED + text
  }

  /** None when the text is not as long as announced. */
  function ParseInput(s: seq<byte>): Option<Packet>
    requires |s| >= INPUT_SIZE
  {
    if FromLittleEndian(s[136..140]) != |s| - INPUT_SIZE then None
    else Some(Input(Long(s[..8]), EventOf(s[8..136]), s[INPUT_SIZE..]))
  }

  lemma InputRoundTrip(epoch: u64, e: Event, text: seq<byte>)
    requires |text| < 0x1_0000_0000
    ensures ParseInput(InputBytes(epoch, e, text)) == Some(Input(epoch, e, text))
  {
    hide LittleEndian, FromLittleEndian, Long, EventOf, BytesOfEvent;
    var s := InputBytes(epoch, e, text);
    assert s[..8] == LittleEndian(epoch, 8) && s[8..136] == BytesOfEvent(e);
    assert s[136..140] == LittleEndian(|text|, 4) && s[INPUT_SIZE..] == text;
    LongRoundTrip(epoch);
    EventRoundTrip(e);
    Widths();
    LittleEndianRoundTrip(|text|, 4);
  }

  // ---- Packets ----

  function Payload(p: Packet): (s: seq<byte>)
    ensures |s| == Size(p)
  {
    match p
    case Configure(config) => ConfigBytes(config)
    case Input(epoch, event, text) => InputBytes(epoch, event, text)
    case Other(_, payload) => payload
  }

  /** The packet that a payload of a type is; None when its size cannot be right. */
  function Parse(kind: nat, s: seq<byte>): Option<Packet> {
    if kind == CONFIGURE then
      if |s| != CONFIGURE_SIZE then None
      else
        match ParseConfig(s)
        case None => None
        case Some(config) => Some(Configure(config))
    else if kind == INPUT then if |s| < INPUT_SIZE then None else ParseInput(s)
    else Some(Other(kind, s))
  }

  /** Every packet that fits is read back as it was sent. */
  lemma PacketRoundTrip(p: Packet)
    requires Fits(p)
    ensures Parse(TypeOf(p), Payload(p)) == Some(p)
  {
    hide ConfigBytes, ParseConfig, InputBytes, ParseInput;
    match p
    case Configure(config) => ConfigRoundTrip(config);
    case Input(epoch, event, text) => InputRoundTrip(epoch, event, text);
    case Other(_, _) =>
  }
}
