/**
 * The Open Pixel Control server: a resumable decoder that drains the bytes
 * a TCP client has delivered, validates each message header, writes
 * accepted payloads into one strip of the frame buffer and coalesces
 * hardware refreshes so that a multi-channel frame is shown once.
 *
 * `Poll` is one call of `read_available` as a function of the decoder's
 * globals; the `Decoder` class holds those globals and its method
 * `ReadAvailable` is proved to compute `Poll`. The lemmas `PollFraming`,
 * `PollPixels` and `PollShows` relate `Poll` to the framing `Split` of the
 * bytes read since the client connected.
 */
module OpenPixelControl {
  import opened Board
  import opened Color
  import opened Led
  import opened OpcFraming

  /** The colour of pixel `i` as read from a payload buffer of RGB triples. */
  function RgbAt(buf: seq<byte>, i: nat): (c: int)
    requires 3 * i + 2 < |buf|
    ensures RedOf(c) == buf[3 * i] && GreenOf(c) == buf[3 * i + 1] && BlueOf(c) == buf[3 * i + 2]
  {
    MakeColorRgb(buf[3 * i], buf[3 * i + 1], buf[3 * i + 2])
  }

  /**
   * `p` is `p0` with every pixel of strip `strip` repainted from the RGB
   * triples of `buf`, and every other strip left as it was.
   */
  predicate StripFrom(p: seq<int>, p0: seq<int>, strip: nat, buf: seq<byte>)
    requires |p| == NUM_PIXELS && |p0| == NUM_PIXELS && strip < NUM_STRIPS && |buf| == MAX_PAYLOAD
  {
    && (forall i :: 0 <= i < LEDS_PER_STRIP ==> p[PixelIndex(strip, i)] == RgbAt(buf, i))
    && (forall k :: 0 <= k < NUM_PIXELS && k / LEDS_PER_STRIP != strip ==> p[k] == p0[k])
  }

  /** The frame buffer after the pixel loop of lines 223-226 on strip `strip`. */
  function Repaint(p: seq<int>, strip: nat, buf: seq<byte>): (r: seq<int>)
    requires |p| == NUM_PIXELS && strip < NUM_STRIPS && |buf| == MAX_PAYLOAD
    ensures |r| == NUM_PIXELS
  {
    seq(NUM_PIXELS, k requires 0 <= k < NUM_PIXELS =>
      if k / LEDS_PER_STRIP == strip then RgbAt(buf, k % LEDS_PER_STRIP) else p[k])
  }

  /** Repainting a strip sets each of its pixels from its RGB triple and keeps every other strip. */
  lemma RepaintStrip(p: seq<int>, strip: nat, buf: seq<byte>)
    requires |p| == NUM_PIXELS && strip < NUM_STRIPS && |buf| == MAX_PAYLOAD
    ensures StripFrom(Repaint(p, strip, buf), p, strip, buf)
  {
  }

  /** Conversely, a frame buffer that repaints the strip and keeps every other strip is the repaint. */
  lemma RepaintUnique(p: seq<int>, p0: seq<int>, strip: nat, buf: seq<byte>)
    requires |p| == NUM_PIXELS && |p0| == NUM_PIXELS && strip < NUM_STRIPS && |buf| == MAX_PAYLOAD
    requires StripFrom(p, p0, strip, buf)
    ensures p == Repaint(p0, strip, buf)
  {
    forall k | 0 <= k < NUM_PIXELS
      ensures p[k] == Repaint(p0, strip, buf)[k]
    {
      if k / LEDS_PER_STRIP == strip {
        assert k == PixelIndex(strip, k % LEDS_PER_STRIP);
      }
    }
  }

  /** What the decoder changes in the LED module. */
  datatype Screen = Screen(pixels: seq<int>, shows: nat, frames: u32, frameStart: u32)

  /** The decoder's globals and the LED state it drives. */
  datatype DecoderState = DecoderState(
    ixHeader: nat, rgHeader: seq<byte>, ixRGB: nat,
    channel: byte, command: byte, cbMessage: u16, throwAway: bool,
    highest: byte, needToShow: bool, readBuffer: seq<byte>, screen: Screen)

  predicate Shaped(d: DecoderState)
  {
    |d.rgHeader| == HEADER_SIZE && |d.readBuffer| == MAX_PAYLOAD && |d.screen.pixels| == NUM_PIXELS
  }

  /**
   * The state between two calls: a header partly read, or a message body
   * partly read; a body being kept belongs to a valid strip and fits the buffer.
   */
  predicate Sane(d: DecoderState)
  {
    && Shaped(d) && d.ixHeader <= HEADER_SIZE
    && (d.ixHeader < HEADER_SIZE ==> d.ixRGB == 0)
    && (d.ixHeader == HEADER_SIZE ==> d.ixRGB < d.cbMessage)
    && (d.ixHeader == HEADER_SIZE && !d.throwAway ==>
          1 <= d.channel <= NUM_STRIPS && d.cbMessage <= MAX_PAYLOAD)
  }

  /** The bytes a call read from `input`, given what it left unread. */
  function Consumed(input: seq<byte>, rest: seq<byte>): seq<byte>
    requires |rest| <= |input|
  {
    input[..|input| - |rest|]
  }

  /**
   * Lines 130-162: decode the header bytes into (channel, command, length)
   * and check them in the source's order: a command other than set-pixels,
   * then a channel outside 1..NUM_STRIPS (forced to 1), then a payload longer
   * than one strip. The cascade keeps the channel `EffectiveChannel` gives
   * and throws the message away exactly when it is not `Accepted`.
   */
  function CheckHeader(b0: byte, b1: byte, b2: byte, b3: byte): (r: (byte, byte, u16, bool))
    ensures var h := ParseHeader([b0, b1, b2, b3]);
      r == (EffectiveChannel(h), h.command, h.length, !Accepted(h))
  {
    var channel := b0;
    var command := b1;
    var cbMessage := (b2 as int) * 256 + b3;
    if command != 0 then (channel, command, cbMessage, true)
    else if channel < 1 || channel > NUM_STRIPS then (1, command, cbMessage, true)
    else if cbMessage > MAX_PAYLOAD then (channel, command, cbMessage, true)
    else (channel, command, cbMessage, false)
  }

  /** Lines 130-168: decode a complete header, validate it and update the coalescing state. */
  function Validate(d: DecoderState): (r: DecoderState)
    requires |d.rgHeader| == HEADER_SIZE
    ensures var h := ParseHeader(d.rgHeader);
      && r.cbMessage == h.length && r.command == h.command
      && r.channel == EffectiveChannel(h) && r.throwAway == !Accepted(h)
      && (r.highest, r.needToShow) == AfterHeader(d.highest, d.needToShow, r.channel)
      && r.ixRGB == 0 && r.ixHeader == d.ixHeader && r.rgHeader == d.rgHeader
      && r.readBuffer == d.readBuffer && r.screen == d.screen
  {
    var v := CheckHeader(d.rgHeader[0], d.rgHeader[1], d.rgHeader[2], d.rgHeader[3]);
    var coalesced := AfterHeader(d.highest, d.needToShow, v.0);
    d.(channel := v.0, command := v.1, cbMessage := v.2, ixRGB := 0,
       throwAway := v.3, highest := coalesced.0, needToShow := coalesced.1)
  }

  /** Lines 111-170: read as much of the header as is missing and available. */
  function HeaderStep(d: DecoderState, input: seq<byte>): (r: (DecoderState, seq<byte>))
    requires Shaped(d) && d.ixHeader < HEADER_SIZE && input != []
    ensures Shaped(r.0) && d.ixHeader < r.0.ixHeader <= HEADER_SIZE
    ensures |r.1| < |input| && r.1 == input[|input| - |r.1|..]
    ensures r.0.ixHeader < HEADER_SIZE ==> r.1 == []
  {
    var n := Min(HEADER_SIZE - d.ixHeader, |input|);
    var d1 := d.(ixHeader := d.ixHeader + n,
                 rgHeader := d.rgHeader[..d.ixHeader] + input[..n] + d.rgHeader[d.ixHeader + n..]);
    if d1.ixHeader < HEADER_SIZE then (d1, input[n..]) else (Validate(d1), input[n..])
  }

  /** Lines 232-236: one hardware refresh and one frame counted. */
  function Refreshed(d: DecoderState, now: u32): (r: DecoderState)
    ensures !r.needToShow && r.screen.shows == d.screen.shows + 1 && r.screen.pixels == d.screen.pixels
    ensures (r.screen.frames, r.screen.frameStart) == FrameRateStep(d.screen.frames, d.screen.frameStart, now)
    ensures r.(needToShow := d.needToShow, screen := d.screen) == d
  {
    var fr := FrameRateStep(d.screen.frames, d.screen.frameStart, now);
    d.(needToShow := false, screen := d.screen.(shows := d.screen.shows + 1, frames := fr.0, frameStart := fr.1))
  }

  /**
   * Lines 176-238, with the header complete: an empty message ends at once;
   * otherwise read what the message still needs of what is available, drop
   * it or store it and repaint the strip, and close the message at its end.
   */
  function BodyStep(d: DecoderState, input: seq<byte>, now: u32): (r: (DecoderState, seq<byte>))
    requires Shaped(d) && d.ixHeader == HEADER_SIZE
    requires d.cbMessage > 0 ==> d.ixRGB < d.cbMessage
    requires !d.throwAway ==> 1 <= d.channel <= NUM_STRIPS && d.cbMessage <= MAX_PAYLOAD
    ensures Sane(r.0)
    ensures |r.1| <= |input| && r.1 == input[|input| - |r.1|..]
  {
    if d.cbMessage == 0 then (d.(ixHeader := 0, ixRGB := 0, rgHeader := [0, 0, 0, 0]), input)
    else if input == [] then (d, input)
    else
      var k := Min(|input|, d.cbMessage - d.ixRGB);
      if d.throwAway then
        var d1 := d.(ixRGB := d.ixRGB + k);
        (if d1.ixRGB >= d.cbMessage then d1.(ixHeader := 0, ixRGB := 0) else d1, input[k..])
      else
        var buf := d.readBuffer[..d.ixRGB] + input[..k] + d.readBuffer[d.ixRGB + k..];
        var d1 := d.(readBuffer := buf, ixRGB := d.ixRGB + k,
                     screen := d.screen.(pixels := Repaint(d.screen.pixels, d.channel - 1, buf)));
        if d1.ixRGB < d.cbMessage then (d1, input[k..])
        else if d.needToShow then (Refreshed(d1, now).(ixHeader := 0, ixRGB := 0), input[k..])
        else (d1.(ixHeader := 0, ixRGB := 0), input[k..])
  }

  /** `read_available` (lines 104-239) on the bytes `input` the client has delivered. */
  function Poll(d: DecoderState, input: seq<byte>, now: u32): (r: (DecoderState, seq<byte>))
    requires Sane(d)
    ensures Sane(r.0)
    ensures |r.1| <= |input| && r.1 == input[|input| - |r.1|..]
    ensures input == [] ==> r == (d, input)
    ensures input != [] ==> |r.1| < |input|
  {
    if input == [] then (d, input)
    else if d.ixHeader < HEADER_SIZE then
      var h := HeaderStep(d, input);
      if h.0.ixHeader < HEADER_SIZE then h else BodyStep(h.0, h.1, now)
    else BodyStep(d, input, now)
  }

  /**
   * The decoder state agrees with the framing `f` of the bytes read so far:
   * the pending header bytes sit at the front of `rgHeader`; for a message
   * body, the decoded header, the validation outcome and the count of body
   * bytes read are those of the pending message, and a kept body's bytes
   * sit at the front of `read_buffer`. The highest channel is the largest
   * effective channel of every header read.
   */
  predicate Agrees(d: DecoderState, f: Framing)
  {
    && Shaped(d) && d.ixHeader <= HEADER_SIZE && WellFormed(f)
    && d.highest == MaxChannel(HeadersSeen(f))
    && match f.pending
       case InHeader(h) =>
         d.ixHeader == |h| && d.rgHeader[..d.ixHeader] == h && d.ixRGB == 0
       case InPayload(hd, got) =>
         && d.ixHeader == HEADER_SIZE && d.ixRGB == |got| && d.cbMessage == hd.length
         && d.command == hd.command && d.channel == EffectiveChannel(hd)
         && d.throwAway == !Accepted(hd)
         && (Accepted(hd) ==> d.readBuffer[..d.ixRGB] == got)
  }

  /** The decoder state agrees with the framing of the stream `s` read since the client connected. */
  ghost predicate Tracks(d: DecoderState, s: seq<byte>)
  {
    Agrees(d, Split(s))
  }

  /** Lines 69-79: once a client connects, the reset globals agree with the empty stream. */
  /** Lines 69-79: what a new connection resets: the header state and the highest channel seen. */
  function Reset(d: DecoderState): (r: DecoderState)
    ensures r.ixHeader == 0 && r.ixRGB == 0 && r.highest == 0 && r.rgHeader == [0, 0, 0, 0]
    ensures r.readBuffer == d.readBuffer && r.screen == d.screen && r.cbMessage == d.cbMessage
  {
    d.(ixHeader := 0, ixRGB := 0, highest := 0, rgHeader := [0, 0, 0, 0])
  }

  lemma Restarted(d: DecoderState)
    requires Shaped(d) && d.ixHeader == 0 && d.ixRGB == 0 && d.highest == 0
    ensures Tracks(d, [])
  {
    assert Split([]) == Framing([], InHeader([]));
  }

  /** The scalars `ValidateHeader` sets are those of `Validate`; nothing else changes. */
  lemma ValidateIs(d: DecoderState, r: DecoderState)
    requires |d.rgHeader| == HEADER_SIZE
    requires var h := ParseHeader(d.rgHeader);
      && r.channel == EffectiveChannel(h) && r.command == h.command && r.cbMessage == h.length
      && r.throwAway == !Accepted(h) && r.ixRGB == 0
      && (r.highest, r.needToShow) == AfterHeader(d.highest, d.needToShow, r.channel)
    requires r.ixHeader == d.ixHeader && r.rgHeader == d.rgHeader
    requires r.readBuffer == d.readBuffer && r.screen == d.screen
    ensures r == Validate(d)
  {
  }

  /** A poll that completes the header and goes on to the body is `HeaderStep` then `BodyStep`. */
  lemma HeaderThenBodyStep(d: DecoderState, input: seq<byte>, h: DecoderState, rest: seq<byte>,
                           r: (DecoderState, seq<byte>), now: u32)
    requires Sane(d) && input != [] && d.ixHeader < HEADER_SIZE
    requires (h, rest) == HeaderStep(d, input) && h.ixHeader == HEADER_SIZE
    requires h.cbMessage > 0 ==> h.ixRGB < h.cbMessage
    requires !h.throwAway ==> 1 <= h.channel <= NUM_STRIPS && h.cbMessage <= MAX_PAYLOAD
    requires r == BodyStep(h, rest, now)
    ensures r == Poll(d, input, now)
    ensures |r.1| <= |input| && Consumed(input, r.1) == Consumed(input, rest) + Consumed(rest, r.1)
  {
    ConsumedTwice(input, rest, r.1);
  }

  lemma AgreesSane(d: DecoderState, f: Framing)
    requires Agrees(d, f)
    ensures Sane(d)
  {
  }

  lemma AppendTwice(s: seq<byte>, b: seq<byte>, c: seq<byte>, bc: seq<byte>)
    requires bc == b + c
    ensures s + bc == (s + b) + c
  {
  }

  /** Reading `b` then `c` from what `b` left consumes the concatenation. */
  lemma ConsumedTwice(a: seq<byte>, b: seq<byte>, c: seq<byte>)
    requires |b| <= |a| && b == a[|a| - |b|..]
    requires |c| <= |b| && c == b[|b| - |c|..]
    ensures Consumed(a, c) == Consumed(a, b) + Consumed(b, c)
  {
    assert a == Consumed(a, b) + b;
    assert b == Consumed(b, c) + c;
  }

  // The body phase, case by case.

  /** The body phase reads what the message still needs of what is available: at least one byte. */
  lemma BodyConsumed(d: DecoderState, f: Framing, input: seq<byte>, now: u32)
    requires Agrees(d, f) && d.ixHeader == HEADER_SIZE && input != []
    ensures var pb := Consumed(input, BodyStep(d, input, now).1);
      && f.pending.InPayload? && Fits(f, pb) && pb != []
      && pb == input[..Min(|input|, f.pending.header.length - |f.pending.got|)]
  {
    var k := Min(|input|, d.cbMessage - d.ixRGB);
    assert Consumed(input, BodyStep(d, input, now).1) == input[..k];
  }

  /**
   * The state after body bytes `pb` agrees with the fed framing when it
   * closed the message exactly at its end, or else kept the message's
   * fields and counted the bytes, a kept body's bytes following the earlier ones.
   */
  lemma AgreesAfterBody(d: DecoderState, r: DecoderState, f: Framing, pb: seq<byte>)
    requires Agrees(d, f) && f.pending.InPayload? && Fits(f, pb)
    requires Shaped(r) && r.highest == d.highest
    requires |f.pending.got| + |pb| == f.pending.header.length ==> r.ixHeader == 0 && r.ixRGB == 0
    requires |f.pending.got| + |pb| < f.pending.header.length ==>
      && r.ixHeader == HEADER_SIZE && r.ixRGB == d.ixRGB + |pb| && r.cbMessage == d.cbMessage
      && r.command == d.command && r.channel == d.channel && r.throwAway == d.throwAway
      && (!d.throwAway ==> r.readBuffer[..r.ixRGB] == f.pending.got + pb)
    ensures Agrees(r, Feed(f, pb))
  {
    var hd, got := f.pending.header, f.pending.got;
    var g := Feed(f, pb);
    if |got| + |pb| == hd.length {
      assert HeadersSeen(g) == HeadersSeen(f) by {
        assert g.messages[|f.messages|].header == hd;
      }
      assert WellFormed(g) by {
        forall i | 0 <= i < |g.messages| ensures |g.messages[i].payload| == g.messages[i].header.length {
          if i < |f.messages| { assert g.messages[i] == f.messages[i]; }
        }
      }
    } else {
      assert HeadersSeen(g) == HeadersSeen(f);
    }
  }

  lemma DiscardAgrees(d: DecoderState, f: Framing, input: seq<byte>, now: u32)
    requires Agrees(d, f) && d.ixHeader == HEADER_SIZE && input != [] && d.throwAway
    requires Fits(f, Consumed(input, BodyStep(d, input, now).1))
    ensures Agrees(BodyStep(d, input, now).0, Feed(f, Consumed(input, BodyStep(d, input, now).1)))
  {
    BodyConsumed(d, f, input, now);
    var r := BodyStep(d, input, now);
    AgreesAfterBody(d, r.0, f, Consumed(input, r.1));
  }

  /** A discarded body changes nothing but the read count. */
  lemma DiscardEffects(d: DecoderState, input: seq<byte>, now: u32)
    requires Sane(d) && d.ixHeader == HEADER_SIZE && input != [] && d.throwAway
    ensures var r := BodyStep(d, input, now).0;
      r.screen == d.screen && r.needToShow == d.needToShow && r.highest == d.highest
  {
  }

  lemma KeepAgrees(d: DecoderState, f: Framing, input: seq<byte>, now: u32)
    requires Agrees(d, f) && d.ixHeader == HEADER_SIZE && input != [] && !d.throwAway
    requires Fits(f, Consumed(input, BodyStep(d, input, now).1))
    ensures Agrees(BodyStep(d, input, now).0, Feed(f, Consumed(input, BodyStep(d, input, now).1)))
  {
    BodyConsumed(d, f, input, now);
    KeepBuffer(d, f, input, now);
    var r := BodyStep(d, input, now);
    AgreesAfterBody(d, r.0, f, Consumed(input, r.1));
  }

  /** A kept body's bytes follow the ones already read at the front of `read_buffer`. */
  lemma KeepBuffer(d: DecoderState, f: Framing, input: seq<byte>, now: u32)
    requires Agrees(d, f) && d.ixHeader == HEADER_SIZE && input != [] && !d.throwAway
    ensures var r := BodyStep(d, input, now);
      var pb := Consumed(input, r.1);
      f.pending.InPayload? && |f.pending.got| + |pb| <= MAX_PAYLOAD
      && r.0.readBuffer[..|f.pending.got| + |pb|] == f.pending.got + pb
  {
    BodyConsumed(d, f, input, now);
    var r := BodyStep(d, input, now);
    var pb := Consumed(input, r.1);
    assert r.0.readBuffer[..|f.pending.got| + |pb|] == f.pending.got + pb;
  }

  lemma KeepEffects(d: DecoderState, input: seq<byte>, now: u32)
    requires Sane(d) && d.ixHeader == HEADER_SIZE && input != [] && !d.throwAway
    ensures var r := BodyStep(d, input, now);
      var done := r.0.ixHeader == 0;
      var shown := done && d.needToShow;
      && r.0.screen.pixels == Repaint(d.screen.pixels, d.channel - 1, r.0.readBuffer)
      && r.0.highest == d.highest
      && r.0.needToShow == (d.needToShow && !done)
      && r.0.screen.shows == d.screen.shows + (if shown then 1 else 0)
      && (r.0.screen.frames, r.0.screen.frameStart)
           == (if shown then FrameRateStep(d.screen.frames, d.screen.frameStart, now)
               else (d.screen.frames, d.screen.frameStart))
  {
  }

  /** The body phase closes the message exactly when it has read `length` bytes. */
  lemma BodyCloses(d: DecoderState, f: Framing, input: seq<byte>, now: u32)
    requires Agrees(d, f) && d.ixHeader == HEADER_SIZE && input != []
    ensures var r := BodyStep(d, input, now);
      var pb := Consumed(input, r.1);
      f.pending.InPayload?
      && (r.0.ixHeader == 0 <==> |f.pending.got| + |pb| == f.pending.header.length)
      && (r.1 != [] ==> r.0.ixHeader == 0)
  {
    BodyConsumed(d, f, input, now);
  }

  // The header phase, case by case.

  /** A header step reads exactly as many bytes as `ixHeader` grows by: at most the 4 - ixHeader missing. */
  lemma HeaderCount(d: DecoderState, input: seq<byte>)
    requires Shaped(d) && d.ixHeader < HEADER_SIZE && input != []
    ensures var h := HeaderStep(d, input);
      |input| - |h.1| == h.0.ixHeader - d.ixHeader <= HEADER_SIZE - d.ixHeader
  {
  }

  lemma HeaderRead(d: DecoderState, f: Framing, input: seq<byte>)
    requires Agrees(d, f) && d.ixHeader < HEADER_SIZE && input != []
    ensures var h := HeaderStep(d, input);
      var hb := Consumed(input, h.1);
      && f.pending.InHeader? && Fits(f, hb)
      && hb == input[..Min(HEADER_SIZE - |f.pending.bytes|, |input|)]
      && h.0.rgHeader[..h.0.ixHeader] == f.pending.bytes + hb
      && h.0.screen == d.screen && h.0.readBuffer == d.readBuffer
  {
    var h := HeaderStep(d, input);
    var n := Min(HEADER_SIZE - d.ixHeader, |input|);
    assert Consumed(input, h.1) == input[..n];
  }

  lemma HeaderPartial(d: DecoderState, f: Framing, input: seq<byte>)
    requires Agrees(d, f) && d.ixHeader < HEADER_SIZE && input != []
    requires HeaderStep(d, input).0.ixHeader < HEADER_SIZE
    ensures var h := HeaderStep(d, input);
      var hb := Consumed(input, h.1);
      && Fits(f, hb) && Agrees(h.0, Feed(f, hb))
      && h.0.highest == d.highest && h.0.needToShow == d.needToShow
  {
    HeaderRead(d, f, input);
  }

  lemma HeaderComplete(d: DecoderState, f: Framing, input: seq<byte>)
    requires Agrees(d, f) && d.ixHeader < HEADER_SIZE && input != []
    requires HeaderStep(d, input).0.ixHeader == HEADER_SIZE
    ensures var h := HeaderStep(d, input);
      var hb := Consumed(input, h.1);
      && Fits(f, hb)
      && |f.pending.bytes + hb| == HEADER_SIZE && h.0.rgHeader == f.pending.bytes + hb
      && var hd := ParseHeader(f.pending.bytes + hb);
      && (h.0.highest, h.0.needToShow) == AfterHeader(d.highest, d.needToShow, EffectiveChannel(hd))
      && h.0.highest == MaxChannel(HeadersSeen(f) + [hd])
      && h.0.cbMessage == hd.length && h.0.command == hd.command
      && h.0.channel == EffectiveChannel(hd) && h.0.throwAway == !Accepted(hd) && h.0.ixRGB == 0
  {
    HeaderRead(d, f, input);
    var h := HeaderStep(d, input);
    var hb := Consumed(input, h.1);
    var hd := ParseHeader(f.pending.bytes + hb);
    MaxChannelSnoc(HeadersSeen(f), hd, d.needToShow);
  }

  lemma HeaderOpensBody(d: DecoderState, f: Framing, input: seq<byte>)
    requires Agrees(d, f) && d.ixHeader < HEADER_SIZE && input != []
    requires HeaderStep(d, input).0.ixHeader == HEADER_SIZE && HeaderStep(d, input).0.cbMessage > 0
    ensures var h := HeaderStep(d, input);
      var hb := Consumed(input, h.1);
      Fits(f, hb) && Agrees(h.0, Feed(f, hb))
  {
    HeaderComplete(d, f, input);
    var h := HeaderStep(d, input);
    var hb := Consumed(input, h.1);
    var hd := ParseHeader(f.pending.bytes + hb);
    assert HeadersSeen(Feed(f, hb)) == HeadersSeen(f) + [hd];
  }

  lemma HeaderEmptyMessage(d: DecoderState, f: Framing, input: seq<byte>, now: u32)
    requires Agrees(d, f) && d.ixHeader < HEADER_SIZE && input != []
    requires HeaderStep(d, input).0.ixHeader == HEADER_SIZE && HeaderStep(d, input).0.cbMessage == 0
    ensures var h := HeaderStep(d, input);
      var hb := Consumed(input, h.1);
      var r := BodyStep(h.0, h.1, now);
      && Fits(f, hb) && r.1 == h.1 && Agrees(r.0, Feed(f, hb))
      && r.0.screen == d.screen && r.0.readBuffer == d.readBuffer
      && r.0.highest == h.0.highest && r.0.needToShow == h.0.needToShow
  {
    HeaderComplete(d, f, input);
    HeaderRead(d, f, input);
    var h := HeaderStep(d, input);
    var hb := Consumed(input, h.1);
    var hd := ParseHeader(f.pending.bytes + hb);
    var g := Feed(f, hb);
    assert HeadersSeen(g) == HeadersSeen(f) + [hd];
    assert WellFormed(g) by {
      forall i | 0 <= i < |g.messages| ensures |g.messages[i].payload| == g.messages[i].header.length {
        if i < |f.messages| { assert g.messages[i] == f.messages[i]; }
      }
    }
  }

  // How the framing moves during one call, from `b` before it to `a` after it.

  /** The call completed one more message. */
  predicate Completed(b: Framing, a: Framing)
  {
    |a.messages| == |b.messages| + 1
  }

  function GotOf(p: Pending): seq<byte>
  {
    if p.InPayload? then p.got else []
  }

  /** The header of the message the call ended in or just completed, if its header is complete. */
  function Current(b: Framing, a: Framing): Option<Header>
  {
    if Completed(b, a) then Some(a.messages[|a.messages| - 1].header)
    else if a.pending.InPayload? then Some(a.pending.header)
    else None
  }

  /** The call completed a header. */
  predicate HeaderArrived(b: Framing, a: Framing)
  {
    b.pending.InHeader? && Current(b, a).Some?
  }

  /** The call read at least one payload byte. */
  predicate PayloadArrived(b: Framing, a: Framing)
  {
    if Completed(b, a) then |a.messages[|a.messages| - 1].payload| > |GotOf(b.pending)|
    else a.pending.InPayload? && |a.pending.got| > |GotOf(b.pending)|
  }

  /** The (highest channel, refresh due) pair once the call's header, if any, is processed. */
  function Coalesced(b: Framing, a: Framing, highest: byte, needToShow: bool): (byte, bool)
  {
    if HeaderArrived(b, a) then AfterHeader(highest, needToShow, EffectiveChannel(Current(b, a).value))
    else (highest, needToShow)
  }

  /** The call completed an accepted, non-empty message while a refresh was due. */
  predicate Shows(b: Framing, a: Framing, due: bool)
  {
    && Completed(b, a) && Accepted(Current(b, a).value)
    && Current(b, a).value.length > 0 && due
  }

  /** At most one message completes, earlier ones are kept, and the call stops at the end of one it completes. */
  predicate Moves(b: Framing, a: Framing)
  {
    && |b.messages| <= |a.messages| <= |b.messages| + 1
    && a.messages[..|b.messages|] == b.messages
    && (Completed(b, a) ==> a.pending == InHeader([]))
  }

  /**
   * A call that read body bytes of an accepted message repaints that
   * message's strip from `read_buffer` (d before the call, r after it), and
   * no other call touches the pixels; a completed accepted message sits at
   * the front of `read_buffer`.
   */
  predicate PixelsMove(d: DecoderState, r: DecoderState, b: Framing, a: Framing)
    requires Shaped(d) && Shaped(r)
  {
    && (if PayloadArrived(b, a) && Current(b, a).Some? && Accepted(Current(b, a).value)
        then r.screen.pixels == Repaint(d.screen.pixels, Current(b, a).value.channel - 1, r.readBuffer)
        else r.screen.pixels == d.screen.pixels)
    && (Completed(b, a) && Accepted(Current(b, a).value) ==>
          var m := a.messages[|a.messages| - 1];
          |m.payload| <= MAX_PAYLOAD && r.readBuffer[..|m.payload|] == m.payload)
  }

  /**
   * The coalescing state follows the header the call read, if any, and a
   * refresh (with a frame counted) happens exactly when an accepted,
   * non-empty message completes while one is due.
   */
  predicate ShowsMove(d: DecoderState, r: DecoderState, b: Framing, a: Framing, now: u32)
  {
    var c := Coalesced(b, a, d.highest, d.needToShow);
    var shown := Shows(b, a, c.1);
    && r.highest == c.0 && r.needToShow == (c.1 && !shown)
    && r.screen.shows == d.screen.shows + (if shown then 1 else 0)
    && (r.screen.frames, r.screen.frameStart)
         == (if shown then FrameRateStep(d.screen.frames, d.screen.frameStart, now)
             else (d.screen.frames, d.screen.frameStart))
  }

  /** One call, from state `d` and framing `b` to the result `r` and framing `a`. */
  predicate StepTo(d: DecoderState, b: Framing, r: (DecoderState, seq<byte>), a: Framing, now: u32)
    requires Shaped(d) && Shaped(r.0)
  {
    && Agrees(r.0, a) && Moves(b, a) && (r.1 != [] ==> Completed(b, a))
    && PixelsMove(d, r.0, b, a) && ShowsMove(d, r.0, b, a, now)
  }

  /** How feeding body bytes moves the framing. */
  lemma FeedPayloadShape(f: Framing, pb: seq<byte>)
    requires WellFormed(f) && f.pending.InPayload? && Fits(f, pb)
    ensures var a, hd, got := Feed(f, pb), f.pending.header, f.pending.got;
      && Moves(f, a) && !HeaderArrived(f, a) && Current(f, a) == Some(hd)
      && (Completed(f, a) <==> |got| + |pb| == hd.length)
      && (PayloadArrived(f, a) <==> pb != [])
      && (Completed(f, a) ==> a.messages[|a.messages| - 1] == Message(hd, got + pb))
  {
    var a := Feed(f, pb);
    assert a.messages[..|f.messages|] == f.messages;
  }

  lemma CaseBodyMoves(d: DecoderState, f: Framing, input: seq<byte>, now: u32)
    requires Agrees(d, f) && d.ixHeader == HEADER_SIZE && input != []
    ensures var r := BodyStep(d, input, now);
      var pb := Consumed(input, r.1);
      && Fits(f, pb) && Agrees(r.0, Feed(f, pb)) && Moves(f, Feed(f, pb))
      && (r.1 != [] ==> Completed(f, Feed(f, pb)))
  {
    BodyConsumed(d, f, input, now);
    BodyCloses(d, f, input, now);
    if d.throwAway {
      DiscardAgrees(d, f, input, now);
    } else {
      KeepAgrees(d, f, input, now);
    }
    FeedPayloadShape(f, Consumed(input, BodyStep(d, input, now).1));
  }

  lemma KeepPixels(d: DecoderState, f: Framing, input: seq<byte>, now: u32)
    requires Agrees(d, f) && d.ixHeader == HEADER_SIZE && input != [] && !d.throwAway
    ensures var r := BodyStep(d, input, now);
      var pb := Consumed(input, r.1);
      Fits(f, pb) && PixelsMove(d, r.0, f, Feed(f, pb))
  {
    BodyConsumed(d, f, input, now);
    KeepBuffer(d, f, input, now);
    KeepEffects(d, input, now);
    var r := BodyStep(d, input, now);
    var pb := Consumed(input, r.1);
    FeedPayloadShape(f, pb);
    var a, hd := Feed(f, pb), f.pending.header;
    assert Accepted(hd) && d.channel == hd.channel;
    if Completed(f, a) {
      assert a.messages[|a.messages| - 1].payload == f.pending.got + pb;
    }
  }

  lemma DiscardPixels(d: DecoderState, f: Framing, input: seq<byte>, now: u32)
    requires Agrees(d, f) && d.ixHeader == HEADER_SIZE && input != [] && d.throwAway
    ensures var r := BodyStep(d, input, now);
      var pb := Consumed(input, r.1);
      Fits(f, pb) && PixelsMove(d, r.0, f, Feed(f, pb))
  {
    BodyConsumed(d, f, input, now);
    DiscardEffects(d, input, now);
    FeedPayloadShape(f, Consumed(input, BodyStep(d, input, now).1));
  }

  lemma CaseBodyPixels(d: DecoderState, f: Framing, input: seq<byte>, now: u32)
    requires Agrees(d, f) && d.ixHeader == HEADER_SIZE && input != []
    ensures var r := BodyStep(d, input, now);
      var pb := Consumed(input, r.1);
      Fits(f, pb) && PixelsMove(d, r.0, f, Feed(f, pb))
  {
    if d.throwAway {
      DiscardPixels(d, f, input, now);
    } else {
      KeepPixels(d, f, input, now);
    }
  }

  lemma CaseBodyShows(d: DecoderState, f: Framing, input: seq<byte>, now: u32)
    requires Agrees(d, f) && d.ixHeader == HEADER_SIZE && input != []
    ensures var r := BodyStep(d, input, now);
      var pb := Consumed(input, r.1);
      Fits(f, pb) && ShowsMove(d, r.0, f, Feed(f, pb), now)
  {
    BodyConsumed(d, f, input, now);
    BodyCloses(d, f, input, now);
    if d.throwAway {
      DiscardEffects(d, input, now);
    } else {
      KeepEffects(d, input, now);
    }
    FeedPayloadShape(f, Consumed(input, BodyStep(d, input, now).1));
  }

  lemma CaseBodyF(d: DecoderState, f: Framing, input: seq<byte>, now: u32)
    requires Agrees(d, f) && d.ixHeader == HEADER_SIZE && input != []
    ensures var r := BodyStep(d, input, now);
      var pb := Consumed(input, r.1);
      Fits(f, pb) && StepTo(d, f, r, Feed(f, pb), now)
  {
    CaseBodyMoves(d, f, input, now);
    CaseBodyPixels(d, f, input, now);
    CaseBodyShows(d, f, input, now);
  }

  lemma CaseHeaderPartial(d: DecoderState, f: Framing, input: seq<byte>, now: u32)
    requires Agrees(d, f) && d.ixHeader < HEADER_SIZE && input != []
    requires HeaderStep(d, input).0.ixHeader < HEADER_SIZE
    ensures var h := HeaderStep(d, input);
      var hb := Consumed(input, h.1);
      Fits(f, hb) && StepTo(d, f, h, Feed(f, hb), now)
  {
    HeaderRead(d, f, input);
    HeaderPartial(d, f, input);
  }

  lemma CaseHeaderEmpty(d: DecoderState, f: Framing, input: seq<byte>, now: u32)
    requires Agrees(d, f) && d.ixHeader < HEADER_SIZE && input != []
    requires HeaderStep(d, input).0.ixHeader == HEADER_SIZE && HeaderStep(d, input).0.cbMessage == 0
    ensures var h := HeaderStep(d, input);
      var hb := Consumed(input, h.1);
      var r := BodyStep(h.0, h.1, now);
      Fits(f, hb) && Consumed(input, r.1) == hb && StepTo(d, f, r, Feed(f, hb), now)
  {
    HeaderEmptyMessage(d, f, input, now);
    HeaderComplete(d, f, input);
    var h := HeaderStep(d, input);
    var hb := Consumed(input, h.1);
    var a := Feed(f, hb);
    assert a.messages[..|f.messages|] == f.messages;
  }

  /** With nothing left to read, a call in a message body changes nothing. */
  lemma BodyIdle(d: DecoderState, f: Framing, now: u32)
    requires Agrees(d, f) && d.ixHeader == HEADER_SIZE && d.cbMessage > 0
    ensures var r := BodyStep(d, [], now);
      && r == (d, []) && Fits(f, []) && Feed(f, []) == f && StepTo(d, f, r, f, now)
  {
    assert f.pending.got + [] == f.pending.got;
    CaseIdle(d, f, now);
  }

  /** A header read and then body bytes read in the same call: the two steps compose. */
  lemma Compose(d: DecoderState, f: Framing, h: DecoderState, f1: Framing, r: (DecoderState, seq<byte>), a: Framing, now: u32)
    requires Shaped(d) && Shaped(h) && Shaped(r.0)
    requires f.pending.InHeader? && f1.messages == f.messages && f1.pending.InPayload? && f1.pending.got == []
    requires h.screen == d.screen
    requires (h.highest, h.needToShow) == AfterHeader(d.highest, d.needToShow, EffectiveChannel(f1.pending.header))
    requires StepTo(h, f1, r, a, now)
    requires Current(f1, a) == Some(f1.pending.header)
    ensures StepTo(d, f, r, a, now)
  {
    assert !HeaderArrived(f1, a);
    assert HeaderArrived(f, a);
    assert Completed(f, a) == Completed(f1, a);
    assert PayloadArrived(f, a) == PayloadArrived(f1, a);
  }

  /** The body part of a call that has just completed a non-empty message's header. */
  lemma HeaderThenBody(d: DecoderState, f: Framing, input: seq<byte>, now: u32)
    requires Agrees(d, f) && d.ixHeader < HEADER_SIZE && input != []
    requires HeaderStep(d, input).0.ixHeader == HEADER_SIZE && HeaderStep(d, input).0.cbMessage > 0
    ensures var h := HeaderStep(d, input);
      var hb := Consumed(input, h.1);
      var r := BodyStep(h.0, h.1, now);
      var pb := Consumed(h.1, r.1);
      && f.pending.InHeader? && Fits(f, hb) && Fits(Feed(f, hb), pb)
      && Feed(f, hb) == Framing(f.messages, InPayload(ParseHeader(f.pending.bytes + hb), []))
      && StepTo(h.0, Feed(f, hb), r, Feed(Feed(f, hb), pb), now)
      && Current(Feed(f, hb), Feed(Feed(f, hb), pb)) == Some(Feed(f, hb).pending.header)
  {
    HeaderComplete(d, f, input);
    HeaderOpensBody(d, f, input);
    var h := HeaderStep(d, input);
    var hb := Consumed(input, h.1);
    var f1 := Feed(f, hb);
    assert f1 == Framing(f.messages, InPayload(ParseHeader(f.pending.bytes + hb), []));
    if h.1 == [] {
      BodyIdle(h.0, f1, now);
    } else {
      CaseBodyF(h.0, f1, h.1, now);
    }
    FeedPayloadShape(f1, Consumed(h.1, BodyStep(h.0, h.1, now).1));
  }

  lemma CaseHeaderBody(d: DecoderState, f: Framing, input: seq<byte>, now: u32)
    requires Agrees(d, f) && d.ixHeader < HEADER_SIZE && input != []
    requires HeaderStep(d, input).0.ixHeader == HEADER_SIZE && HeaderStep(d, input).0.cbMessage > 0
    ensures var h := HeaderStep(d, input);
      var hb := Consumed(input, h.1);
      var r := BodyStep(h.0, h.1, now);
      var pb := Consumed(h.1, r.1);
      && Fits(f, hb) && Fits(Feed(f, hb), pb)
      && Consumed(input, r.1) == hb + pb
      && StepTo(d, f, r, Feed(Feed(f, hb), pb), now)
  {
    HeaderComplete(d, f, input);
    HeaderThenBody(d, f, input, now);
    var h := HeaderStep(d, input);
    var f1 := Feed(f, Consumed(input, h.1));
    var r := BodyStep(h.0, h.1, now);
    ConsumedTwice(input, h.1, r.1);
    Compose(d, f, h.0, f1, r, Feed(f1, Consumed(h.1, r.1)), now);
  }

  lemma CaseIdle(d: DecoderState, f: Framing, now: u32)
    requires Agrees(d, f)
    ensures Sane(d) && StepTo(d, f, (d, []), f, now)
  {
    assert f.messages[..|f.messages|] == f.messages;
  }

  lemma StreamHeaderPartial(d: DecoderState, s: seq<byte>, input: seq<byte>, now: u32)
    requires Tracks(d, s) && d.ixHeader < HEADER_SIZE && input != []
    requires HeaderStep(d, input).0.ixHeader < HEADER_SIZE
    ensures var h := HeaderStep(d, input);
      StepTo(d, Split(s), h, Split(s + Consumed(input, h.1)), now)
  {
    CaseHeaderPartial(d, Split(s), input, now);
    SplitFeed(s, Consumed(input, HeaderStep(d, input).1), s + Consumed(input, HeaderStep(d, input).1));
  }

  lemma StreamHeaderEmpty(d: DecoderState, s: seq<byte>, input: seq<byte>, now: u32)
    requires Tracks(d, s) && d.ixHeader < HEADER_SIZE && input != []
    requires HeaderStep(d, input).0.ixHeader == HEADER_SIZE && HeaderStep(d, input).0.cbMessage == 0
    ensures var h := HeaderStep(d, input);
      var r := BodyStep(h.0, h.1, now);
      StepTo(d, Split(s), r, Split(s + Consumed(input, r.1)), now)
  {
    CaseHeaderEmpty(d, Split(s), input, now);
    SplitFeed(s, Consumed(input, HeaderStep(d, input).1), s + Consumed(input, HeaderStep(d, input).1));
  }

  lemma StreamHeaderBody(d: DecoderState, s: seq<byte>, input: seq<byte>, now: u32)
    requires Tracks(d, s) && d.ixHeader < HEADER_SIZE && input != []
    requires HeaderStep(d, input).0.ixHeader == HEADER_SIZE && HeaderStep(d, input).0.cbMessage > 0
    ensures var h := HeaderStep(d, input);
      var r := BodyStep(h.0, h.1, now);
      StepTo(d, Split(s), r, Split(s + Consumed(input, r.1)), now)
  {
    CaseHeaderBody(d, Split(s), input, now);
    var h := HeaderStep(d, input);
    var r := BodyStep(h.0, h.1, now);
    var hb, pb := Consumed(input, h.1), Consumed(h.1, r.1);
    AppendTwice(s, hb, pb, Consumed(input, r.1));
    SplitFeedTwice(s, s + hb, hb, pb, s + Consumed(input, r.1));
  }

  lemma StreamBody(d: DecoderState, s: seq<byte>, input: seq<byte>, now: u32)
    requires Tracks(d, s) && d.ixHeader == HEADER_SIZE && input != []
    ensures var r := BodyStep(d, input, now);
      StepTo(d, Split(s), r, Split(s + Consumed(input, r.1)), now)
  {
    CaseBodyF(d, Split(s), input, now);
    SplitFeed(s, Consumed(input, BodyStep(d, input, now).1), s + Consumed(input, BodyStep(d, input, now).1));
  }

  /** One call of `read_available` against the framing of the stream before and after it. */
  lemma PollStep(d: DecoderState, s: seq<byte>, input: seq<byte>, now: u32)
    requires Tracks(d, s)
    ensures Sane(d)
    ensures var r := Poll(d, input, now);
      StepTo(d, Split(s), r, Split(s + Consumed(input, r.1)), now)
  {
    AgreesSane(d, Split(s));
    if input == [] {
      assert s + Consumed(input, Poll(d, input, now).1) == s;
      CaseIdle(d, Split(s), now);
    } else if d.ixHeader < HEADER_SIZE {
      var h := HeaderStep(d, input);
      if h.0.ixHeader < HEADER_SIZE {
        StreamHeaderPartial(d, s, input, now);
      } else if h.0.cbMessage == 0 {
        StreamHeaderEmpty(d, s, input, now);
      } else {
        StreamHeaderBody(d, s, input, now);
      }
    } else {
      StreamBody(d, s, input, now);
    }
  }

  /**
   * Framing: after any call the state tracks the longer stream; the call
   * completes at most one message, keeps the earlier ones and stops right
   * after the one it completes; it leaves input unread only having
   * completed a message; and it reads something whenever input is there.
   */
  lemma PollFraming(d: DecoderState, s: seq<byte>, input: seq<byte>, now: u32)
    requires Tracks(d, s)
    ensures Sane(d)
    ensures var r := Poll(d, input, now);
      var t := s + Consumed(input, r.1);
      && Tracks(r.0, t) && Moves(Split(s), Split(t))
      && (r.1 != [] ==> Completed(Split(s), Split(t)))
      && (input != [] ==> |t| > |s|)
  {
    PollStep(d, s, input, now);
  }

  /** `PollFraming`, for a call whose result and longer stream are given names. */
  lemma PollTracks(d: DecoderState, s: seq<byte>, input: seq<byte>, now: u32,
                   r: (DecoderState, seq<byte>), t: seq<byte>)
    requires Tracks(d, s) && Sane(d) && r == Poll(d, input, now) && t == s + Consumed(input, r.1)
    ensures Tracks(r.0, t)
  {
    PollFraming(d, s, input, now);
  }

  /** Pixels: see `PixelsMove`. */
  lemma PollPixels(d: DecoderState, s: seq<byte>, input: seq<byte>, now: u32)
    requires Tracks(d, s)
    ensures Sane(d)
    ensures var r := Poll(d, input, now);
      PixelsMove(d, r.0, Split(s), Split(s + Consumed(input, r.1)))
  {
    PollStep(d, s, input, now);
  }

  /** Refresh coalescing: see `ShowsMove`. */
  lemma PollShows(d: DecoderState, s: seq<byte>, input: seq<byte>, now: u32)
    requires Tracks(d, s)
    ensures Sane(d)
    ensures var r := Poll(d, input, now);
      ShowsMove(d, r.0, Split(s), Split(s + Consumed(input, r.1)), now)
  {
    PollStep(d, s, input, now);
  }

  /**
   * The decoder's globals (`ixHeader`, `rgHeader`, `ixRGB`, `channel`,
   * `command`, `cbMessage`, `bThrowAwayMessage`, `ixHighestChannelSeen`,
   * `bNeedToShow`, `read_buffer`) together with the connection status and
   * the bytes the client has delivered and the decoder has not yet read.
   */
  class Decoder {
    /** The frame buffer and pattern engine the decoder drives. */
    var led: Leds
    /** `status == connected`. */
    var connected: bool
    /** Bytes the current client has delivered and the decoder has not read. */
    var input: seq<byte>

    var ixHeader: nat
    var rgHeader: array<byte>
    var ixRGB: nat
    var channel: byte
    var command: byte
    var cbMessage: u16
    var throwAway: bool
    var highest: byte
    var needToShow: bool
    var readBuffer: array<byte>

    /** Every byte read from the current client since it connected. */
    ghost var stream: seq<byte>

    /** The globals as a value, for the specification `Poll`. */
    ghost function State(): DecoderState
      reads this, led, led.pixels, rgHeader, readBuffer
    {
      DecoderState(ixHeader, rgHeader[..], ixRGB, channel, command, cbMessage, throwAway,
                   highest, needToShow, readBuffer[..],
                   Screen(led.pixels[..], led.shows, led.frames, led.frameStart))
    }

    /** The header buffer, the payload buffer and the frame buffer have their sizes. */
    predicate Buffers()
      reads this, led
    {
      rgHeader.Length == HEADER_SIZE && readBuffer.Length == MAX_PAYLOAD
      && led.pixels.Length == NUM_PIXELS && rgHeader != readBuffer
    }

    /** The buffers have their sizes and the globals agree with the framing of the stream. */
    ghost predicate Valid()
      reads this, led, led.pixels, rgHeader, readBuffer
    {
      && led.Valid() && rgHeader.Length == HEADER_SIZE && readBuffer.Length == MAX_PAYLOAD
      && rgHeader != readBuffer
      && Tracks(State(), stream)
    }

    /** `OpenPixelControl::setup`: listening, nothing read yet, all globals zero. */
    constructor (led: Leds)
      requires led.Valid()
      ensures Valid() && this.led == led && fresh(rgHeader) && fresh(readBuffer)
      ensures !connected && input == [] && stream == []
      ensures ixHeader == 0 && ixRGB == 0 && highest == 0 && !needToShow
      ensures channel == 0 && command == 0 && cbMessage == 0 && !throwAway
      ensures rgHeader[..] == [0, 0, 0, 0] && readBuffer[..] == seq(MAX_PAYLOAD, _ => 0)
    {
      this.led := led;
      connected := false;
      input := [];
      ixHeader := 0;
      rgHeader := new byte[HEADER_SIZE](_ => 0);
      ixRGB := 0;
      channel := 0;
      command := 0;
      cbMessage := 0;
      throwAway := false;
      highest := 0;
      needToShow := false;
      readBuffer := new byte[MAX_PAYLOAD](_ => 0);
      stream := [];
      new;
      assert Split([]) == Framing([], InHeader([]));
    }

    /** The network delivers more bytes of the current connection. */
    method Deliver(bytes: seq<byte>)
      modifies this`input
      ensures input == old(input) + bytes
    {
      input := input + bytes;
    }

    /** `client.read(buf + at, n)`: move the next `n` client bytes into `buf` at `at`. */
    method ReadClient(buf: array<byte>, at: nat, n: nat)
      requires at + n <= buf.Length && n <= |input|
      modifies this`input, this`stream, buf
      ensures input == old(input)[n..] && stream == old(stream) + old(input)[..n]
      ensures buf[..] == old(buf[..at]) + old(input)[..n] + old(buf[at + n..])
    {
      ghost var src := input[..n];
      var i := 0;
      while i < n
        invariant 0 <= i <= n
        invariant input == old(input)[i..] && stream == old(stream) + src[..i]
        invariant buf[..] == old(buf[..at]) + src[..i] + old(buf[at + i..])
      {
        buf[at + i] := input[0];
        assert src[..i + 1] == src[..i] + [input[0]];
        input := input[1..];
        stream := stream + [src[i]];
        i := i + 1;
      }
      assert src[..n] == src;
    }

    /** The discard loop of lines 208-213: read and drop `n` client bytes, counting them in `ixRGB`. */
    method DiscardBytes(n: nat)
      requires n <= |input|
      modifies this`input, this`stream, this`ixRGB
      ensures input == old(input)[n..] && stream == old(stream) + old(input)[..n]
      ensures ixRGB == old(ixRGB) + n
    {
      ghost var src := input[..n];
      var cbToRead := n;
      while cbToRead > 0
        invariant 0 <= cbToRead <= n
        invariant input == old(input)[n - cbToRead..]
        invariant stream == old(stream) + src[..n - cbToRead]
        invariant ixRGB == old(ixRGB) + (n - cbToRead)
      {
        assert src[..n - cbToRead + 1] == src[..n - cbToRead] + [input[0]];
        stream := stream + [input[0]];
        input := input[1..];
        cbToRead := cbToRead - 1;
        ixRGB := ixRGB + 1;
      }
      assert src[..n] == src;
    }

    /** The pixel loop of lines 223-226: repaint every pixel of strip `channel - 1` from `read_buffer`. */
    method RefreshStrip()
      requires led.Valid() && readBuffer.Length == MAX_PAYLOAD && 1 <= channel <= NUM_STRIPS
      modifies led.pixels
      ensures led.pixels[..] == Repaint(old(led.pixels[..]), channel - 1, readBuffer[..])
    {
      var strip := channel - 1;
      for i := 0 to LEDS_PER_STRIP
        invariant forall j :: 0 <= j < i ==> led.pixels[PixelIndex(strip, j)] == RgbAt(readBuffer[..], j)
        invariant forall k :: 0 <= k < NUM_PIXELS && !(k / LEDS_PER_STRIP == strip && k % LEDS_PER_STRIP < i)
                    ==> led.pixels[k] == old(led.pixels[k])
      {
        led.SetPixelRgb(strip, i, readBuffer[i * 3], readBuffer[i * 3 + 1], readBuffer[i * 3 + 2]);
      }
      RepaintUnique(led.pixels[..], old(led.pixels[..]), strip, readBuffer[..]);
    }

    /** `memset(rgHeader, 0, sizeof(rgHeader))`. */
    method ClearHeader()
      requires rgHeader.Length == HEADER_SIZE
      modifies rgHeader
      ensures rgHeader[..] == [0, 0, 0, 0]
    {
      rgHeader[0], rgHeader[1], rgHeader[2], rgHeader[3] := 0, 0, 0, 0;
    }

    /**
     * Lines 130-168: decode the complete header and check it (`CheckHeader`),
     * then raise the highest channel seen, asking for a refresh, when the
     * channel is at least the highest seen so far.
     */
    method ValidateHeader()
      requires rgHeader.Length == HEADER_SIZE
      modifies this`ixRGB, this`channel, this`command, this`cbMessage, this`throwAway
      modifies this`highest, this`needToShow
      ensures var h := ParseHeader(rgHeader[..]);
        && channel == EffectiveChannel(h) && command == h.command && cbMessage == h.length
        && throwAway == !Accepted(h) && ixRGB == 0
        && (highest, needToShow) == AfterHeader(old(highest), old(needToShow), channel)
    {
      var v := CheckHeader(rgHeader[0], rgHeader[1], rgHeader[2], rgHeader[3]);
      assert rgHeader[..] == [rgHeader[0], rgHeader[1], rgHeader[2], rgHeader[3]];
      channel, command, cbMessage, ixRGB, throwAway := v.0, v.1, v.2, 0, v.3;
      if channel >= highest {
        needToShow := true;
        highest := channel;
      }
    }

    /** Lines 111-120: read what is missing of the header and is available into `rgHeader`. */
    method ReadHeaderBytes()
      requires rgHeader.Length == HEADER_SIZE && ixHeader < HEADER_SIZE && input != []
      modifies this`input, this`stream, rgHeader, this`ixHeader
      ensures var n := Min(HEADER_SIZE - old(ixHeader), |old(input)|);
        && input == old(input)[n..] && stream == old(stream) + old(input)[..n]
        && ixHeader == old(ixHeader) + n
        && rgHeader[..] == old(rgHeader[..ixHeader]) + old(input)[..n] + old(rgHeader[ixHeader + n..])
    {
      var n := Min(HEADER_SIZE - ixHeader, |input|);
      ReadClient(rgHeader, ixHeader, n);
      ixHeader := ixHeader + n;
    }

    /** Lines 111-170: read what is missing of the header and, once it is complete, validate it. */
    method ReadHeader()
      requires Buffers() && ixHeader < HEADER_SIZE && input != []
      modifies this`input, this`stream, rgHeader, this`ixHeader, this`ixRGB, this`channel
      modifies this`command, this`cbMessage, this`throwAway, this`highest, this`needToShow
      ensures (State(), input) == HeaderStep(old(State()), old(input))
      ensures stream == old(stream) + Consumed(old(input), input)
      ensures ixHeader <= HEADER_SIZE && (ixHeader < HEADER_SIZE ==> input == [])
      ensures ixHeader == HEADER_SIZE ==>
        ixRGB == 0 && (!throwAway ==> 1 <= channel <= NUM_STRIPS && cbMessage <= MAX_PAYLOAD)
    {
      ghost var n := Min(HEADER_SIZE - ixHeader, |input|);
      ReadHeaderBytes();
      assert Consumed(old(input), input) == old(input)[..n];
      if ixHeader < HEADER_SIZE {
        return;
      }
      ghost var d1 := State();
      ValidateHeader();
      ValidateIs(d1, State());
    }

    /** Lines 185-192: an empty message ends as soon as its header is read. */
    method EndEmptyMessage()
      requires rgHeader.Length == HEADER_SIZE
      modifies this`ixHeader, this`ixRGB, rgHeader
      ensures ixHeader == 0 && ixRGB == 0 && rgHeader[..] == [0, 0, 0, 0]
    {
      ixHeader := 0;
      ixRGB := 0;
      ClearHeader();
    }

    /**
     * Lines 203-220: drop what the thrown-away message still needs of what is
     * available; once all of it is dropped, wait for the next header.
     */
    method DiscardBody()
      requires 0 < cbMessage && ixRGB < cbMessage && input != []
      modifies this`input, this`stream, this`ixHeader, this`ixRGB
      ensures var k := Min(|old(input)|, cbMessage - old(ixRGB));
        && input == old(input)[k..] && stream == old(stream) + old(input)[..k]
        && if old(ixRGB) + k >= cbMessage then ixHeader == 0 && ixRGB == 0
           else ixHeader == old(ixHeader) && ixRGB == old(ixRGB) + k
    {
      var cbToRead := Min(|input|, cbMessage - ixRGB);
      DiscardBytes(cbToRead);
      if ixRGB >= cbMessage {
        ixHeader, ixRGB := 0, 0;
      }
    }

    /**
     * Lines 222-226: read what the message still needs of what is available
     * into `read_buffer` at `ixRGB`, and repaint the whole strip from it.
     */
    method StorePayload()
      requires Buffers() && 1 <= channel <= NUM_STRIPS && cbMessage <= MAX_PAYLOAD
      requires ixRGB < cbMessage && input != []
      modifies this`input, this`stream, this`ixRGB, readBuffer, led.pixels
      ensures var k := Min(|old(input)|, cbMessage - old(ixRGB));
        var buf := old(readBuffer[..ixRGB]) + old(input)[..k] + old(readBuffer[ixRGB + k..]);
        && input == old(input)[k..] && stream == old(stream) + old(input)[..k]
        && ixRGB == old(ixRGB) + k && readBuffer[..] == buf
        && led.pixels[..] == Repaint(old(led.pixels[..]), channel - 1, buf)
    {
      var cbToRead := Min(|input|, cbMessage - ixRGB);
      ReadClient(readBuffer, ixRGB, cbToRead);
      RefreshStrip();
      ixRGB := ixRGB + cbToRead;
    }

    /** Lines 229-238: the message is complete: refresh if one is due, and wait for the next header. */
    method CloseMessage(now: u32)
      modifies this`ixHeader, this`ixRGB, this`needToShow, led`shows, led`frames, led`frameStart
      ensures ixHeader == 0 && ixRGB == 0 && !needToShow
      ensures led.shows == old(led.shows) + if old(needToShow) then 1 else 0
      ensures (led.frames, led.frameStart) ==
        if old(needToShow) then FrameRateStep(old(led.frames), old(led.frameStart), now)
        else (old(led.frames), old(led.frameStart))
    {
      if needToShow {
        led.Show();
        led.CalculateFrameRate(now);
        needToShow := false;
      }
      ixHeader, ixRGB := 0, 0;
    }

    /** Lines 222-238: keep the body of an accepted message. */
    method KeepBody(now: u32)
      requires Buffers() && ixHeader == HEADER_SIZE && !throwAway
      requires 1 <= channel <= NUM_STRIPS && cbMessage <= MAX_PAYLOAD
      requires ixRGB < cbMessage && input != []
      modifies this`input, this`stream, this`ixHeader, this`ixRGB, this`needToShow
      modifies readBuffer, led`shows, led`frames, led`frameStart, led.pixels
      ensures (State(), input) == BodyStep(old(State()), old(input), now)
      ensures stream == old(stream) + Consumed(old(input), input)
    {
      ghost var k := Min(|input|, cbMessage - ixRGB);
      StorePayload();
      if ixRGB >= cbMessage {
        CloseMessage(now);
      }
      assert Consumed(old(input), input) == old(input)[..k];
    }

    /** Lines 176-238: the body of the message whose header is complete. */
    method ReadBody(now: u32)
      requires Buffers() && ixHeader == HEADER_SIZE
      requires cbMessage > 0 ==> ixRGB < cbMessage
      requires !throwAway ==> 1 <= channel <= NUM_STRIPS && cbMessage <= MAX_PAYLOAD
      modifies this`input, this`stream, this`ixHeader, this`ixRGB, this`needToShow
      modifies rgHeader, readBuffer, led`shows, led`frames, led`frameStart, led.pixels
      ensures (State(), input) == BodyStep(old(State()), old(input), now)
      ensures stream == old(stream) + Consumed(old(input), input)
    {
      if cbMessage == 0 {
        EndEmptyMessage();
      } else if |input| == 0 {
      } else if throwAway {
        ghost var k := Min(|input|, cbMessage - ixRGB);
        DiscardBody();
        assert Consumed(old(input), input) == old(input)[..k];
      } else {
        KeepBody(now);
      }
    }

    /** `read_available` (lines 104-239) on the decoder's globals: one step of `Poll`. */
    method Advance(now: u32)
      requires Buffers() && Sane(State())
      modifies this`input, this`stream, this`ixHeader, this`ixRGB, this`channel, this`command
      modifies this`cbMessage, this`throwAway, this`highest, this`needToShow
      modifies rgHeader, readBuffer, led`shows, led`frames, led`frameStart, led.pixels
      ensures (State(), input) == Poll(old(State()), old(input), now)
      ensures stream == old(stream) + Consumed(old(input), input)
    {
      if |input| == 0 {
        return;
      }
      ghost var d0, in0 := State(), input;
      if ixHeader < HEADER_SIZE {
        ReadHeader();
        if ixHeader < HEADER_SIZE {
          return;
        }
        ghost var d1, in1 := State(), input;
        ReadBody(now);
        HeaderThenBodyStep(d0, in0, d1, in1, (State(), input), now);
        AppendTwice(old(stream), Consumed(in0, in1), Consumed(in1, input), Consumed(in0, input));
      } else {
        ReadBody(now);
      }
    }

    /**
     * `read_available`: one poll of the client, proved to compute `Poll`; the
     * globals keep agreeing with the framing of the longer stream.
     */
    method ReadAvailable(now: u32)
      requires Valid()
      modifies this`input, this`stream, this`ixHeader, this`ixRGB, this`channel, this`command
      modifies this`cbMessage, this`throwAway, this`highest, this`needToShow
      modifies rgHeader, readBuffer, led`shows, led`frames, led`frameStart, led.pixels
      ensures Valid()
      ensures (State(), input) == Poll(old(State()), old(input), now)
      ensures stream == old(stream) + Consumed(old(input), input)
      ensures connected == old(connected) && led.clientConnected == old(led.clientConnected)
    {
      ghost var d, s, inp := State(), stream, input;
      ghost var c, cc := connected, led.clientConnected;
      AgreesSane(d, Split(s));
      Advance(now);
      assert connected == c && led.clientConnected == cc;
      PollTracks(d, s, inp, now, (State(), input), stream);
    }

    /**
     * Lines 69-79: a client connects: report it, start reading its bytes,
     * and reset the header state and the highest channel seen.
     */
    method Accept(bytes: seq<byte>)
      requires rgHeader.Length == HEADER_SIZE && rgHeader != readBuffer
      modifies this`connected, this`input, this`stream, this`highest, this`ixHeader, this`ixRGB
      modifies rgHeader, led`clientConnected
      ensures connected && led.clientConnected && input == bytes && stream == []
      ensures highest == 0 && ixHeader == 0 && ixRGB == 0 && rgHeader[..] == [0, 0, 0, 0]
      ensures State() == Reset(old(State()))
    {
      led.OpenPixelClientConnection(true);
      connected := true;
      input := bytes;
      stream := [];
      highest := 0;
      ixHeader := 0;
      ixRGB := 0;
      ClearHeader();
    }

    /** Lines 85-94: the client has gone: report it and listen again; the globals stay. */
    method Drop()
      requires Valid()
      modifies this`connected, led`clientConnected
      ensures Valid() && !connected && !led.clientConnected && State() == old(State())
    {
      ghost var d := State();
      led.OpenPixelClientConnection(false);
      connected := false;
      assert State() == d;
    }

    /** Lines 83-99: serve the connected client: notice that it has gone, or read what it sent. */
    method Serve(stillConnected: bool, now: u32)
      requires Valid() && connected
      modifies this`connected, this`input, this`stream, this`ixHeader, this`ixRGB, this`channel
      modifies this`command, this`cbMessage, this`throwAway, this`highest, this`needToShow
      modifies rgHeader, readBuffer, led`shows, led`frames, led`frameStart, led.pixels
      modifies led`clientConnected
      ensures Valid()
      ensures connected == stillConnected
      ensures led.clientConnected == (stillConnected && old(led.clientConnected))
      ensures !stillConnected ==> State() == old(State()) && input == old(input) && stream == old(stream)
      ensures stillConnected ==>
        (State(), input) == Poll(old(State()), old(input), now)
        && stream == old(stream) + Consumed(old(input), input)
    {
      if !stillConnected {
        Drop();
        return;
      }
      ReadAvailable(now);
    }

    /**
     * `OpenPixelControl::loop` (lines 63-101): `incoming` is the connection
     * `server.available()` returns while listening, with the bytes its
     * client has delivered; `stillConnected` is `client.connected()`.
     * Accepting a client falls through to the connected branch in the same call.
     */
    method Loop(incoming: Option<seq<byte>>, stillConnected: bool, now: u32)
      requires Valid()
      modifies this`connected, this`input, this`stream, this`ixHeader, this`ixRGB, this`channel
      modifies this`command, this`cbMessage, this`throwAway, this`highest, this`needToShow
      modifies rgHeader, readBuffer, led`shows, led`frames, led`frameStart, led.pixels
      modifies led`clientConnected
      ensures Valid()
      ensures connected == ((old(connected) || incoming.Some?) && stillConnected)
      ensures led.clientConnected ==
        if !old(connected) && incoming.Some? then stillConnected
        else if old(connected) && !stillConnected then false
        else old(led.clientConnected)
      ensures !old(connected) && incoming.None? ==> State() == old(State()) && input == old(input)
      ensures old(connected) && stillConnected ==>
        (State(), input) == Poll(old(State()), old(input), now)
        && stream == old(stream) + Consumed(old(input), input)
      ensures old(connected) && !stillConnected ==>
        State() == old(State()) && input == old(input) && stream == old(stream)
      ensures !old(connected) && incoming.Some? && stillConnected ==>
        (State(), input) == Poll(Reset(old(State())), incoming.value, now)
        && |input| <= |incoming.value| && stream == Consumed(incoming.value, input)
      ensures !old(connected) && incoming.Some? && !stillConnected ==>
        State() == Reset(old(State())) && input == incoming.value && stream == []
    {
      ghost var d0 := State();
      if connected {
        Serve(stillConnected, now);
      } else if incoming.Some? {
        Accept(incoming.value);
        ghost var reset := State();
        assert reset == Reset(d0);
        Restarted(reset);
        Serve(stillConnected, now);
      }
    }
  }
}
