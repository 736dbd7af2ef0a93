/**
 * The Open Pixel Control wire format as a pure specification: a message is a
 * 4-byte header (channel, command, big-endian 16-bit length) followed by
 * `length` payload bytes. `Split` cuts a byte stream into its complete
 * messages and the message still in progress; the streaming decoder is
 * proved to track exactly this framing of the bytes it has consumed.
 */
module OpcFraming {
  import opened Board

  const HEADER_SIZE: nat := 4
  /** Largest payload the decoder accepts: one strip's worth of RGB triples. */
  const MAX_PAYLOAD: nat := 3 * LEDS_PER_STRIP

  datatype Header = Header(channel: byte, command: byte, length: u16)

  /** The four header bytes of a header: length is sent high byte first. */
  function HeaderBytes(h: Header): (b: seq<byte>)
    ensures |b| == HEADER_SIZE
  {
    [h.channel, h.command, h.length / 256, h.length % 256]
  }

  /** Decode channel = b0, command = b1, length = (b2 << 8) | b3. */
  function ParseHeader(b: seq<byte>): Header
    requires |b| == HEADER_SIZE
  {
    Header(b[0], b[1], (b[2] as int) * 256 + b[3])
  }

  /** Decoding four bytes and encoding the header again gives the bytes back. */
  lemma {:induction false} HeaderBytesParse(b: seq<byte>)
    requires |b| == HEADER_SIZE
    ensures HeaderBytes(ParseHeader(b)) == b
  {
  }

  /** Encoding a header and decoding it again gives the header back. */
  lemma {:induction false} ParseHeaderBytes(h: Header)
    ensures ParseHeader(HeaderBytes(h)) == h
  {
    var b := HeaderBytes(h);
    assert (b[2] as int) * 256 + b[3] == h.length;
  }

  /**
   * A message is used only when its command is 0 (set pixels), its channel
   * names a strip (1..NUM_STRIPS) and its payload fits one strip. There is
   * no check that the length is a multiple of 3.
   */
  predicate Accepted(h: Header)
  {
    h.command == 0 && 1 <= h.channel <= NUM_STRIPS && h.length <= MAX_PAYLOAD
  }

  /**
   * The channel the decoder keeps after validation: a set-pixels message with
   * a channel outside 1..NUM_STRIPS has its channel forced to 1, any other
   * message (a bad command included) keeps its raw channel.
   */
  function EffectiveChannel(h: Header): (c: byte)
    ensures Accepted(h) ==> c == h.channel && 1 <= c <= NUM_STRIPS
    ensures h.command != 0 ==> c == h.channel
    ensures h.command == 0 && !(1 <= h.channel <= NUM_STRIPS) ==> c == 1
  {
    if h.command == 0 && !(1 <= h.channel <= NUM_STRIPS) then 1 else h.channel
  }

  datatype Message = Message(header: Header, payload: seq<byte>)

  /** The message in progress at the end of a stream. */
  datatype Pending =
    | InHeader(bytes: seq<byte>)
    | InPayload(header: Header, got: seq<byte>)

  datatype Framing = Framing(messages: seq<Message>, pending: Pending)

  function Encode(m: Message): seq<byte>
  {
    HeaderBytes(m.header) + m.payload
  }

  function Flatten(ms: seq<Message>): seq<byte>
  {
    if ms == [] then [] else Encode(ms[0]) + Flatten(ms[1..])
  }

  function PendingBytes(p: Pending): seq<byte>
  {
    match p
    case InHeader(b) => b
    case InPayload(h, got) => HeaderBytes(h) + got
  }

  /** Complete messages carry exactly `length` bytes; a pending one is short of its end. */
  predicate WellFormed(f: Framing)
  {
    && (forall i :: 0 <= i < |f.messages| ==> |f.messages[i].payload| == f.messages[i].header.length)
    && match f.pending
       case InHeader(b) => |b| < HEADER_SIZE
       case InPayload(h, got) => |got| < h.length
  }

  /**
   * The framing of a byte stream. Its contract states that the pieces
   * re-assemble to the stream and that each piece has its proper length;
   * `SplitFlatten` shows that this determines the framing.
   */
  function Split(s: seq<byte>): (f: Framing)
    decreases |s|
    ensures WellFormed(f)
    ensures Flatten(f.messages) + PendingBytes(f.pending) == s
  {
    if |s| < HEADER_SIZE then Framing([], InHeader(s))
    else
      var h := ParseHeader(s[..HEADER_SIZE]);
      if |s| < HEADER_SIZE + h.length then Framing([], InPayload(h, s[HEADER_SIZE..]))
      else
        var m := Message(h, s[HEADER_SIZE..HEADER_SIZE + h.length]);
        var rest := Split(s[HEADER_SIZE + h.length..]);
        assert s == Encode(m) + s[HEADER_SIZE + h.length..];
        assert Flatten([m] + rest.messages) == Encode(m) + Flatten(rest.messages) by {
          assert ([m] + rest.messages)[1..] == rest.messages;
        }
        Framing([m] + rest.messages, rest.pending)
  }

  lemma {:induction false} FlattenAppend(ms: seq<Message>, m: Message)
    ensures Flatten(ms + [m]) == Flatten(ms) + Encode(m)
  {
    if ms != [] {
      assert (ms + [m])[1..] == ms[1..] + [m];
      FlattenAppend(ms[1..], m);
    } else {
      assert Flatten([m]) == Encode(m) + Flatten([]);
    }
  }

  /** A complete message in front of a stream is split off as the first message. */
  lemma {:induction false} SplitCons(m: Message, rest: seq<byte>)
    requires |m.payload| == m.header.length
    ensures Split(Encode(m) + rest) == Framing([m] + Split(rest).messages, Split(rest).pending)
  {
    var s := Encode(m) + rest;
    assert s[..HEADER_SIZE] == HeaderBytes(m.header);
    ParseHeaderBytes(m.header);
    assert s[HEADER_SIZE..HEADER_SIZE + m.header.length] == m.payload;
    assert s[HEADER_SIZE + m.header.length..] == rest;
  }

  /** Decoding an encoded framing gives it back: the framing of a stream is unique. */
  lemma {:induction false} SplitFlatten(ms: seq<Message>, p: Pending)
    requires WellFormed(Framing(ms, p))
    ensures Split(Flatten(ms) + PendingBytes(p)) == Framing(ms, p)
  {
    if ms == [] {
      assert Flatten(ms) + PendingBytes(p) == PendingBytes(p);
      match p
      case InHeader(b) =>
      case InPayload(h, got) =>
        var s := PendingBytes(p);
        assert s[..HEADER_SIZE] == HeaderBytes(h);
        ParseHeaderBytes(h);
        assert s[HEADER_SIZE..] == got;
    } else {
      var m := ms[0];
      assert WellFormed(Framing(ms[1..], p)) by {
        forall i | 0 <= i < |ms[1..]|
          ensures |ms[1..][i].payload| == ms[1..][i].header.length
        {
          assert ms[1..][i] == ms[i + 1];
        }
      }
      SplitFlatten(ms[1..], p);
      var rest := Flatten(ms[1..]) + PendingBytes(p);
      assert |m.payload| == m.header.length by { assert m == ms[0]; }
      SplitCons(m, rest);
      assert Flatten(ms) + PendingBytes(p) == Encode(m) + rest;
      assert [m] + ms[1..] == ms;
    }
  }

  /** Whether `b` stays within the piece the framing is waiting for. */
  predicate Fits(f: Framing, b: seq<byte>)
  {
    match f.pending
    case InHeader(h) => |h| + |b| <= HEADER_SIZE
    case InPayload(hd, got) => |got| + |b| <= hd.length
  }

  /**
   * The framing after bytes that do not cross the end of the pending piece:
   * header bytes join the header, and a header that becomes complete opens
   * its payload or, with length 0, is a whole message; payload bytes join
   * the payload, and the message is complete once it holds `length` bytes.
   */
  function Feed(f: Framing, b: seq<byte>): (g: Framing)
    requires Fits(f, b)
  {
    match f.pending
    case InHeader(h) =>
      var h' := h + b;
      if |h'| < HEADER_SIZE then Framing(f.messages, InHeader(h'))
      else if ParseHeader(h').length == 0 then Framing(f.messages + [Message(ParseHeader(h'), [])], InHeader([]))
      else Framing(f.messages, InPayload(ParseHeader(h'), []))
    case InPayload(hd, got) =>
      if |got + b| < hd.length then Framing(f.messages, InPayload(hd, got + b))
      else Framing(f.messages + [Message(hd, got + b)], InHeader([]))
  }

  /**
   * Appending header bytes to a stream whose framing waits for a header:
   * the framing of the longer stream is the shorter one's, fed the bytes.
   */
  lemma {:induction false} SplitExtendHeader(s: seq<byte>, b: seq<byte>)
    requires Split(s).pending.InHeader? && Fits(Split(s), b)
    ensures Split(s + b) == Feed(Split(s), b)
  {
    var f := Split(s);
    var ms, h := f.messages, f.pending.bytes + b;
    assert s + b == Flatten(ms) + h;
    if |h| < HEADER_SIZE {
      ExtendTo(s + b, ms, InHeader(h));
    } else {
      var hd := ParseHeader(h);
      HeaderBytesParse(h);
      if hd.length == 0 {
        var ms' := ms + [Message(hd, [])];
        assert WellFormed(Framing(ms', InHeader([]))) by {
          forall i | 0 <= i < |ms'| ensures |ms'[i].payload| == ms'[i].header.length {
            if i < |ms| { assert ms'[i] == ms[i]; }
          }
        }
        FlattenAppend(ms, Message(hd, []));
        ExtendTo(s + b, ms', InHeader([]));
      } else {
        ExtendTo(s + b, ms, InPayload(hd, []));
      }
    }
  }

  /** `SplitFlatten` stated for a stream already known to be the encoding. */
  lemma {:induction false} ExtendTo(t: seq<byte>, ms: seq<Message>, p: Pending)
    requires WellFormed(Framing(ms, p))
    requires t == Flatten(ms) + PendingBytes(p)
    ensures Split(t) == Framing(ms, p)
  {
    SplitFlatten(ms, p);
  }

  /**
   * Appending payload bytes, no more than the pending message still needs:
   * the framing of the longer stream is the shorter one's, fed the bytes.
   */
  lemma {:induction false} SplitExtendPayload(s: seq<byte>, b: seq<byte>)
    requires Split(s).pending.InPayload? && Fits(Split(s), b)
    ensures Split(s + b) == Feed(Split(s), b)
  {
    var f := Split(s);
    var hd, got := f.pending.header, f.pending.got + b;
    assert s == Flatten(f.messages) + (HeaderBytes(hd) + f.pending.got);
    assert s + b == Flatten(f.messages) + (HeaderBytes(hd) + got);
    if |got| < hd.length {
      SplitFlatten(f.messages, InPayload(hd, got));
      assert Flatten(f.messages) + PendingBytes(InPayload(hd, got)) == s + b;
    } else {
      var ms := f.messages + [Message(hd, got)];
      assert WellFormed(Framing(ms, InHeader([]))) by {
        forall i | 0 <= i < |ms| ensures |ms[i].payload| == ms[i].header.length {
          if i < |f.messages| { assert ms[i] == f.messages[i]; }
        }
      }
      FlattenAppend(f.messages, Message(hd, got));
      SplitFlatten(ms, InHeader([]));
      assert Flatten(ms) + PendingBytes(InHeader([])) == s + b;
    }
  }

  /** Framing a longer stream `t` continues the framing of the shorter one. */
  lemma SplitFeed(s: seq<byte>, b: seq<byte>, t: seq<byte>)
    requires Fits(Split(s), b) && t == s + b
    ensures Split(t) == Feed(Split(s), b)
  {
    if Split(s).pending.InHeader? {
      SplitExtendHeader(s, b);
    } else {
      SplitExtendPayload(s, b);
    }
  }

  /** Two feeds in a row: `s1` extends `s` by `b`, and `t` extends `s1` by `c`. */
  lemma SplitFeedTwice(s: seq<byte>, s1: seq<byte>, b: seq<byte>, c: seq<byte>, t: seq<byte>)
    requires Fits(Split(s), b) && s1 == s + b
    requires Fits(Feed(Split(s), b), c) && t == s1 + c
    ensures Split(t) == Feed(Feed(Split(s), b), c)
  {
    SplitFeed(s, b, s1);
    SplitFeed(s1, c, t);
  }

  /** Headers of every message whose header is complete, in stream order. */
  function HeadersSeen(f: Framing): (hs: seq<Header>)
    ensures |hs| == |f.messages| + (if f.pending.InPayload? then 1 else 0)
    ensures forall i :: 0 <= i < |f.messages| ==> hs[i] == f.messages[i].header
  {
    seq(|f.messages|, i requires 0 <= i < |f.messages| => f.messages[i].header)
      + (if f.pending.InPayload? then [f.pending.header] else [])
  }

  /** The highest effective channel among headers, 0 when there are none. */
  function MaxChannel(hs: seq<Header>): (m: byte)
  {
    if hs == [] then 0
    else
      var prev := MaxChannel(hs[..|hs| - 1]);
      var c := EffectiveChannel(hs[|hs| - 1]);
      if c >= prev then c else prev
  }

  /** `MaxChannel` is the maximum: it bounds every effective channel and is one of them (0 for none). */
  lemma {:induction false} MaxChannelIsMax(hs: seq<Header>)
    ensures forall i :: 0 <= i < |hs| ==> EffectiveChannel(hs[i]) <= MaxChannel(hs)
    ensures hs == [] ==> MaxChannel(hs) == 0
    ensures hs != [] ==> exists i :: 0 <= i < |hs| && EffectiveChannel(hs[i]) == MaxChannel(hs)
  {
    if hs != [] {
      var init := hs[..|hs| - 1];
      MaxChannelIsMax(init);
      assert forall i :: 0 <= i < |hs| - 1 ==> hs[i] == init[i];
      if init != [] {
        var j :| 0 <= j < |init| && EffectiveChannel(init[j]) == MaxChannel(init);
        assert hs[j] == init[j];
      }
    }
  }

  /** The coalescing step taken on every completed header: `if (channel >= ixHighestChannelSeen)`. */
  function AfterHeader(highest: byte, needToShow: bool, channel: byte): (r: (byte, bool))
    ensures r.0 >= highest && r.0 >= channel && (r.0 == highest || r.0 == channel)
    ensures r.1 <==> needToShow || channel >= highest
  {
    if channel >= highest then (channel, true) else (highest, needToShow)
  }

  /** Tracking the highest channel header by header gives the maximum over all of them. */
  lemma {:induction false} MaxChannelSnoc(hs: seq<Header>, h: Header, needToShow: bool)
    ensures MaxChannel(hs + [h]) == AfterHeader(MaxChannel(hs), needToShow, EffectiveChannel(h)).0
  {
    assert (hs + [h])[..|hs|] == hs;
  }
}
