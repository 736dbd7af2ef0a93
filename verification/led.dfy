/**
 * The LED frame buffer and pattern engine: the drawing buffer of
 * NUM_STRIPS * LEDS_PER_STRIP packed colours, flat pixel addressing, the
 * per-tick pattern selection and the frame-rate counter.
 */
module Led {
  import opened Board
  import opened Color

  /** Values of `enum Pattern`: 0 is the solid colour, 1 the test pattern. */
  const PATTERN_SOLID: byte := 0
  const PATTERN_TEST: byte := 1

  /** Length of the frame-rate window, in milliseconds. */
  const FRAME_WINDOW_MS: nat := 1000

  /**
   * Flat address of pixel `led` on strip `strip`: strips are laid out one
   * after the other, so the address decodes back to (strip, led).
   */
  function PixelIndex(strip: nat, led: nat): (k: nat)
    requires strip < NUM_STRIPS && led < LEDS_PER_STRIP
    ensures k < NUM_PIXELS
    ensures k / LEDS_PER_STRIP == strip && k % LEDS_PER_STRIP == led
  {
    strip * LEDS_PER_STRIP + led
  }

  /** Two different (strip, led) pairs never share a flat address. */
  lemma {:induction false} PixelIndexInjective(s1: nat, l1: nat, s2: nat, l2: nat)
    requires s1 < NUM_STRIPS && l1 < LEDS_PER_STRIP
    requires s2 < NUM_STRIPS && l2 < LEDS_PER_STRIP
    ensures PixelIndex(s1, l1) == PixelIndex(s2, l2) <==> s1 == s2 && l1 == l2
  {
    var k1, k2 := PixelIndex(s1, l1), PixelIndex(s2, l2);
    if k1 == k2 {
      assert k1 / LEDS_PER_STRIP == k2 / LEDS_PER_STRIP;
    }
  }

  /** The hue of the test pattern is a `uint8_t`: it wraps from 255 to 0. */
  function NextHue(hue: byte): (h: byte)
    ensures hue < 255 ==> h == hue + 1
    ensures hue == 255 ==> h == 0
  {
    (hue + 1) % 256
  }

  /** Hue after `n` ticks of the test pattern. */
  function HueAfter(hue: byte, n: nat): byte
  {
    if n == 0 then hue else NextHue(HueAfter(hue, n - 1))
  }

  /** After n ticks the hue has advanced by n modulo 256; 256 ticks bring it back. */
  lemma {:induction false} HueAfterMod(hue: byte, n: nat)
    ensures HueAfter(hue, n) == (hue + n) % 256
  {
    if n > 0 {
      HueAfterMod(hue, n - 1);
      var q, m := (hue + n - 1) / 256, (hue + n - 1) % 256;
      assert hue + n == 256 * q + m + 1;
      if m < 255 {
        assert (hue + n) % 256 == m + 1;
      } else {
        assert hue + n == 256 * (q + 1);
      }
    }
  }

  /** `millis() > tmFrameStart + 1000`, the sum taken modulo 2^32 as in uint32 arithmetic. */
  predicate WindowElapsed(now: u32, frameStart: u32)
  {
    now > (frameStart + FRAME_WINDOW_MS) % TWO_TO_THE_32
  }

  /** The frame counter after one more frame: (cFrames, tmFrameStart). */
  function FrameRateStep(frames: u32, frameStart: u32, now: u32): (r: (u32, u32))
    ensures WindowElapsed(now, frameStart) ==> r == (0, now)
    ensures !WindowElapsed(now, frameStart) ==> r.1 == frameStart && r.0 == (frames + 1) % TWO_TO_THE_32
  {
    if WindowElapsed(now, frameStart) then (0, now)
    else ((frames + 1) % TWO_TO_THE_32, frameStart)
  }

  /** The frame counter after frames shown at the successive times `times`. */
  function FramesAfter(frames: u32, frameStart: u32, times: seq<u32>): (u32, u32)
    decreases |times|
  {
    if times == [] then (frames, frameStart)
    else
      var r := FrameRateStep(frames, frameStart, times[0]);
      FramesAfter(r.0, r.1, times[1..])
  }

  /**
   * While the window has not elapsed, the counter counts the frames (modulo
   * 2^32) and the window start stays put; the first frame after the window
   * has elapsed restarts the window at its own time with the count at 0.
   */
  lemma {:induction false} FramesWithinWindow(frames: u32, frameStart: u32, times: seq<u32>)
    requires forall i :: 0 <= i < |times| ==> !WindowElapsed(times[i], frameStart)
    ensures FramesAfter(frames, frameStart, times) == ((frames + |times|) % TWO_TO_THE_32, frameStart)
    decreases |times|
  {
    if times != [] {
      var f1 := (frames + 1) % TWO_TO_THE_32;
      FramesWithinWindow(f1, frameStart, times[1..]);
      assert (f1 + (|times| - 1)) % TWO_TO_THE_32 == (frames + |times|) % TWO_TO_THE_32;
    }
  }

  lemma {:induction false} FramesWindowRestart(frames: u32, frameStart: u32, now: u32)
    requires WindowElapsed(now, frameStart)
    ensures FramesAfter(frames, frameStart, [now]) == (0, now)
  {
    assert [now][1..] == [];
  }

  /** What one tick of the pattern engine does to the frame buffer. */
  datatype Tick = Blackout | Untouched | Solid(color: int) | TestRed(hue: byte)

  /** The decision `loop` takes, in the order of its tests. */
  function TickOf(powerOn: bool, clientConnected: bool, pattern: byte, solidColor: int, hue: byte): (t: Tick)
    ensures !powerOn <==> t == Blackout
    ensures t == Untouched <==> powerOn && clientConnected
    ensures t.Solid? <==> powerOn && !clientConnected && pattern == PATTERN_SOLID
    ensures t.Solid? ==> t.color == solidColor
    ensures t.TestRed? <==> powerOn && !clientConnected && pattern != PATTERN_SOLID
    ensures t.TestRed? ==> t.hue == hue
  {
    if !powerOn then Blackout
    else if clientConnected then Untouched
    else if pattern == PATTERN_SOLID then Solid(solidColor)
    else TestRed(hue)
  }

  class Leds {
    /** The drawing buffer: one packed colour per pixel. */
    var pixels: array<int>
    /** `pattern`, as loaded from the persisted byte. */
    var pattern: byte
    var powerOn: bool
    var clientConnected: bool
    var solidColor: int
    /** The `static uint8_t hue` of the test pattern. */
    var hue: byte
    var frameStart: u32
    var frames: u32
    /** Number of hardware refreshes (`leds.show()`) issued so far. */
    var shows: nat
    /** The `pattern` and `rgbSolidColor` fields of the persisted settings. */
    var persistedPattern: byte
    var persistedSolidColor: int

    ghost predicate Valid()
      reads this
    {
      pixels.Length == NUM_PIXELS
    }

    /** `LED::setup`: start the frame window and load the persisted pattern and colour. */
    constructor (now: u32, storedPattern: byte, storedSolidColor: int)
      ensures Valid() && fresh(pixels)
      ensures forall k :: 0 <= k < NUM_PIXELS ==> pixels[k] == BLACK
      ensures pattern == storedPattern && solidColor == storedSolidColor
      ensures persistedPattern == storedPattern && persistedSolidColor == storedSolidColor
      ensures powerOn && !clientConnected && hue == 0
      ensures frameStart == now && frames == 0 && shows == 0
    {
      pixels := new int[NUM_PIXELS](_ => BLACK);
      pattern := storedPattern;
      solidColor := storedSolidColor;
      persistedPattern := storedPattern;
      persistedSolidColor := storedSolidColor;
      powerOn := true;
      clientConnected := false;
      hue := 0;
      frameStart := now;
      frames := 0;
      shows := 0;
    }

    /** `load_persistant_data`: take pattern and colour from the persisted settings. */
    method LoadPersistentData()
      modifies this
      ensures pattern == old(persistedPattern) && solidColor == old(persistedSolidColor)
      ensures pixels == old(pixels) && persistedPattern == old(persistedPattern)
      ensures persistedSolidColor == old(persistedSolidColor)
      ensures powerOn == old(powerOn) && clientConnected == old(clientConnected) && hue == old(hue)
      ensures frameStart == old(frameStart) && frames == old(frames) && shows == old(shows)
    {
      pattern := persistedPattern;
      solidColor := persistedSolidColor;
    }

    /** `setPixel(strip, led, rgb)`: writes exactly one flat address. */
    method SetPixel(strip: nat, led: nat, rgb: int)
      requires Valid()
      requires strip < NUM_STRIPS && led < LEDS_PER_STRIP
      modifies pixels
      ensures pixels[..] == old(pixels[..])[PixelIndex(strip, led) := rgb]
    {
      pixels[PixelIndex(strip, led)] := rgb;
    }

    /** `setPixel(strip, led, r, g, b)`: the same write with the packed colour. */
    method SetPixelRgb(strip: nat, led: nat, r: byte, g: byte, b: byte)
      requires Valid()
      requires strip < NUM_STRIPS && led < LEDS_PER_STRIP
      modifies pixels
      ensures pixels[..] == old(pixels[..])[PixelIndex(strip, led) := MakeColorRgb(r, g, b)]
    {
      SetPixel(strip, led, MakeColorRgb(r, g, b));
    }

    /** `LED::show`: one hardware refresh. */
    method Show()
      modifies this`shows
      ensures shows == old(shows) + 1
    {
      shows := shows + 1;
    }

    /** `show_color`: paint every pixel with one colour, then refresh. */
    method ShowColor(color: int)
      requires Valid()
      modifies pixels, this`shows
      ensures forall k :: 0 <= k < NUM_PIXELS ==> pixels[k] == color
      ensures shows == old(shows) + 1
    {
      var i := 0;
      while i < NUM_PIXELS
        invariant 0 <= i <= NUM_PIXELS
        invariant forall k :: 0 <= k < i ==> pixels[k] == color
        invariant shows == old(shows)
      {
        pixels[i] := color;
        i := i + 1;
      }
      Show();
    }

    /**
     * `CalculateFrameRate`: count one frame; once the window has elapsed,
     * restart it at `now` with the count back at 0.
     */
    method CalculateFrameRate(now: u32)
      modifies this`frames, this`frameStart
      ensures (frames, frameStart) == FrameRateStep(old(frames), old(frameStart), now)
    {
      frames := (frames + 1) % TWO_TO_THE_32;
      if WindowElapsed(now, frameStart) {
        frames := 0;
        frameStart := now;
      }
    }

    /** The test pattern body: every pixel of every strip becomes red at the current hue. */
    method PaintTestPattern(color: int)
      requires Valid()
      modifies pixels
      ensures forall k :: 0 <= k < NUM_PIXELS ==> pixels[k] == color
    {
      for i := 0 to NUM_STRIPS
        invariant forall k :: 0 <= k < i * LEDS_PER_STRIP ==> pixels[k] == color
      {
        for j := 0 to LEDS_PER_STRIP
          invariant forall k :: 0 <= k < i * LEDS_PER_STRIP + j ==> pixels[k] == color
        {
          SetPixel(i, j, color);
        }
      }
    }

    /**
     * `LED::loop`: one tick of the pattern engine. Power off blanks every
     * pixel; a connected Open Pixel Control client leaves the buffer alone;
     * the solid pattern paints the stored colour; any other pattern paints
     * red at the current hue, advances the hue and counts a frame.
     */
    method Loop(now: u32)
      requires Valid()
      modifies this, pixels
      ensures Valid() && pixels == old(pixels)
      ensures pattern == old(pattern) && solidColor == old(solidColor)
      ensures powerOn == old(powerOn) && clientConnected == old(clientConnected)
      ensures persistedPattern == old(persistedPattern) && persistedSolidColor == old(persistedSolidColor)
      ensures match TickOf(old(powerOn), old(clientConnected), old(pattern), old(solidColor), old(hue))
        case Blackout =>
          (forall k :: 0 <= k < NUM_PIXELS ==> pixels[k] == BLACK)
          && shows == old(shows) + 1 && hue == old(hue)
          && frames == old(frames) && frameStart == old(frameStart)
        case Untouched =>
          pixels[..] == old(pixels[..]) && shows == old(shows) && hue == old(hue)
          && frames == old(frames) && frameStart == old(frameStart)
        case Solid(c) =>
          (forall k :: 0 <= k < NUM_PIXELS ==> pixels[k] == c)
          && shows == old(shows) + 1 && hue == old(hue)
          && frames == old(frames) && frameStart == old(frameStart)
        case TestRed(h) =>
          (forall k :: 0 <= k < NUM_PIXELS ==> pixels[k] == MakeColorRgb(h, 0, 0))
          && shows == old(shows) + 1 && hue == NextHue(h)
          && (frames, frameStart) == FrameRateStep(old(frames), old(frameStart), now)
    {
      if !powerOn {
        ShowColor(BLACK);
        return;
      }
      if clientConnected {
        return;
      }
      if pattern == PATTERN_SOLID {
        ShowColor(solidColor);
        return;
      }
      PaintTestPattern(MakeColorRgb(hue, 0, 0));
      hue := NextHue(hue);
      Show();
      CalculateFrameRate(now);
    }

    /** `setSolidColor`: select the solid pattern and mirror it into the persisted settings. */
    method SetSolidColor(rgb: int)
      modifies this
      ensures pattern == PATTERN_SOLID && solidColor == rgb
      ensures persistedPattern == PATTERN_SOLID && persistedSolidColor == rgb
      ensures pixels == old(pixels) && powerOn == old(powerOn) && clientConnected == old(clientConnected)
      ensures hue == old(hue) && frameStart == old(frameStart) && frames == old(frames) && shows == old(shows)
    {
      pattern := PATTERN_SOLID;
      solidColor := rgb;
      persistedPattern := pattern;
      persistedSolidColor := rgb;
    }

    /** `testPattern`: select the test pattern and mirror it into the persisted settings. */
    method TestPattern()
      modifies this
      ensures pattern == PATTERN_TEST && persistedPattern == PATTERN_TEST
      ensures solidColor == old(solidColor) && persistedSolidColor == old(persistedSolidColor)
      ensures pixels == old(pixels) && powerOn == old(powerOn) && clientConnected == old(clientConnected)
      ensures hue == old(hue) && frameStart == old(frameStart) && frames == old(frames) && shows == old(shows)
    {
      pattern := PATTERN_TEST;
      persistedPattern := pattern;
    }

    /** `togglePower`: flip the power flag and report the new value. */
    method TogglePower() returns (on: bool)
      modifies this`powerOn
      ensures powerOn == !old(powerOn) && on == powerOn
    {
      powerOn := !powerOn;
      on := powerOn;
    }

    /** `openPixelClientConnection`: record whether a pixel client is driving the strips. */
    method OpenPixelClientConnection(f: bool)
      modifies this`clientConnected
      ensures clientConnected == f
    {
      clientConnected := f;
    }
  }
}
