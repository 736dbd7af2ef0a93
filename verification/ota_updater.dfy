/**
 * The over-the-air updater of lib/Ota/TeensyOtaUpdater.cpp.  An upload
 * arrives in chunks; `StartOta` runs a state machine over each chunk that
 * skips newlines, parses an Intel HEX line, processes the record and
 * copies data records into a firmware buffer in RAM or flash, and `EndOta`
 * decides at the end of the request whether the firmware is applied.
 *
 * `Step` is one pass of the `switch` inside the `while (off < len)` loop,
 * `Run` is the whole loop, `Epilogue` the code at `done:` and `Upload` one
 * call of `StartOta`; the class method `StartOta` is proved to compute
 * `Upload`.  The Intel HEX parser, the record processor, the flash
 * primitives and the buffer allocator are not part of this model: they are
 * the fields of an `Env` the caller supplies.
 */
module OtaUpdater {
  import opened Board

  /** The states of lib/Ota/TeensyOtaUpdater.h lines 100-110. */
  datatype OtaState = Idle | SkipNewline | ParseLine | ProcessLine | CopyLine | Complete | Apply | Error

  /** The states `StartOta` and `EndOta` leave behind. */
  predicate Settled(s: OtaState)
  {
    s == Idle || s == SkipNewline || s == Complete || s == Apply
  }

  /** The base address of the Teensy 4.1 program flash. */
  const FLASH_BASE_ADDR: u32 := 0x6000_0000
  /** The Intel HEX record type of a data record. */
  const IRT_DATA: u32 := 0

  /** The parser's `hex_info_t` (the `data` pointer and the `prevData` bytes are left out). */
  datatype HexInfo = HexInfo(addr: u32, code: u32, num: u32, base: u32, min: u32, max: u32,
                             eof: int, lines: int, prevDataLen: nat)

  /** `hexInfo` as a new upload starts (lines 248-258). */
  const StartHex: HexInfo := HexInfo(0, 0, 0, 0, 0xFFFF_FFFF, 0, 0, 0, 0)

  /** The reasons `StartOta` answers a chunk with an error page. */
  datatype Abort = NoReason | NoBuffer | BadHexLine | InvalidHexCode | MaxAddressTooLarge
                 | FlashWriteFailed | ApplyingPrevious | InternalError

  /** A call into the firmware buffer: a record copied or written to flash, or the buffer freed. */
  datatype Effect = Stored(dest: u32, num: u32, flash: bool) | Freed(addr: u32, size: u32)

  /**
   * What the code outside this file answers: `parse_hex_line` (its result
   * and the updated `hexInfo`), `process_hex_record`, `flash_write_block`,
   * `IN_FLASH`, `check_flash_id`, and what `firmware_buffer_init` creates
   * (`None` when it fails).
   */
  datatype Env = Env(parse: (seq<byte>, HexInfo) -> (int, HexInfo),
                     process: HexInfo -> (int, HexInfo),
                     flashWrite: (u32, u32) -> int,
                     inFlash: u32 -> bool,
                     checkFlashId: (u32, u32) -> bool,
                     created: Option<(u32, u32)>)

  /** What follows the response `EndOta` sends: nothing, the registered callback, or `applyUpdate`'s reboot. */
  datatype Action = NoAction | NotifyCallback | Reboot(move: Option<(u32, u32, u32)>)

  /** The updater's fields, as a value. */
  datatype Machine = Machine(state: OtaState, hex: HexInfo, bufferAddr: u32, bufferSize: u32,
                             effects: seq<Effect>)

  /** The loop variables of `StartOta`: the fields, `off` and `abortMsg`. */
  datatype Pass = Pass(m: Machine, off: nat, abort: Abort)

  /** How one pass, or the whole loop, ends. */
  datatype Outcome = Continue(p: Pass) | Done(m: Machine, reply: Option<Abort>) | Returned(m: Machine, why: Abort)

  /** `stripNewLine` (lines 380-392): the number of leading `'\r'`/`'\n'` bytes skipped. */
  function StripNewLine(data: seq<byte>): (n: nat)
    ensures n <= 2 && n <= |data|
    ensures forall i :: 0 <= i < n ==> IsNewline(data[i])
    ensures n < 2 && n < |data| ==> !IsNewline(data[n])
  {
    if |data| > 0 && IsNewline(data[0]) then
      if |data| > 1 && IsNewline(data[1]) then 2 else 1
    else 0
  }

  predicate IsNewline(b: byte)
  {
    b == 13 || b == 10
  }

  /** `uint32_t` arithmetic. */
  function Wrap(x: int): u32
  {
    x % TWO_TO_THE_32
  }

  /** `FLASH_BASE_ADDR + buffer_size`: the largest address the buffer can take. */
  function Limit(size: u32): u32
  {
    Wrap(FLASH_BASE_ADDR + size)
  }

  /** Where a data record lands in the buffer (line 315). */
  function Dest(m: Machine): u32
  {
    Wrap(m.bufferAddr + m.hex.base + m.hex.addr - FLASH_BASE_ADDR)
  }

  /** `hexInfo.max - hexInfo.min`: the size of the firmware image. */
  function Span(h: HexInfo): u32
  {
    Wrap(h.max - h.min)
  }

  /** The order the loop walks the states in without consuming input. */
  function Rank(s: OtaState): nat
  {
    match s
    case Error => 0
    case Apply => 0
    case ParseLine => 1
    case SkipNewline => 2
    case CopyLine => 3
    case ProcessLine => 4
    case Idle => 5
    case Complete => 5
  }

  /** The bytes of the chunk the loop has still to look at. */
  function Remaining(p: Pass, data: seq<byte>): nat
  {
    if p.off < |data| then |data| - p.off else 0
  }

  /**
   * One pass of the `switch` (lines 244-349).  A pass that goes on either
   * consumes input or moves to a state of lower rank, and never enters
   * `Apply`.
   */
  function Step(p: Pass, env: Env, index: nat, data: seq<byte>, final: bool): (o: Outcome)
    requires p.off < |data|
    ensures o.Continue? ==> o.p.m.state != Apply
    ensures o.Continue? ==> (Remaining(o.p, data) < Remaining(p, data)
      || (Remaining(o.p, data) == Remaining(p, data) && Rank(o.p.m.state) < Rank(p.m.state)))
    ensures o.Continue? ==> o.p.off >= p.off && p.m.effects <= o.p.m.effects
    ensures !o.Continue? ==> o.m.effects == p.m.effects
    ensures o.Returned? ==> p.m.state == Apply && o.m == p.m
    ensures o.Done? && o.reply.Some? ==> o.m.state == Error
  {
    var m := p.m;
    match m.state
    case Idle =>
      if index != 0 then Done(m, None)
      else if env.created.Some? then
        var (addr, size) := env.created.value;
        Continue(p.(m := m.(hex := StartHex, state := SkipNewline, bufferAddr := addr, bufferSize := size)))
      else
        Continue(p.(m := m.(hex := StartHex, state := Error), abort := NoBuffer))
    case SkipNewline =>
      Continue(p.(m := m.(state := ParseLine), off := p.off + StripNewLine(data[p.off..])))
    case ParseLine =>
      var (n, h) := env.parse(data[p.off..], m.hex);
      if n > 0 then Continue(p.(m := m.(hex := h, state := ProcessLine), off := p.off + n))
      else if n == 0 || final then Continue(p.(m := m.(hex := h, state := Error), abort := BadHexLine))
      else Done(m.(hex := h), None)
    case ProcessLine =>
      var (rc, h) := env.process(m.hex);
      if rc == 0 then Continue(p.(m := m.(hex := h, state := CopyLine)))
      else Continue(p.(m := m.(hex := h, state := Error), abort := InvalidHexCode))
    case CopyLine =>
      if m.hex.code != IRT_DATA then Continue(p.(m := m.(state := SkipNewline)))
      else if m.hex.max > Limit(m.bufferSize) then
        Continue(p.(m := m.(state := Error), abort := MaxAddressTooLarge))
      else if !env.inFlash(m.bufferAddr) then
        Continue(p.(m := m.(state := SkipNewline, effects := m.effects + [Stored(Dest(m), m.hex.num, false)])))
      else
        var stored := m.effects + [Stored(Dest(m), m.hex.num, true)];
        if env.flashWrite(Dest(m), m.hex.num) != 0 then
          Continue(p.(m := m.(state := Error, effects := stored), abort := FlashWriteFailed))
        else
          Continue(p.(m := m.(state := SkipNewline, effects := stored)))
    case Apply => Returned(m, ApplyingPrevious)
    case Error => Done(m, Some(p.abort))
    case Complete => Continue(p.(m := m.(state := Error), abort := InternalError))
  }

  /**
   * The loop of lines 243-350, from the pass `p` on.  It terminates; it
   * returns early only when it started in `Apply`, and then changes
   * nothing; an error page leaves it in `Error`; and the buffer calls made
   * before are kept.
   */
  function Run(p: Pass, env: Env, index: nat, data: seq<byte>, final: bool): (o: Outcome)
    ensures !o.Continue?
    ensures o.Returned? ==> p.m.state == Apply && o.m == p.m && o.why == ApplyingPrevious
    ensures o.Done? && o.reply.Some? ==> o.m.state == Error
    ensures o.Done? && o.m.state == Apply ==> o.m == p.m
    ensures p.m.effects <= o.m.effects
    decreases Remaining(p, data), Rank(p.m.state)
  {
    if p.off >= |data| then Done(p.m, None)
    else
      match Step(p, env, index, data, final)
      case Continue(q) => Run(q, env, index, data, final)
      case Done(m, reply) => Done(m, reply)
      case Returned(m, why) => Returned(m, why)
  }

  /** A pass that goes on leaves the rest of the loop to the next pass. */
  lemma RunContinues(p: Pass, env: Env, index: nat, data: seq<byte>, final: bool, q: Pass)
    requires p.off < |data| && Step(p, env, index, data, final) == Continue(q)
    ensures Run(p, env, index, data, final) == Run(q, env, index, data, final)
  {
  }

  /** A pass that stops ends the loop. */
  lemma RunStops(p: Pass, env: Env, index: nat, data: seq<byte>, final: bool)
    requires p.off < |data| && !Step(p, env, index, data, final).Continue?
    ensures Run(p, env, index, data, final) == Step(p, env, index, data, final)
  {
  }

  /** The code at `done:` (lines 352-368). */
  function Epilogue(m: Machine, final: bool): (r: Machine)
    ensures Settled(r.state)
    ensures m.state == Error ==> r.state == Idle && r.bufferAddr == 0
    ensures m.state == Error && m.bufferAddr != 0 ==> r.effects == m.effects + [Freed(m.bufferAddr, m.bufferSize)]
    ensures m.state != Error ==> r == m.(state := r.state)
  {
    if m.state == Error then
      var freed := if m.bufferAddr != 0 then [Freed(m.bufferAddr, m.bufferSize)] else [];
      m.(bufferAddr := 0, state := Idle, effects := m.effects + freed)
    else if final then m.(state := Complete)
    else if m.state != Idle then m.(state := SkipNewline)
    else m
  }

  /**
   * One call of `StartOta` with chunk `data`, which starts `index` bytes
   * into the upload: the fields it leaves and the error page it sends.
   */
  function Upload(m: Machine, env: Env, index: nat, data: seq<byte>, final: bool): (r: (Machine, Option<Abort>))
    ensures Settled(r.0.state)
    ensures r.0.state == Apply ==> r.0 == m
    ensures r.1.Some? && r.1 != Some(ApplyingPrevious) ==> r.0.state == Idle && r.0.bufferAddr == 0
    ensures m.effects <= r.0.effects
  {
    match Run(Pass(m, 0, NoReason), env, index, data, final)
    case Returned(m', why) => (m', Some(why))
    case Done(m', reply) => (Epilogue(m', final), reply)
  }

  /** A pending update is kept while further chunks arrive: they get an error page and change nothing. */
  lemma ApplyKept(m: Machine, env: Env, index: nat, data: seq<byte>, final: bool)
    requires m.state == Apply && |data| > 0
    ensures Upload(m, env, index, data, final) == (m, Some(ApplyingPrevious))
  {
  }

  /**
   * An empty chunk does not keep a pending update: the state falls to
   * `Complete` or `SkipNewline`.
   */
  lemma ApplyDroppedByEmptyChunk(m: Machine, env: Env, index: nat, final: bool)
    requires m.state == Apply
    ensures Upload(m, env, index, [], final).0 == m.(state := if final then Complete else SkipNewline)
  {
  }

  /** In `Idle`, a chunk that does not start the upload is ignored (lines 273-276). */
  lemma LingeringChunk(m: Machine, env: Env, index: nat, data: seq<byte>, final: bool)
    requires m.state == Idle && index != 0 && |data| > 0
    ensures Upload(m, env, index, data, final) == (m.(state := if final then Complete else Idle), None)
  {
  }

  /**
   * A chunk at index 0 in `Idle` starts a new upload: `hexInfo` is reset
   * (`min` = 0xFFFFFFFF, `max` = 0, no lines) and the buffer is created, or
   * the chunk is refused when it cannot be.
   */
  lemma Starts(p: Pass, env: Env, data: seq<byte>, final: bool)
    requires p.m.state == Idle && p.off < |data|
    ensures var o := Step(p, env, 0, data, final);
      && o.Continue? && o.p.off == p.off && o.p.m.effects == p.m.effects
      && o.p.m.hex.min == 0xFFFF_FFFF && o.p.m.hex.max == 0 && o.p.m.hex.lines == 0
      && (if env.created.Some? then
            o.p.m.state == SkipNewline && (o.p.m.bufferAddr, o.p.m.bufferSize) == env.created.value
          else o.p.m.state == Error && o.p.abort == NoBuffer)
  {
  }

  /**
   * The address check of lines 316-319: a data record is stored only when
   * `max` is within the buffer, and one past it is refused before anything
   * is copied or written.
   */
  lemma StoreGuarded(p: Pass, env: Env, index: nat, data: seq<byte>, final: bool)
    requires p.off < |data|
    requires var o := Step(p, env, index, data, final); o.Continue? && o.p.m.effects != p.m.effects
    ensures p.m.state == CopyLine && p.m.hex.code == IRT_DATA && p.m.hex.max <= Limit(p.m.bufferSize)
    ensures Step(p, env, index, data, final).p.m.effects
         == p.m.effects + [Stored(Dest(p.m), p.m.hex.num, env.inFlash(p.m.bufferAddr))]
  {
  }

  lemma AddressRejected(p: Pass, env: Env, index: nat, data: seq<byte>, final: bool)
    requires p.off < |data| && p.m.state == CopyLine && p.m.hex.code == IRT_DATA
    requires p.m.hex.max > Limit(p.m.bufferSize)
    ensures var o := Step(p, env, index, data, final);
      o.Continue? && o.p.m.state == Error && o.p.m.effects == p.m.effects && o.p.abort == MaxAddressTooLarge
  {
  }

  /**
   * The updater object: its state, `hexInfo`, the firmware buffer, whether
   * a callback is registered, and the buffer calls it has made.
   */
  class TeensyOtaUpdater {
    var otaState: OtaState
    var hexInfo: HexInfo
    var bufferAddr: u32
    var bufferSize: u32
    var callbackRegistered: bool
    /** The calls made into the firmware buffer primitives, oldest first. */
    ghost var effects: seq<Effect>

    ghost function State(): Machine
      reads this
    {
      Machine(otaState, hexInfo, bufferAddr, bufferSize, effects)
    }

    /** Between requests the state is settled, and a pending update has a buffer. */
    ghost predicate Valid()
      reads this
    {
      Settled(otaState) && (otaState == Apply ==> bufferAddr != 0)
    }

    /** The constructor (lines 46-68): `Idle`, no callback, no buffer. */
    constructor ()
      ensures Valid() && otaState == Idle && !callbackRegistered && bufferAddr == 0 && effects == []
    {
      otaState := Idle;
      hexInfo := StartHex;
      bufferAddr := 0;
      bufferSize := 0;
      callbackRegistered := false;
      effects := [];
    }

    /** `registerCallback` (lines 100-103). */
    method RegisterCallback(present: bool)
      modifies this`callbackRegistered
      ensures callbackRegistered == present
    {
      callbackRegistered := present;
    }

    /**
     * `StartOta` (lines 234-369): one chunk `data` of the upload, starting
     * `index` bytes into the file; `reply` is the error page it sends.
     */
    method StartOta(index: nat, data: seq<byte>, final: bool, env: Env) returns (reply: Option<Abort>)
      requires Valid()
      modifies this`otaState, this`hexInfo, this`bufferAddr, this`bufferSize, this`effects
      ensures Valid()
      ensures (State(), reply) == Upload(old(State()), env, index, data, final)
    {
      ghost var goal := Run(Pass(State(), 0, NoReason), env, index, data, final);
      var off: nat := 0;
      var abortMsg := NoReason;
      reply := None;
      while off < |data|
        invariant Run(Pass(State(), off, abortMsg), env, index, data, final) == goal
        invariant reply == None
        decreases Remaining(Pass(State(), off, abortMsg), data), Rank(otaState)
      {
        ghost var p := Pass(State(), off, abortMsg);
        match otaState {
          case Idle =>
            if index != 0 {
              // ignore lingering data
              RunStops(p, env, index, data, final);
              break;
            }
            abortMsg := Begin(env, data, final, off, abortMsg);
          case SkipNewline =>
            off := SkipNewlines(env, index, data, final, off, abortMsg);
          case ParseLine =>
            var stop;
            off, abortMsg, stop := ParseLineAt(env, index, data, final, off, abortMsg);
            if stop {
              RunStops(p, env, index, data, final);
              break;
            }
          case ProcessLine =>
            abortMsg := ProcessRecord(env, index, data, final, off, abortMsg);
          case CopyLine =>
            abortMsg := CopyRecord(env, index, data, final, off, abortMsg);
          case Apply =>
            RunStops(p, env, index, data, final);
            reply := Some(ApplyingPrevious);
            return;
          case Error =>
            RunStops(p, env, index, data, final);
            reply := Some(abortMsg);
            break;
          case Complete =>
            abortMsg := InternalError;
            otaState := Error;
        }
        RunContinues(p, env, index, data, final, Pass(State(), off, abortMsg));
      }
      assert goal == Done(State(), reply);
      Finish(final);
    }

    // One method per `case` of the `switch (otaState)` in `start_ota`
    // (lines 244-343), each proved to take the step `Step` takes.  They share
    // `Step`'s view of the loop: `off` is the loop's position in `data`,
    // `abortMsg` the pending abort message, and `index` and `final` the
    // chunk's offset and last-chunk flag.

    /** `case Idle:` for the first chunk (lines 246-272): reset `hexInfo` and create the buffer. */
    method Begin(env: Env, data: seq<byte>, final: bool, off: nat, abortMsg: Abort) returns (abort': Abort)
      requires otaState == Idle && off < |data|
      modifies this`otaState, this`hexInfo, this`bufferAddr, this`bufferSize
      ensures Step(Pass(old(State()), off, abortMsg), env, 0, data, final) == Continue(Pass(State(), off, abort'))
    {
      hexInfo := StartHex;
      otaState := SkipNewline;
      abort' := abortMsg;
      if env.created.Some? {
        bufferAddr, bufferSize := env.created.value.0, env.created.value.1;
      } else {
        abort' := NoBuffer;
        otaState := Error;
      }
    }

    /** `case SkipNewline:` (lines 279-282): skip the line ends. */
    method SkipNewlines(env: Env, index: nat, data: seq<byte>, final: bool, off: nat, abortMsg: Abort) returns (off': nat)
      requires otaState == SkipNewline && off < |data|
      modifies this`otaState
      ensures Step(Pass(old(State()), off, abortMsg), env, index, data, final) == Continue(Pass(State(), off', abortMsg))
    {
      off' := off + StripNewLine(data[off..]);
      otaState := ParseLine;
    }

    /** `case ParseLine:` (lines 284-298): parse one line; `stop` is the jump to `done:` on a line cut short. */
    method ParseLineAt(env: Env, index: nat, data: seq<byte>, final: bool, off: nat, abortMsg: Abort)
      returns (off': nat, abort': Abort, stop: bool)
      requires otaState == ParseLine && off < |data|
      modifies this`otaState, this`hexInfo
      ensures Step(Pass(old(State()), off, abortMsg), env, index, data, final)
           == if stop then Done(State(), None) else Continue(Pass(State(), off', abort'))
    {
      var (lineLength, h) := env.parse(data[off..], hexInfo);
      hexInfo := h;
      off', abort', stop := off, abortMsg, false;
      if lineLength > 0 {
        off' := off + lineLength;
        otaState := ProcessLine;
      } else if lineLength == 0 || final {
        abort' := BadHexLine;
        otaState := Error;
      } else {
        stop := true;
      }
    }

    /** `case ProcessLine:` (lines 300-310): process the parsed record. */
    method ProcessRecord(env: Env, index: nat, data: seq<byte>, final: bool, off: nat, abortMsg: Abort)
      returns (abort': Abort)
      requires otaState == ProcessLine && off < |data|
      modifies this`otaState, this`hexInfo
      ensures Step(Pass(old(State()), off, abortMsg), env, index, data, final) == Continue(Pass(State(), off, abort'))
    {
      var (rc, h) := env.process(hexInfo);
      hexInfo := h;
      abort' := abortMsg;
      if rc == 0 {
        otaState := CopyLine;
      } else {
        abort' := InvalidHexCode;
        otaState := Error;
      }
    }

    /** `case CopyLine:` (lines 312-331): check the address, then copy or write the record. */
    method CopyRecord(env: Env, index: nat, data: seq<byte>, final: bool, off: nat, abortMsg: Abort)
      returns (abort': Abort)
      requires otaState == CopyLine && off < |data|
      modifies this`otaState, this`effects
      ensures Step(Pass(old(State()), off, abortMsg), env, index, data, final) == Continue(Pass(State(), off, abort'))
    {
      otaState := SkipNewline;
      abort' := abortMsg;
      if hexInfo.code == IRT_DATA {
        var addr := Wrap(bufferAddr + hexInfo.base + hexInfo.addr - FLASH_BASE_ADDR);
        if hexInfo.max > Limit(bufferSize) {
          abort' := MaxAddressTooLarge;
          otaState := Error;
        } else if !env.inFlash(bufferAddr) {
          effects := effects + [Stored(addr, hexInfo.num, false)];
        } else {
          var errorVal := env.flashWrite(addr, hexInfo.num);
          effects := effects + [Stored(addr, hexInfo.num, true)];
          if errorVal != 0 {
            abort' := FlashWriteFailed;
            otaState := Error;
          }
        }
      }
    }

    /** The code at `done:` (lines 352-368). */
    method Finish(final: bool)
      modifies this`otaState, this`bufferAddr, this`effects
      ensures State() == Epilogue(old(State()), final)
    {
      if otaState == Error {
        if bufferAddr != 0 {
          effects := effects + [Freed(bufferAddr, bufferSize)];
          bufferAddr := 0;
        }
        otaState := Idle;
      } else if final {
        otaState := Complete;
      } else if otaState != Idle {
        otaState := SkipNewline;
      }
    }

    /**
     * `EndOta` (lines 161-214): at the end of the request a complete
     * upload with a buffer whose image carries the flash ID becomes the
     * pending update and is answered 200; anything else returns to `Idle`
     * with the buffer freed and is answered 500.  A pending update is then
     * handed to the callback, or applied at once when none is registered.
     */
    method EndOta(env: Env) returns (code: int, action: Action)
      requires Valid()
      modifies this`otaState, this`bufferAddr, this`effects
      ensures Valid()
      ensures var ok := old(otaState) == Complete && old(bufferAddr) != 0
                        && env.checkFlashId(old(bufferAddr), Span(hexInfo));
        && (otaState == Apply <==> ok)
        && (ok ==> bufferAddr == old(bufferAddr) && effects == old(effects))
        && (!ok ==> (otaState == Idle && bufferAddr == 0
              && effects == old(effects) + (if old(bufferAddr) != 0 then [Freed(old(bufferAddr), bufferSize)] else [])))
        && code == (if ok then 200 else 500)
        && action == (if !ok then NoAction
                      else if callbackRegistered then NotifyCallback
                      else Reboot(Some((FLASH_BASE_ADDR, bufferAddr, Span(hexInfo)))))
    {
      if bufferAddr == 0 {
        otaState := Error;
      }
      if otaState == Complete {
        // check FLASH_ID in new code - abort if not found
        if !env.checkFlashId(bufferAddr, Span(hexInfo)) {
          otaState := Error;
        }
      }
      if otaState == Complete {
        otaState := Apply;
      } else {
        otaState := Idle;
        if bufferAddr != 0 {
          effects := effects + [Freed(bufferAddr, bufferSize)];
          bufferAddr := 0;
        }
      }
      code := if otaState == Apply then 200 else 500;
      action := NoAction;
      if otaState == Apply {
        if callbackRegistered {
          action := NotifyCallback;
        } else {
          action := ApplyUpdate();
        }
      }
    }

    /**
     * `applyUpdate` (lines 132-149): always reboots, after moving the
     * buffer over the running firmware when an update is pending.
     */
    method ApplyUpdate() returns (action: Action)
      requires Valid()
      ensures action.Reboot? && (action.move.Some? <==> otaState == Apply)
      ensures action.move.Some? ==> action.move.value == (FLASH_BASE_ADDR, bufferAddr, Span(hexInfo)) && bufferAddr != 0
    {
      if otaState == Apply {
        action := Reboot(Some((FLASH_BASE_ADDR, bufferAddr, Span(hexInfo))));
      } else {
        action := Reboot(None);
      }
    }

    /** `isUpdateReady` (lines 116-119): an update is pending, and it has a buffer to move. */
    method IsUpdateReady() returns (ready: bool)
      requires Valid()
      ensures ready <==> otaState == Apply
      ensures ready ==> bufferAddr != 0
    {
      ready := otaState == Apply;
    }
  }
}
