/**
 * The simpler over-the-air upload handler of lib/Ota/Ota.cpp.  Upload
 * chunks are cut into Intel HEX lines in the global 96-byte `line` buffer;
 * a line ends at a `'\n'` or when the buffer is full, and is then parsed,
 * processed and, for a data record, copied into the firmware buffer.
 *
 * `Take` is what one byte of a chunk does, `Feed` the loop over a chunk and
 * `Handle` one call of `handleUpload`; the class method `HandleUpload` is
 * proved to compute `Handle`.  The pending line is `line[..line_index]`.
 */
module Ota {
  import opened Board
  import OtaUpdater

  /** `sizeof(line)`. */
  const LINE_SIZE: nat := 96
  /** The longest line the buffer keeps: `sizeof(line) - 1`, leaving room for the terminator. */
  const MAX_LINE: nat := LINE_SIZE - 1

  const LF: byte := 10
  const CR: byte := 13

  /** The global `hex` (`hex_info_t`), without its `data` pointer. */
  datatype Hex = Hex(addr: u32, num: u32, code: u32, base: u32, min: u32, max: u32, eof: int, lines: int)

  /** The initial value of `hex` (lines 27-32). */
  const HexStart: Hex := Hex(0, 0, 0, 0, 0xFFFF_FFFF, 0, 0, 0)

  /**
   * The code outside this file: `parse_hex_line` (non-zero when the line
   * parses; the `addr`, `num` and `code` it stores), `process_hex_record`
   * (zero for a good record; the `base`, `min`, `max` and `eof` it stores),
   * `flash_write_block`, `IN_FLASH` and what `firmware_buffer_init`
   * creates (`None` when it fails).
   */
  datatype Env = Env(parse: seq<byte> -> (int, u32, u32, u32),
                     process: Hex -> (int, u32, u32, u32, int),
                     flashWrite: (u32, u32) -> int,
                     inFlash: u32 -> bool,
                     created: Option<(u32, u32)>)

  /** Why a chunk is answered with status 400. */
  datatype Reject = CouldNotBegin | BadHexLine | InvalidHexCode | MaxAddressTooLarge | FlashWriteFailed

  /** The globals the line loop works on. */
  datatype Lines = Lines(line: seq<byte>, hex: Hex, bufferAddr: u32, bufferSize: u32, effects: seq<OtaUpdater.Effect>)

  /** A byte either is taken in, or ends a line that is rejected. */
  datatype Taken = Ok(l: Lines) | Failed(l: Lines, why: Reject)

  /** Every global of `Ota`, as a value. */
  datatype Globals = Globals(lines: Lines, status: bool, final: bool)

  /** The line holds neither `'\r'` nor `'\n'`, and fits the buffer with its terminator. */
  predicate Clean(line: seq<byte>)
  {
    |line| <= MAX_LINE && forall k :: 0 <= k < |line| ==> line[k] != CR && line[k] != LF
  }

  /** The C string `parse_hex_line` sees: the line up to its first zero byte. */
  function Text(line: seq<byte>): (t: seq<byte>)
    ensures t <= line && (t == line || line[|t|] == 0)
    ensures forall k :: 0 <= k < |t| ==> t[k] != 0
  {
    if line == [] || line[0] == 0 then [] else [line[0]] + Text(line[1..])
  }

  /** `buffer_addr + hex.base + hex.addr - FLASH_BASE_ADDR` (line 181). */
  function Target(l: Lines, h: Hex): u32
  {
    OtaUpdater.Wrap(l.bufferAddr + h.base + h.addr - OtaUpdater.FLASH_BASE_ADDR)
  }

  /**
   * `parse_hex_line` on the pending line (line 169): whether it parses, and
   * `hex` with the `addr`, `num` and `code` it stores; nothing else of `hex`
   * changes.
   */
  function Parse(l: Lines, env: Env): (r: (int, Hex))
    ensures r.1.base == l.hex.base && r.1.min == l.hex.min && r.1.max == l.hex.max
    ensures r.1.eof == l.hex.eof && r.1.lines == l.hex.lines
  {
    var (ok, addr, num, code) := env.parse(Text(l.line));
    (ok, l.hex.(addr := addr, num := num, code := code))
  }

  /**
   * `process_hex_record` (line 174): its return code, and `hex` with the
   * `base`, `min`, `max` and `eof` it stores; the parsed record stays.
   */
  function Process(h: Hex, env: Env): (r: (int, Hex))
    ensures r.1.addr == h.addr && r.1.num == h.num && r.1.code == h.code && r.1.lines == h.lines
  {
    var (rc, base, min, max, eof) := env.process(h);
    (rc, h.(base := base, min := min, max := max, eof := eof))
  }

  /** The record of the pending line once parsed and processed. */
  function Record(l: Lines, env: Env): Hex
  {
    Process(Parse(l, env).1, env).1
  }

  /**
   * The end of a line (lines 167-202): parse it, process the record, store
   * a data record whose `max` is within the buffer, then count the line and
   * empty the buffer.  A rejected line stays in the buffer and is not
   * counted.
   */
  function EndLine(l: Lines, env: Env): (r: Taken)
    ensures r.Ok? ==> r.l.line == [] && r.l.hex.lines == l.hex.lines + 1
    ensures r.Failed? ==> r.l.line == l.line && r.l.hex.lines == l.hex.lines
    ensures r.l.bufferAddr == l.bufferAddr && r.l.bufferSize == l.bufferSize
    ensures l.effects <= r.l.effects
  {
    var (ok, h) := Parse(l, env);
    if ok == 0 then Failed(l.(hex := h), BadHexLine)
    else
      var (rc, h') := Process(h, env);
      var counted := h'.(lines := h'.lines + 1);
      if rc != 0 then Failed(l.(hex := h'), InvalidHexCode)
      else if h'.code != 0 then Ok(l.(hex := counted, line := []))
      else if h'.max > OtaUpdater.Limit(l.bufferSize) then Failed(l.(hex := h'), MaxAddressTooLarge)
      else if !env.inFlash(l.bufferAddr) then
        Ok(l.(hex := counted, line := [], effects := l.effects + [OtaUpdater.Stored(Target(l, h'), h'.num, false)]))
      else
        var stored := l.effects + [OtaUpdater.Stored(Target(l, h'), h'.num, true)];
        if env.flashWrite(Target(l, h'), h'.num) != 0 then
          Failed(l.(hex := h', effects := stored), FlashWriteFailed)
        else Ok(l.(hex := counted, line := [], effects := stored))
  }

  // Why a line is rejected (lines 169-198), cause by cause, in source order.

  /** A line `parse_hex_line` refuses is rejected before anything is stored. */
  lemma BadLineAborts(l: Lines, env: Env)
    requires Parse(l, env).0 == 0
    ensures var r := EndLine(l, env);
      r == Failed(r.l, BadHexLine) && r.l.effects == l.effects && r.l.line == l.line
  {
  }

  /** A record `process_hex_record` refuses is rejected before anything is stored. */
  lemma InvalidRecordAborts(l: Lines, env: Env)
    requires Parse(l, env).0 != 0 && Process(Parse(l, env).1, env).0 != 0
    ensures var r := EndLine(l, env);
      r == Failed(r.l, InvalidHexCode) && r.l.effects == l.effects && r.l.hex == Record(l, env)
  {
  }

  /**
   * A data record reaching past `FLASH_BASE_ADDR + buffer_size` is rejected
   * before any copy or flash write.
   */
  lemma MaxAddressAborts(l: Lines, env: Env)
    requires Parse(l, env).0 != 0 && Process(Parse(l, env).1, env).0 == 0
    requires Record(l, env).code == 0 && Record(l, env).max > OtaUpdater.Limit(l.bufferSize)
    ensures var r := EndLine(l, env);
      r == Failed(r.l, MaxAddressTooLarge) && r.l.effects == l.effects && r.l.line == l.line
  {
  }

  /** A failed `flash_write_block` rejects the line after the one write it attempted. */
  lemma FlashWriteAborts(l: Lines, env: Env)
    requires Parse(l, env).0 != 0 && Process(Parse(l, env).1, env).0 == 0
    requires Record(l, env).code == 0 && Record(l, env).max <= OtaUpdater.Limit(l.bufferSize)
    requires env.inFlash(l.bufferAddr)
    requires env.flashWrite(Target(l, Record(l, env)), Record(l, env).num) != 0
    ensures var r := EndLine(l, env);
      r == Failed(r.l, FlashWriteFailed)
      && r.l.effects == l.effects + [OtaUpdater.Stored(Target(l, Record(l, env)), Record(l, env).num, true)]
  {
  }

  /** A line is rejected only for one of the four causes above, and names it. */
  lemma AbortsOnlyFor(l: Lines, env: Env)
    ensures var r := EndLine(l, env);
      var h := Record(l, env);
      r.Failed? <==>
        || (r == Failed(r.l, BadHexLine) && Parse(l, env).0 == 0)
        || (r == Failed(r.l, InvalidHexCode) && Parse(l, env).0 != 0 && Process(Parse(l, env).1, env).0 != 0)
        || (r == Failed(r.l, MaxAddressTooLarge) && Parse(l, env).0 != 0 && Process(Parse(l, env).1, env).0 == 0
            && h.code == 0 && h.max > OtaUpdater.Limit(l.bufferSize))
        || (r == Failed(r.l, FlashWriteFailed) && Parse(l, env).0 != 0 && Process(Parse(l, env).1, env).0 == 0
            && h.code == 0 && h.max <= OtaUpdater.Limit(l.bufferSize) && env.inFlash(l.bufferAddr)
            && env.flashWrite(Target(l, h), h.num) != 0)
  {
  }

  /**
   * Every copy or flash write is of a data record that parsed, processed and
   * lies within the buffer, at the address line 181 computes, by `memcpy`
   * into RAM or `flash_write_block` into flash as `IN_FLASH(buffer_addr)` says.
   */
  lemma StoreGuarded(l: Lines, env: Env)
    ensures var r := EndLine(l, env);
      var h := Record(l, env);
      r.l.effects != l.effects ==>
        && Parse(l, env).0 != 0 && Process(Parse(l, env).1, env).0 == 0
        && h.code == 0 && h.max <= OtaUpdater.Limit(l.bufferSize)
        && r.l.effects == l.effects + [OtaUpdater.Stored(Target(l, h), h.num, env.inFlash(l.bufferAddr))]
  {
  }

  /**
   * One byte of a chunk (lines 165-207): a `'\n'`, or any byte arriving
   * when the buffer is full, ends the line and is not stored; a `'\r'` is
   * dropped; any other byte is appended.
   */
  function Take(l: Lines, b: byte, env: Env): (r: Taken)
    requires Clean(l.line)
    ensures Clean(r.l.line)
    ensures r.l.bufferAddr == l.bufferAddr && r.l.bufferSize == l.bufferSize
    ensures l.effects <= r.l.effects
    ensures b == LF || |l.line| == MAX_LINE ==> r == EndLine(l, env)
    ensures b == LF || |l.line| == MAX_LINE || r == Ok(l.(line := l.line + if b == CR then [] else [b]))
  {
    if b == LF || |l.line| == MAX_LINE then EndLine(l, env)
    else if b != CR then Ok(l.(line := l.line + [b]))
    else Ok(l)
  }

  /**
   * The loop over a chunk (lines 162-209): bytes are taken one by one
   * until the end of the chunk or the first rejected line.
   */
  function Feed(l: Lines, data: seq<byte>, env: Env): (r: (Lines, Option<Reject>))
    requires Clean(l.line)
    ensures Clean(r.0.line)
    ensures r.0.bufferAddr == l.bufferAddr && r.0.bufferSize == l.bufferSize
    ensures l.effects <= r.0.effects
    ensures r.0.hex.lines >= l.hex.lines
    ensures r.1 != Some(CouldNotBegin)
    decreases |data|
  {
    if data == [] then (l, None)
    else
      match Take(l, data[0], env)
      case Ok(l') => Feed(l', data[1..], env)
      case Failed(l', why) => (l', Some(why))
  }

  /** The bytes of `data` that are stored: all but the carriage returns. */
  function Stripped(data: seq<byte>): (s: seq<byte>)
    ensures |s| <= |data|
    ensures forall k :: 0 <= k < |s| ==> s[k] != CR
  {
    if data == [] then [] else (if data[0] == CR then [] else [data[0]]) + Stripped(data[1..])
  }

  /**
   * Bytes without a line feed that fit in the buffer accumulate in it,
   * carriage returns left out, and nothing else changes.
   */
  lemma {:induction false} Accumulates(l: Lines, data: seq<byte>, env: Env)
    requires Clean(l.line) && |l.line| + |data| <= MAX_LINE
    requires forall k :: 0 <= k < |data| ==> data[k] != LF
    ensures Feed(l, data, env) == (l.(line := l.line + Stripped(data)), None)
    decreases |data|
  {
    if data != [] {
      var l' := l.(line := l.line + if data[0] == CR then [] else [data[0]]);
      assert Take(l, data[0], env) == Ok(l');
      assert Feed(l, data, env) == Feed(l', data[1..], env);
      Accumulates(l', data[1..], env);
      assert Stripped(data) == (if data[0] == CR then [] else [data[0]]) + Stripped(data[1..]);
      assert l.line + Stripped(data) == l'.line + Stripped(data[1..]);
    } else {
      assert l.line + Stripped(data) == l.line;
    }
  }

  /**
   * A chunk boundary changes nothing: feeding two chunks one after the
   * other is feeding their concatenation, since the partial line stays in
   * the global buffer between calls.
   */
  lemma {:induction false} FeedConcat(l: Lines, a: seq<byte>, b: seq<byte>, env: Env)
    requires Clean(l.line)
    ensures var r := Feed(l, a, env);
      Feed(l, a + b, env) == if r.1.None? then Feed(r.0, b, env) else r
    decreases |a|
  {
    if a == [] {
      assert a + b == b;
    } else {
      assert (a + b)[0] == a[0] && (a + b)[1..] == a[1..] + b;
      match Take(l, a[0], env)
      case Ok(l') => FeedConcat(l', a[1..], b, env);
      case Failed(l', why) =>
    }
  }

  /**
   * `handleUpload` (lines 141-225): create the buffer if the upload is not
   * running yet, refuse the chunk if that fails, feed the chunk, and mark
   * the upload finished on the final chunk unless a line was rejected.
   */
  function Handle(g: Globals, data: seq<byte>, final: bool, env: Env): (r: (Globals, Option<Reject>))
    requires Clean(g.lines.line)
    ensures Clean(r.0.lines.line)
    ensures r.1 == Some(CouldNotBegin) <==> !g.status && env.created.None?
    ensures r.1 == Some(CouldNotBegin) ==> r.0 == g
    ensures r.0.final == (g.final || (r.0.status && final && r.1.None?))
    ensures r.0.status == (g.status || env.created.Some?)
    ensures g.lines.effects <= r.0.lines.effects
  {
    var (status, l) :=
      if g.status then (true, g.lines)
      else if env.created.Some? then
        (true, g.lines.(bufferAddr := env.created.value.0, bufferSize := env.created.value.1))
      else (false, g.lines);
    if !status then (g, Some(CouldNotBegin))
    else
      var (l', rejected) := Feed(l, data, env);
      (Globals(l', true, g.final || (final && rejected.None?)), rejected)
  }

  /** The globals of lib/Ota/Ota.cpp (lines 24-35). */
  class OtaServer {
    var line: array<byte>
    var lineIndex: nat
    var hex: Hex
    var otaStatus: bool
    var otaFinal: bool
    var bufferAddr: u32
    var bufferSize: u32
    /** The calls made into the firmware buffer primitives, oldest first. */
    ghost var effects: seq<OtaUpdater.Effect>

    ghost function Pending(): seq<byte>
      reads this, line
      requires lineIndex <= line.Length
    {
      line[..lineIndex]
    }

    ghost function State(): Globals
      reads this, line
      requires lineIndex <= line.Length
    {
      Globals(Lines(line[..lineIndex], hex, bufferAddr, bufferSize, effects), otaStatus, otaFinal)
    }

    /** `line_index` stays within the buffer and the pending line is clean. */
    ghost predicate Valid()
      reads this, line
    {
      line.Length == LINE_SIZE && lineIndex <= MAX_LINE && Clean(line[..lineIndex])
    }

    constructor ()
      ensures Valid() && lineIndex == 0 && hex == HexStart && !otaStatus && !otaFinal && effects == []
    {
      line := new byte[LINE_SIZE](_ => 0);
      lineIndex := 0;
      hex := HexStart;
      otaStatus := false;
      otaFinal := false;
      bufferAddr := 0;
      bufferSize := 0;
      effects := [];
    }

    /** `line[line_index++] = data[i]` (line 206). */
    method Append(b: byte)
      requires Valid() && lineIndex < MAX_LINE && b != CR && b != LF
      modifies this`lineIndex, line
      ensures Valid() && Pending() == old(Pending()) + [b]
    {
      line[lineIndex] := b;
      lineIndex := lineIndex + 1;
    }

    /** The end of a line (lines 167-202); `why` is the reason it is rejected. */
    method FinishLine(env: Env) returns (why: Option<Reject>)
      requires Valid()
      modifies this`lineIndex, this`hex, this`effects, line
      ensures Valid()
      ensures var r := EndLine(old(State()).lines, env);
        && State().lines == r.l && State().status == otaStatus
        && why == (if r.Failed? then Some(r.why) else None)
    {
      ghost var l := State().lines;
      line[lineIndex] := 0;
      assert line[..lineIndex] == l.line;
      var text := Text(line[..lineIndex]);
      var (ok, addr, num, code) := env.parse(text);
      hex := hex.(addr := addr, num := num, code := code);
      why := None;
      if ok == 0 {
        why := Some(BadHexLine);
        return;
      }
      var (rc, base, min, max, eof) := env.process(hex);
      hex := hex.(base := base, min := min, max := max, eof := eof);
      if rc != 0 {
        why := Some(InvalidHexCode);
        return;
      }
      if hex.code == 0 {
        var addr := OtaUpdater.Wrap(bufferAddr + hex.base + hex.addr - OtaUpdater.FLASH_BASE_ADDR);
        if hex.max > OtaUpdater.Limit(bufferSize) {
          why := Some(MaxAddressTooLarge);
          return;
        } else if !env.inFlash(bufferAddr) {
          effects := effects + [OtaUpdater.Stored(addr, hex.num, false)];
        } else {
          var error := env.flashWrite(addr, hex.num);
          effects := effects + [OtaUpdater.Stored(addr, hex.num, true)];
          if error != 0 {
            why := Some(FlashWriteFailed);
            return;
          }
        }
      }
      hex := hex.(lines := hex.lines + 1);
      lineIndex := 0;
    }

    /** The loop of lines 162-209 over one chunk. */
    method FeedChunk(data: seq<byte>, env: Env) returns (why: Option<Reject>)
      requires Valid()
      modifies this`lineIndex, this`hex, this`effects, line
      ensures Valid()
      ensures (State().lines, why) == Feed(old(State()).lines, data, env)
      ensures otaStatus == old(otaStatus) && otaFinal == old(otaFinal)
    {
      ghost var goal := Feed(State().lines, data, env);
      var i := 0;
      while i < |data|
        invariant i <= |data| && Valid()
        invariant Feed(State().lines, data[i..], env) == goal
        invariant otaStatus == old(otaStatus) && otaFinal == old(otaFinal)
      {
        ghost var l := State().lines;
        assert data[i..][0] == data[i] && data[i..][1..] == data[i + 1..];
        if data[i] == LF || lineIndex == MAX_LINE {
          why := FinishLine(env);
          if why.Some? {
            return;
          }
        } else if data[i] != CR {
          Append(data[i]);
        }
        i := i + 1;
      }
      why := None;
    }

    /** `handleUpload` (lines 141-225); `reply` is the 400 answer it sends, if any. */
    method HandleUpload(data: seq<byte>, final: bool, env: Env) returns (reply: Option<Reject>)
      requires Valid()
      modifies this, line
      ensures Valid() && line == old(line)
      ensures (State(), reply) == Handle(old(State()), data, final, env)
    {
      if !otaStatus {
        if env.created.Some? {
          bufferAddr, bufferSize := env.created.value.0, env.created.value.1;
          otaStatus := true;
        }
      }
      if otaStatus {
        reply := None;
        if |data| > 0 {
          reply := FeedChunk(data, env);
          if reply.Some? {
            return;
          }
        }
        if final {
          otaFinal := true;
        }
      } else {
        reply := Some(CouldNotBegin);
      }
    }

    /**
     * `handleRequest` (lines 83-139): at the end of the request a finished
     * upload whose image carries the flash ID is answered 200 and moved over
     * the running firmware; anything else is answered 500 and its buffer is
     * freed.  The board reboots either way.
     */
    method HandleRequest(checkFlashId: (u32, u32) -> bool) returns (code: int, action: OtaUpdater.Action)
      modifies this`otaFinal, this`effects
      ensures var span := OtaUpdater.Wrap(hex.max - hex.min);
        && otaFinal == (old(otaFinal) && checkFlashId(bufferAddr, span))
        && code == (if otaFinal then 200 else 500)
        && action == OtaUpdater.Reboot(if otaFinal then Some((OtaUpdater.FLASH_BASE_ADDR, bufferAddr, span)) else None)
        && effects == old(effects) + (if otaFinal then [] else [OtaUpdater.Freed(bufferAddr, bufferSize)])
    {
      var span := OtaUpdater.Wrap(hex.max - hex.min);
      if otaFinal {
        if !checkFlashId(bufferAddr, span) {
          otaFinal := false;
        }
      }
      code := if !otaFinal then 500 else 200;
      if otaFinal {
        action := OtaUpdater.Reboot(Some((OtaUpdater.FLASH_BASE_ADDR, bufferAddr, span)));
      } else {
        effects := effects + [OtaUpdater.Freed(bufferAddr, bufferSize)];
        action := OtaUpdater.Reboot(None);
      }
    }
  }
}
