/**
 * The settings kept in EEPROM (lib/Persist).  The EEPROM holds the two
 * signature bytes `'b'`, `'C'` at offsets 0 and 1 and then the settings
 * struct byte for byte from offset 2; the struct's first field `cb` is a
 * little-endian `uint16_t` holding the struct's own size, and serves as its
 * version.  The struct is treated as an opaque image of `sizeof(data)`
 * bytes: `Written` is what `write` leaves in EEPROM, `Recall` what `setup`
 * ends with, and `RecallWritten` is the round trip between them.
 */
module Persist {
  import opened Board

  /** The signature bytes `'b'` and `'C'`. */
  const SIG_B: byte := 98
  const SIG_C: byte := 67

  /** The `cb` field of a struct image: its first two bytes, little-endian. */
  function Cb(d: seq<byte>): (n: u16)
    requires |d| >= 2
    ensures n % 256 == d[0] && n / 256 == d[1]
  {
    d[0] as int + 256 * d[1] as int
  }

  /** A struct image whose `cb` field holds its own size, as `setup` makes it. */
  predicate Versioned(d: seq<byte>)
  {
    2 <= |d| && Cb(d) == |d|
  }

  /** The EEPROM starts with the signature. */
  predicate Signed(e: seq<byte>)
  {
    2 <= |e| && e[0] == SIG_B && e[1] == SIG_C
  }

  /** `cbOnDisk`: the size field of the struct stored in EEPROM. */
  function CbOnDisk(e: seq<byte>): (n: u16)
    requires |e| >= 4
    ensures n == Cb(e[2..])
  {
    e[2] as int + 256 * e[3] as int
  }

  /** The EEPROM `e` after `write` of the struct image `d`. */
  function Written(e: seq<byte>, d: seq<byte>): (r: seq<byte>)
    requires |d| + 2 <= |e|
    ensures |r| == |e| && Signed(r)
    ensures forall i :: 0 <= i < |d| ==> r[i + 2] == d[i]
    ensures forall i :: |d| + 2 <= i < |e| ==> r[i] == e[i]
  {
    [SIG_B, SIG_C] + d + e[|d| + 2..]
  }

  /**
   * `setup` from the EEPROM `e` with the default struct image `defaults`:
   * the struct it ends with and the EEPROM it leaves.
   */
  function Recall(e: seq<byte>, defaults: seq<byte>): (r: (seq<byte>, seq<byte>))
    requires Versioned(defaults) && |defaults| + 2 <= |e|
    ensures |r.0| == |defaults| && r.0[..2] == defaults[..2] && Versioned(r.0)
    ensures |r.1| == |e| && Signed(r.1)
  {
    if Signed(e) && CbOnDisk(e) == |defaults| then (defaults[..2] + e[4..|defaults| + 2], e)
    else (defaults, Written(e, defaults))
  }

  /** Two images with the same size field agree on its two bytes. */
  lemma SameCb(a: seq<byte>, b: seq<byte>)
    requires |a| >= 2 && |b| >= 2 && Cb(a) == Cb(b)
    ensures a[..2] == b[..2]
  {
    assert a[0] == Cb(a) % 256 == b[0];
    assert a[1] == Cb(a) / 256 == b[1];
  }

  /** Without the signature, `setup` keeps the defaults and writes them out. */
  lemma RecallUnsigned(e: seq<byte>, defaults: seq<byte>)
    requires Versioned(defaults) && |defaults| + 2 <= |e| && !Signed(e)
    ensures Recall(e, defaults) == (defaults, Written(e, defaults))
  {
  }

  /** A struct of another size in EEPROM is rejected: the defaults are kept and rewritten. */
  lemma RecallStale(e: seq<byte>, defaults: seq<byte>)
    requires Versioned(defaults) && |defaults| + 2 <= |e| && CbOnDisk(e) != |defaults|
    ensures Recall(e, defaults) == (defaults, Written(e, defaults))
  {
  }

  /**
   * A signed struct of the right size is loaded: bytes 2.. of the struct
   * come from EEPROM offsets 4.., `cb` is not read again, and the EEPROM
   * is left alone.
   */
  lemma RecallLoads(e: seq<byte>, defaults: seq<byte>)
    requires Versioned(defaults) && |defaults| + 2 <= |e|
    requires Signed(e) && CbOnDisk(e) == |defaults|
    ensures Recall(e, defaults).1 == e
    ensures forall i :: 2 <= i < |defaults| ==> Recall(e, defaults).0[i] == e[i + 2]
    ensures Recall(e, defaults).0 == e[2..|defaults| + 2]
  {
    SameCb(defaults, e[2..]);
  }

  /** Round trip: `setup` after `write` of a struct of the current size restores it exactly. */
  lemma RecallWritten(e: seq<byte>, d: seq<byte>, defaults: seq<byte>)
    requires Versioned(d) && Versioned(defaults) && |d| == |defaults| && |d| + 2 <= |e|
    ensures Recall(Written(e, d), defaults) == (d, Written(e, d))
  {
    var w := Written(e, d);
    assert w[2..|d| + 2] == d;
    assert w[2..][..2] == d[..2];
    RecallLoads(w, defaults);
  }

  /** `setup` is idempotent: booting again finds what the last boot left. */
  lemma RecallIdempotent(e: seq<byte>, defaults: seq<byte>)
    requires Versioned(defaults) && |defaults| + 2 <= |e|
    ensures var r := Recall(e, defaults); Recall(r.1, defaults) == r
  {
    var r := Recall(e, defaults);
    if Signed(e) && CbOnDisk(e) == |defaults| {
      assert r.1 == e;
    } else {
      RecallWritten(e, defaults, defaults);
      var w := Written(e, defaults);
      assert Written(w, defaults) == w;
    }
  }

  /**
   * The global struct `data` and the EEPROM device.  `data` is the image
   * of `persistence_t`; `eeprom` holds every EEPROM cell.
   */
  class Persisted {
    var data: array<byte>
    var eeprom: array<byte>

    /** The struct carries its own size and fits in EEPROM after the signature. */
    ghost predicate Valid()
      reads this, data
    {
      Versioned(data[..]) && data.Length + 2 <= eeprom.Length && data != eeprom
    }

    /** A struct of `size` zero bytes and an EEPROM holding `cells`. */
    constructor (size: nat, cells: seq<byte>)
      requires 2 <= size && size + 2 <= |cells|
      ensures data.Length == size && eeprom[..] == cells && fresh(data) && fresh(eeprom)
    {
      data := new byte[size](_ => 0);
      eeprom := new byte[|cells|](i requires 0 <= i < |cells| => cells[i]);
    }

    /**
     * `write` (Persist.cpp lines 89-104): struct byte `i` goes to offset
     * `i + 2` for every `i < data.cb`, and the signature is written last.
     */
    method Write()
      requires Valid()
      modifies eeprom
      ensures eeprom[..] == Written(old(eeprom[..]), data[..])
    {
      var cb: u16 := data[0] as int + 256 * data[1] as int;
      var i: u16 := 0;
      while i < cb
        invariant 0 <= i <= cb == data.Length
        invariant forall k :: 0 <= k < i ==> eeprom[k + 2] == data[k]
        invariant forall k :: 0 <= k < eeprom.Length && !(2 <= k < i + 2) ==> eeprom[k] == old(eeprom[k])
      {
        eeprom[i + 2] := data[i];
        i := i + 1;
      }
      eeprom[0] := SIG_B;
      eeprom[1] := SIG_C;
      ghost var w := Written(old(eeprom[..]), data[..]);
      assert forall k :: 0 <= k < eeprom.Length ==> eeprom[k] == w[k] by {
        forall k | 0 <= k < eeprom.Length
          ensures eeprom[k] == w[k]
        {
          if 2 <= k < cb + 2 {
            assert eeprom[(k - 2) + 2] == data[k - 2];
          }
        }
      }
    }

    /** The read-back loop of lines 53-62: struct bytes 2.. from EEPROM offsets 4... */
    method Load()
      requires Valid() && Signed(eeprom[..]) && CbOnDisk(eeprom[..]) == data.Length
      modifies data
      ensures data[..] == eeprom[2..data.Length + 2]
    {
      var cbOnDisk: u16 := eeprom[2] as int + 256 * eeprom[3] as int;
      var cbToRead := Min(cbOnDisk, data.Length) - 2;
      ghost var d0 := data[..];
      SameCb(d0, eeprom[2..]);
      for i := 0 to cbToRead
        invariant data[..] == d0[..2] + eeprom[4..i + 4] + d0[i + 2..]
      {
        data[i + 2] := eeprom[i + 4];
      }
      assert eeprom[2..data.Length + 2] == eeprom[2..4] + eeprom[4..data.Length + 2];
    }

    /**
     * `setup` (Persist.cpp lines 10-87): start from the default image, then
     * load the struct from EEPROM if it is signed and of the current size,
     * or else write the defaults out.
     */
    method Setup(defaults: seq<byte>)
      requires Versioned(defaults) && |defaults| == data.Length
      requires data.Length + 2 <= eeprom.Length && data != eeprom
      modifies data, eeprom
      ensures Valid()
      ensures (data[..], eeprom[..]) == Recall(old(eeprom[..]), defaults)
    {
      forall i | 0 <= i < data.Length {
        data[i] := defaults[i];
      }
      assert data[..] == defaults && eeprom[..] == old(eeprom[..]);
      if eeprom[0] == SIG_B && eeprom[1] == SIG_C {
        var cbOnDisk: u16 := eeprom[2] as int + 256 * eeprom[3] as int;
        assert cbOnDisk == CbOnDisk(eeprom[..]);
        if cbOnDisk != data.Length {
          Write();
          RecallStale(old(eeprom[..]), defaults);
          assert data[..] == defaults;
          assert eeprom[..] == Written(old(eeprom[..]), defaults);
        } else {
          Load();
          RecallLoads(eeprom[..], defaults);
        }
      } else {
        Write();
        RecallUnsigned(old(eeprom[..]), defaults);
      }
    }
  }
}
