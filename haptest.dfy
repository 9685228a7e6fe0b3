// The pieces of the test program (HapTest/HapTest.cpp) the server relies on: bin2hex, which
// prints keys, t_random, the test build's stand-in for the SRP library's random source, and
// the rule in the configuration's Update callback that keeps the Bonjour "not paired"
// status flag in step with the pairing list.

module HapTest {
  import opened Common

  // ------------------------------------------------------------------
  // bin2hex

  /** The digit table of bin2hex: upper-case. */
  const HexDigits: string := "0123456789ABCDEF"

  /** The two characters bin2hex prints for one byte, high nibble first. */
  function HexPair(b: byte): string
  {
    [HexDigits[b / 16], HexDigits[b % 16]]
  }

  /** What bin2hex prints for bytes, without the terminating NUL. */
  function Hex(bytes: seq<byte>): (r: string)
    ensures |r| == 2 * |bytes|
    ensures forall k :: 0 <= k < |r| ==> '0' <= r[k] <= '9' || 'A' <= r[k] <= 'F'
  {
    if bytes == [] then [] else Hex(bytes[..|bytes| - 1]) + HexPair(bytes[|bytes| - 1])
  }

  /** The value of a digit of the table. */
  function DigitValue(c: char): (v: nat)
    ensures v < 16
  {
    if '0' <= c <= '9' then c as int - '0' as int
    else if 'A' <= c <= 'F' then c as int - 'A' as int + 10
    else 0
  }

  /** Each digit of the table reads back as its position. */
  lemma DigitOf(v: nat)
    requires v < 16
    ensures DigitValue(HexDigits[v]) == v
  {
    if v < 10 {
      assert HexDigits[v] as int == '0' as int + v;
    } else {
      assert HexDigits[v] as int == 'A' as int + v - 10;
    }
  }

  /** The two digits of a byte give the byte back. */
  lemma PairOf(b: byte)
    ensures DigitValue(HexPair(b)[0]) * 16 + DigitValue(HexPair(b)[1]) == b
  {
    DigitOf(b / 16);
    DigitOf(b % 16);
  }

  /** Reads a string of digit pairs back into bytes; a last unpaired character is dropped. */
  function Unhex(s: string): seq<byte>
  {
    if |s| < 2 then []
    else Unhex(s[..|s| - 2]) + [DigitValue(s[|s| - 2]) * 16 + DigitValue(s[|s| - 1])]
  }

  /** Reading one more printed byte. */
  lemma UnhexSnoc(s: string, b: byte)
    ensures Unhex(s + HexPair(b)) == Unhex(s) + [b]
  {
    var t := s + HexPair(b);
    assert t[..|t| - 2] == s;
    assert t[|t| - 2] == HexPair(b)[0] && t[|t| - 1] == HexPair(b)[1];
    PairOf(b);
  }

  /** Reading the printed form back gives the bytes: bin2hex loses nothing. */
  lemma {:induction false} UnhexHex(bytes: seq<byte>)
    ensures Unhex(Hex(bytes)) == bytes
  {
    if bytes != [] {
      var n := |bytes| - 1;
      var pre, b := bytes[..n], bytes[n];
      assert bytes == pre + [b];
      UnhexHex(pre);
      UnhexSnoc(Hex(pre), b);
    }
  }

  /** Different byte strings print differently. */
  lemma HexInjective(a: seq<byte>, b: seq<byte>)
    ensures Hex(a) == Hex(b) ==> a == b
  {
    UnhexHex(a);
    UnhexHex(b);
  }

  /** bin2hex(buf, size, s): prints the first size bytes of buf into s, two digits each, and
      a NUL after them; s must hold 2 * size + 1 characters, and the rest of s is untouched. */
  method Bin2Hex(buf: array<byte>, size: nat, s: array<char>)
    requires size <= buf.Length && 2 * size + 1 <= s.Length
    modifies s
    ensures s[..2 * size] == Hex(buf[..size]) && s[2 * size] == '\0'
    ensures s[2 * size + 1..] == old(s[2 * size + 1..])
  {
    var i := 0;
    while i < size
      invariant i <= size
      invariant s[..2 * i] == Hex(buf[..i])
      invariant s[2 * i..] == old(s[2 * i..])
    {
      var b := buf[i];
      s[2 * i] := HexDigits[b / 16];
      s[2 * i + 1] := HexDigits[b % 16];
      assert buf[..i + 1][..i] == buf[..i];
      assert s[..2 * (i + 1)] == s[..2 * i] + HexPair(b);
      i := i + 1;
    }
    s[2 * size] := '\0';
  }

  // ------------------------------------------------------------------
  // t_random

  /** The bytes t_random fills in: byte i is the low eight bits of i. */
  function Counting(n: nat): (r: seq<byte>)
    ensures |r| == n && forall i :: 0 <= i < n ==> r[i] == i % 0x100
  {
    seq(n, i requires 0 <= i < n => i % 0x100)
  }

  /** t_random(data, size): the test build writes a counting pattern in place of random
      bytes (the rand() call is commented out), so every salt M1 sends is 0, 1, ..., 15. */
  method TRandom(data: array<byte>, size: nat)
    requires size <= data.Length
    modifies data
    ensures data[..size] == Counting(size) && data[size..] == old(data[size..])
  {
    var i := 0;
    while i < size
      invariant i <= size
      invariant data[..i] == Counting(i) && data[i..] == old(data[i..])
    {
      data[i] := i % 0x100;
      i := i + 1;
    }
  }

  // ------------------------------------------------------------------
  // The Update callback's status-flag rule

  /** The Bonjour status flag "not paired" (bit 0 of the sf value, as the HomeKit Accessory
      Protocol assigns it; Hap.h, which defines it, is not part of this model). */
  const NotPaired: bv8 := 0x01

  /** The Bonjour status flag "not configured for Wi-Fi" (bit 1 of the sf value). */
  const NotConfiguredForWiFi: bv8 := 0x02

  /** The status flags and the mdns signal after the rule: a set flag is cleared once the
      pairing list is not empty, a clear one is set once it is empty, and the mdns record
      is updated only when the flag changed. */
  function StatusRule(flags: bv8, pairings: nat): (r: (bv8, bool))
    ensures (r.0 & NotPaired != 0) <==> pairings == 0
    ensures r.0 & !NotPaired == flags & !NotPaired
    ensures r.1 <==> (flags & NotPaired != 0) != (r.0 & NotPaired != 0)
  {
    var paired := pairings != 0;
    if paired && flags & NotPaired != 0 then (flags & !NotPaired, true)
    else if !paired && flags & NotPaired == 0 then (flags | NotPaired, true)
    else (flags, false)
  }

  /** Running the rule twice changes nothing the second time and signals nothing. */
  lemma StatusRuleSettles(flags: bv8, pairings: nat)
    ensures StatusRule(StatusRule(flags, pairings).0, pairings) == (StatusRule(flags, pairings).0, false)
  {
    var f := StatusRule(flags, pairings).0;
    assert (f & NotPaired != 0) <==> pairings == 0;
  }

  /** The flags Reset writes agree with the pairing list it empties: the rule then changes
      nothing; after the first pairing it clears only NotPaired and signals mdns. */
  lemma ResetFlagsSettled(pairings: nat)
    ensures StatusRule(NotPaired | NotConfiguredForWiFi, pairings) ==
      if pairings == 0 then (NotPaired | NotConfiguredForWiFi, false) else (NotConfiguredForWiFi, true)
  {
  }

  /** The configuration the callback works on (Hap::config), reduced to its status flags. */
  class Config {
    var statusFlags: bv8

    /** Exec(Reset), which Restore falls into: the status flags say not paired and not
        configured for Wi-Fi, and no other bit is set. */
    constructor ()
      ensures statusFlags == NotPaired | NotConfiguredForWiFi
      ensures statusFlags & NotPaired != 0 && statusFlags & NotConfiguredForWiFi != 0
      ensures statusFlags & !(NotPaired | NotConfiguredForWiFi) == 0
    {
      statusFlags := 0 | NotPaired | NotConfiguredForWiFi;
    }

    /** myConfig.Update: applies the rule for a pairing list of the given size and says
        whether mdns must be updated. */
    method Update(pairings: nat) returns (mdnsUpdate: bool)
      modifies this
      ensures (statusFlags, mdnsUpdate) == StatusRule(old(statusFlags), pairings)
    {
      mdnsUpdate := false;
      var paired := pairings != 0;
      if paired && statusFlags & NotPaired != 0 {
        statusFlags := statusFlags & !NotPaired;
        mdnsUpdate := true;
      } else if !paired && statusFlags & NotPaired == 0 {
        statusFlags := statusFlags | NotPaired;
        mdnsUpdate := true;
      }
    }
  }
}
