// TLV8 codec of the HomeKit Accessory Protocol: Hap::Tlv::Parse<MaxTlv> and Hap::Tlv::Create.
//
// A TLV8 item is one type byte, one length byte and that many value bytes.  Parse records
// the offsets of the items of a borrowed byte buffer in a bounded table; Create appends
// items to a borrowed output buffer by advancing a length cursor.

module Tlv {
  import opened Common

  // enum class Type
  const TypeMethod: byte := 0x00
  const TypeIdentifier: byte := 0x01
  const TypeSalt: byte := 0x02
  const TypePublicKey: byte := 0x03
  const TypeProof: byte := 0x04
  const TypeEncryptedData: byte := 0x05
  const TypeState: byte := 0x06
  const TypeError: byte := 0x07
  const TypeRetryDelay: byte := 0x08
  const TypeCertificate: byte := 0x09
  const TypeSignature: byte := 0x0A
  const TypePermissions: byte := 0x0B
  const TypeFragmentData: byte := 0x0C
  const TypeFragmentLast: byte := 0x0D
  const TypeSeparator: byte := 0xFF
  const TypeInvalid: byte := 0xFE

  // enum class State
  const StateM1: byte := 1
  const StateM2: byte := 2
  const StateM3: byte := 3
  const StateM4: byte := 4
  const StateM5: byte := 5
  const StateM6: byte := 6

  // enum class Error
  const ErrorUnknown: byte := 0x01
  const ErrorAuthentication: byte := 0x02
  const ErrorBackoff: byte := 0x03
  const ErrorMaxPeers: byte := 0x04
  const ErrorMaxTries: byte := 0x05
  const ErrorUnavailable: byte := 0x06
  const ErrorBusy: byte := 0x07

  /** One decoded item: its type byte and the value bytes that lie inside the buffer. */
  datatype Item = Item(t: byte, v: seq<byte>)

  // ---------------------------------------------------------------------------------------
  // The layout that Parse::parse discovers, as functions of the buffer.

  /** Cursor after the item whose header is at pos.  An item whose declared length runs past
      the end of the buffer is cut so that the cursor lands exactly at the end. */
  function Next(b: seq<byte>, pos: nat): (q: nat)
    requires pos + 2 <= |b|
    ensures pos + 2 <= q <= |b|
  {
    if pos + 2 + b[pos + 1] > |b| then |b| else pos + 2 + b[pos + 1]
  }

  /** The item whose header is at pos, with its value cut at the end of the buffer. */
  function ItemAt(b: seq<byte>, pos: nat): Item
    requires pos + 2 <= |b|
  {
    Item(b[pos], b[pos + 2 .. Next(b, pos)])
  }

  /** Offsets of the items found from pos on, recording at most budget of them; the scan
      stops, without error, once fewer than two bytes remain. */
  function Offsets(b: seq<byte>, pos: nat, budget: nat): seq<nat>
    requires pos <= |b|
    decreases budget
  {
    if budget == 0 || |b| - pos < 2 then [] else [pos] + Offsets(b, Next(b, pos), budget - 1)
  }

  /** The items at those offsets. */
  function ItemsFrom(b: seq<byte>, pos: nat, budget: nat): seq<Item>
    requires pos <= |b|
    decreases budget
  {
    if budget == 0 || |b| - pos < 2 then [] else [ItemAt(b, pos)] + ItemsFrom(b, Next(b, pos), budget - 1)
  }

  /** Where the cursor stands when the scan stops. */
  function ScanEnd(b: seq<byte>, pos: nat, budget: nat): nat
    requires pos <= |b|
    decreases budget
  {
    if budget == 0 || |b| - pos < 2 then pos else ScanEnd(b, Next(b, pos), budget - 1)
  }

  /** The items Parse<maxTlv> records for buffer b. */
  function ItemsOf(b: seq<byte>, maxTlv: nat): seq<Item>
  {
    ItemsFrom(b, 0, maxTlv)
  }

  /** The shape of a scan: at most budget items, offsets from pos on, each header inside the
      buffer, each offset the cursor after the previous item (so offsets strictly increase),
      and the items are the ones at those offsets. */
  lemma {:induction false} OffsetsShape(b: seq<byte>, pos: nat, budget: nat)
    requires pos <= |b|
    ensures var o := Offsets(b, pos, budget);
      |o| <= budget && |o| == |ItemsFrom(b, pos, budget)| &&
      (|o| > 0 ==> o[0] == pos) &&
      (forall i :: 0 <= i < |o| ==> pos <= o[i] && o[i] + 2 <= |b|) &&
      (forall i :: 0 <= i < |o| ==> ItemsFrom(b, pos, budget)[i] == ItemAt(b, o[i])) &&
      (forall i :: 0 <= i < |o| - 1 ==> o[i + 1] == Next(b, o[i]))
    decreases budget
  {
    if budget == 0 || |b| - pos < 2 {
    } else {
      OffsetsShape(b, Next(b, pos), budget - 1);
      var o := Offsets(b, pos, budget);
      var r := Offsets(b, Next(b, pos), budget - 1);
      assert o == [pos] + r;
      assert forall i :: 0 < i < |o| ==> o[i] == r[i - 1];
    }
  }

  /** The scan ends inside the buffer, and when it found fewer items than its budget
      allows, it stopped because fewer than two bytes remained. */
  lemma {:induction false} ScanStops(b: seq<byte>, pos: nat, budget: nat)
    requires pos <= |b|
    ensures pos <= ScanEnd(b, pos, budget) <= |b|
    ensures |Offsets(b, pos, budget)| < budget ==> |b| - ScanEnd(b, pos, budget) < 2
    decreases budget
  {
    if budget > 0 && |b| - pos >= 2 {
      ScanStops(b, Next(b, pos), budget - 1);
    }
  }

  /** An item whose declared length overruns the buffer is the last one recorded, and the
      cursor then stands exactly at the end of the buffer. */
  lemma {:induction false} ClampIsLast(b: seq<byte>, pos: nat, budget: nat, i: nat)
    requires pos <= |b|
    requires i < |Offsets(b, pos, budget)| && Offsets(b, pos, budget)[i] + 1 < |b|
    requires Offsets(b, pos, budget)[i] + 2 + b[Offsets(b, pos, budget)[i] + 1] > |b|
    ensures i == |Offsets(b, pos, budget)| - 1 && ScanEnd(b, pos, budget) == |b|
    decreases budget
  {
    OffsetsShape(b, pos, budget);
    var q := Next(b, pos);
    var r := Offsets(b, q, budget - 1);
    assert Offsets(b, pos, budget) == [pos] + r;
    if i == 0 {
      assert q == |b|;
    } else {
      assert Offsets(b, pos, budget)[i] == r[i - 1];
      ClampIsLast(b, q, budget - 1, i - 1);
    }
  }

  // ---------------------------------------------------------------------------------------
  // Little-endian integers.

  function Pow256(k: nat): (p: nat)
    ensures p >= 1
  {
    if k == 0 then 1 else 0x100 * Pow256(k - 1)
  }

  /** The unsigned little-endian number that the bytes s stand for. */
  function LeValue(s: seq<byte>): nat
  {
    if s == [] then 0 else s[0] + 0x100 * LeValue(s[1..])
  }

  /** The fewest little-endian bytes (at least one) that stand for v, as addInt stores them. */
  function MinLe(v: nat): (s: seq<byte>)
    ensures |s| >= 1
  {
    [v % 0x100] + if v / 0x100 == 0 then [] else MinLe(v / 0x100)
  }

  lemma {:induction false} LeValueSnoc(s: seq<byte>, k: nat)
    requires k < |s|
    ensures LeValue(s[..k + 1]) == LeValue(s[..k]) + s[k] * Pow256(k)
  {
    if k == 0 {
      assert s[..1][1..] == [];
    } else {
      var r := s[1..];
      LeValueSnoc(r, k - 1);
      assert s[..k + 1][1..] == r[..k] && s[..k][1..] == r[..k - 1] && r[k - 1] == s[k];
      var p := Pow256(k - 1);
      assert Pow256(k) == 0x100 * p;
      calc {
        LeValue(s[..k + 1]);
        s[0] + 0x100 * LeValue(r[..k]);
        s[0] + 0x100 * (LeValue(r[..k - 1]) + s[k] * p);
        { MulShift(LeValue(r[..k - 1]), s[k], p); }
        s[0] + 0x100 * LeValue(r[..k - 1]) + s[k] * (0x100 * p);
        LeValue(s[..k]) + s[k] * Pow256(k);
      }
    }
  }

  lemma MulShift(a: int, b: int, p: int)
    ensures 0x100 * (a + b * p) == 0x100 * a + b * (0x100 * p)
  {
  }

  /** Decoding what addInt stores gives back the integer. */
  lemma {:induction false} LeValueMinLe(v: nat)
    ensures LeValue(MinLe(v)) == v
    decreases v
  {
    if v / 0x100 != 0 {
      LeValueMinLe(v / 0x100);
      assert MinLe(v)[1..] == MinLe(v / 0x100);
    }
  }

  /** The encoding is minimal: only zero is stored with a zero top byte. */
  lemma {:induction false} MinLeMinimal(v: nat)
    ensures MinLe(v)[|MinLe(v)| - 1] == 0 <==> v == 0
    decreases v
  {
    if v / 0x100 != 0 {
      MinLeMinimal(v / 0x100);
      assert MinLe(v)[|MinLe(v)| - 1] == MinLe(v / 0x100)[|MinLe(v / 0x100)| - 1];
    }
  }

  /** A 32-bit value never needs more than four bytes. */
  lemma MinLeShort(v: nat)
    requires v < U32
    ensures |MinLe(v)| <= 4
  {
    var v1 := v / 0x100;
    var v2 := v1 / 0x100;
    var v3 := v2 / 0x100;
    assert v3 < 0x100;
    if v1 != 0 {
      if v2 != 0 {
        if v3 != 0 {
          assert v3 / 0x100 == 0;
          assert |MinLe(v3)| == 1;
        }
        assert |MinLe(v2)| <= 2;
      }
      assert |MinLe(v1)| <= 3;
    }
  }

  /** The low byte of a little-endian number is its first byte: what get<T> keeps when it
      casts the integer of an item to a uint8_t enumeration. */
  lemma LeValueLowByte(s: seq<byte>)
    ensures LeValue(s) % 0x100 == if s == [] then 0 else s[0]
  {
  }

  // ---------------------------------------------------------------------------------------
  // Searching an item list, as Parse::get and the handlers do.

  /** Index of the first item of type t. */
  function Find(items: seq<Item>, t: byte): Option<nat>
  {
    if items == [] then None
    else if items[0].t == t then Some(0)
    else match Find(items[1..], t)
      case None => None
      case Some(k) => Some(k + 1)
  }

  lemma {:induction false} FindSpec(items: seq<Item>, t: byte)
    ensures Find(items, t).None? <==> forall i :: 0 <= i < |items| ==> items[i].t != t
    ensures Find(items, t).Some? ==>
      var k := Find(items, t).value;
      k < |items| && items[k].t == t && forall j :: 0 <= j < k ==> items[j].t != t
  {
    if items != [] && items[0].t != t {
      FindSpec(items[1..], t);
      assert forall i :: 0 < i < |items| ==> items[i] == items[1..][i - 1];
    }
  }

  /** The first item of type t. */
  function First(items: seq<Item>, t: byte): Option<Item>
  {
    match Find(items, t)
    case None => None
    case Some(k) => if k < |items| then Some(items[k]) else None
  }

  /** get(t, v): the first item of type t, decoded little-endian. */
  function IntOf(items: seq<Item>, t: byte): Option<int>
  {
    match First(items, t)
    case None => None
    case Some(it) => Some(LeValue(it.v))
  }

  /** get(t, v) into a uint8_t enumeration (State, Method): the integer cast to 8 bits. */
  function ByteOf(items: seq<Item>, t: byte): (r: Option<byte>)
    ensures r.None? <==> forall i :: 0 <= i < |items| ==> items[i].t != t
    ensures r.Some? ==>
      exists k :: 0 <= k < |items| && items[k].t == t && (forall j :: 0 <= j < k ==> items[j].t != t) &&
        r.value == (if items[k].v == [] then 0 else items[k].v[0])
  {
    FindSpec(items, t);
    match IntOf(items, t)
    case None => None
    case Some(n) =>
      LeValueLowByte(First(items, t).value.v);
      Some(n % 0x100)
  }

  /** The bytes of the run of consecutive items of type t that begins at index j. */
  function RunFrom(items: seq<Item>, j: nat, t: byte): seq<byte>
    decreases |items| - j
  {
    if j >= |items| || items[j].t != t then [] else items[j].v + RunFrom(items, j + 1, t)
  }

  /** getData(i, ...), the documented contract: the fragments of the value that begins at i. */
  function RunData(items: seq<Item>, i: nat): seq<byte>
  {
    if i < |items| then RunFrom(items, i, items[i].t) else []
  }

  /** getData as written at HapTlv.h:192: it stops with false when a fragment is SHORTER than
      the room left, and otherwise copies the fragment whatever its size (the uint16_t room
      then wraps).  The result is (returned flag, bytes copied). */
  function RunCopyAsWritten(items: seq<Item>, j: nat, t: byte, room: int, copied: nat): (bool, nat)
    decreases |items| - j
  {
    if j >= |items| || items[j].t != t then (true, copied)
    else if |items[j].v| < room then (false, copied)
    else RunCopyAsWritten(items, j + 1, t, (room - |items[j].v|) % U16, copied + |items[j].v|)
  }

  /** The guard is reversed: a 5-byte value is reported as copied into a 3-byte buffer (an
      overflow), and a 1-byte value that fits into 10 bytes is refused. */
  lemma GetDataGuardReversed()
    ensures RunCopyAsWritten([Item(TypeSalt, [1, 2, 3, 4, 5])], 0, TypeSalt, 3, 0) == (true, 5)
    ensures RunCopyAsWritten([Item(TypeSalt, [1])], 0, TypeSalt, 10, 0).0 == false
    ensures |RunData([Item(TypeSalt, [1])], 0)| <= 10
    ensures |RunData([Item(TypeSalt, [1, 2, 3, 4, 5])], 0)| > 3
  {
    assert RunFrom([Item(TypeSalt, [1])], 1, TypeSalt) == [];
    assert RunFrom([Item(TypeSalt, [1, 2, 3, 4, 5])], 1, TypeSalt) == [];
  }

  // ---------------------------------------------------------------------------------------
  // The byte image of an item list, as Create writes it.

  ghost predicate AllShort(items: seq<Item>)
  {
    forall i :: 0 <= i < |items| ==> |items[i].v| < 0x100
  }

  function Encode(items: seq<Item>): seq<byte>
    requires AllShort(items)
  {
    if items == [] then [] else [items[0].t, |items[0].v|] + items[0].v + Encode(items[1..])
  }

  lemma {:induction false} EncodeAppend(a: seq<Item>, b: seq<Item>)
    requires AllShort(a) && AllShort(b)
    ensures AllShort(a + b) && Encode(a + b) == Encode(a) + Encode(b)
  {
    assert AllShort(a + b) by {
      forall i | 0 <= i < |a + b| ensures |(a + b)[i].v| < 0x100 {
        if i < |a| {
          assert (a + b)[i] == a[i];
        } else {
          assert (a + b)[i] == b[i - |a|];
        }
      }
    }
    if a != [] {
      assert (a + b)[1..] == a[1..] + b;
      assert (a + b)[0] == a[0];
      assert AllShort(a[1..]) by {
        forall i | 0 <= i < |a[1..]| ensures |a[1..][i].v| < 0x100 {
          assert a[1..][i] == a[i + 1];
        }
      }
      EncodeAppend(a[1..], b);
      calc {
        Encode(a + b);
        [a[0].t, |a[0].v|] + a[0].v + Encode(a[1..] + b);
        [a[0].t, |a[0].v|] + a[0].v + (Encode(a[1..]) + Encode(b));
        Encode(a) + Encode(b);
      }
    } else {
      assert a + b == b;
    }
  }

  /** Parsing a buffer whose bytes from pos on are the image of an item list, followed by
      fewer than two stray bytes, gives back the items, and the scan ends where the image
      ends. */
  lemma {:induction false} ParseEncoded(b: seq<byte>, pos: nat, items: seq<Item>, tail: seq<byte>, budget: nat)
    requires AllShort(items) && budget >= |items| && |tail| < 2
    requires pos <= |b| && b[pos..] == Encode(items) + tail
    ensures ItemsFrom(b, pos, budget) == items
    ensures ScanEnd(b, pos, budget) == |b| - |tail|
    decreases items
  {
    if items != [] {
      var q := ParseFirst(b, pos, items, tail);
      AllShortTail(items);
      ParseEncoded(b, q, items[1..], tail, budget - 1);
      assert items == [items[0]] + items[1..];
    } else {
      assert b[pos..] == tail;
    }
  }

  /** The first item of an encoded list is read back whole, and the rest of the list starts
      right behind it. */
  lemma ParseFirst(b: seq<byte>, pos: nat, items: seq<Item>, tail: seq<byte>) returns (q: nat)
    requires AllShort(items) && items != []
    requires pos <= |b| && b[pos..] == Encode(items) + tail
    ensures |b| - pos >= 2 && q == Next(b, pos) && ItemAt(b, pos) == items[0]
    ensures q <= |b| && b[q..] == Encode(items[1..]) + tail
  {
    var it := items[0];
    q := pos + 2 + |it.v|;
    var head := [it.t, |it.v| as byte] + it.v;
    assert Encode(items) == head + Encode(items[1..]);
    AppendAssoc(head, Encode(items[1..]), tail);
    ItemImage(b, pos, it.t, it.v, Encode(items[1..]) + tail);
  }

  lemma AppendAssoc(a: seq<byte>, b: seq<byte>, c: seq<byte>)
    ensures (a + b) + c == a + (b + c)
  {
  }

  /** Only the last item recorded can have a declared length that overruns the buffer. */
  lemma ClampOnlyLast(b: seq<byte>, budget: nat, i: nat)
    requires i < |Offsets(b, 0, budget)|
    ensures Offsets(b, 0, budget)[i] + 2 <= |b|
    ensures i + 1 < |Offsets(b, 0, budget)| ==>
      Offsets(b, 0, budget)[i] + 2 + b[Offsets(b, 0, budget)[i] + 1] <= |b|
  {
    OffsetsShape(b, 0, budget);
    var o := Offsets(b, 0, budget);
    if o[i] + 2 + b[o[i] + 1] > |b| {
      ClampIsLast(b, 0, budget, i);
    }
  }

  /** A buffer cut inside a header, after the type byte of one more item, keeps every
      item whose header and value it holds. */
  lemma TruncatedHeaderKept(items: seq<Item>, tail: seq<byte>, budget: nat)
    requires AllShort(items) && |items| <= budget && |tail| < 2
    ensures ItemsOf(Encode(items) + tail, budget) == items
  {
    ParseEncoded(Encode(items) + tail, 0, items, tail, budget);
  }

  lemma ItemSlices(b: seq<byte>, pos: nat, q: nat)
    requires pos + 2 <= q <= |b|
    ensures b[pos..] == [b[pos], b[pos + 1]] + b[pos + 2 .. q] + b[q..]
  {
  }

  lemma AllShortTail(items: seq<Item>)
    requires items != [] && AllShort(items)
    ensures AllShort(items[1..])
  {
    assert forall i :: 0 <= i < |items[1..]| ==> items[1..][i] == items[i + 1];
  }

  /** Reading one item back out of its image. */
  lemma ItemImage(b: seq<byte>, pos: nat, t: byte, v: seq<byte>, rest: seq<byte>)
    requires pos <= |b| && |v| < 0x100 && b[pos..] == [t, |v|] + v + rest
    ensures pos + 2 + |v| <= |b| && b[pos] == t && b[pos + 1] == |v|
    ensures b[pos + 2 .. pos + 2 + |v|] == v && b[pos + 2 + |v|..] == rest
  {
    var e := b[pos..];
    assert b[pos] == e[0] && b[pos + 1] == e[1];
    assert b[pos + 2 .. pos + 2 + |v|] == e[2 .. 2 + |v|];
    assert b[pos + 2 + |v|..] == e[2 + |v|..];
  }

  /** A buffer that is an exact sequence of whole items, at most budget of them. */
  ghost predicate WellFormed(b: seq<byte>, pos: nat, budget: nat)
    requires pos <= |b|
    decreases budget
  {
    pos == |b| ||
    (budget > 0 && |b| - pos >= 2 && pos + 2 + b[pos + 1] <= |b| && WellFormed(b, pos + 2 + b[pos + 1], budget - 1))
  }

  /** Round trip: re-encoding the items parsed from a well-formed buffer reproduces its bytes. */
  lemma {:induction false} EncodeParsed(b: seq<byte>, pos: nat, budget: nat)
    requires pos <= |b| && WellFormed(b, pos, budget)
    ensures AllShort(ItemsFrom(b, pos, budget)) && Encode(ItemsFrom(b, pos, budget)) == b[pos..]
    decreases budget
  {
    if pos < |b| {
      var q := pos + 2 + b[pos + 1];
      EncodeParsed(b, q, budget - 1);
      var it := ItemAt(b, pos);
      var rest := ItemsFrom(b, q, budget - 1);
      assert Next(b, pos) == q && |it.v| == b[pos + 1];
      assert ItemsFrom(b, pos, budget) == [it] + rest;
      EncodeCons(it, rest);
      ItemSlices(b, pos, q);
    }
  }

  /** The image of a list with one more item in front. */
  lemma EncodeCons(it: Item, rest: seq<Item>)
    requires |it.v| < 0x100 && AllShort(rest)
    ensures AllShort([it] + rest) && Encode([it] + rest) == [it.t, |it.v|] + it.v + Encode(rest)
  {
    assert ([it] + rest)[1..] == rest;
  }

  /** The items addData emits for a value: 255-byte chunks followed by the remainder. */
  function Chunks(t: byte, d: seq<byte>): (r: seq<Item>)
    ensures AllShort(r)
    decreases |d|
  {
    if d == [] then []
    else if |d| <= 0xFF then [Item(t, d)]
    else [Item(t, d[..0xFF])] + Chunks(t, d[0xFF..])
  }

  lemma {:induction false} ChunksShape(t: byte, d: seq<byte>)
    ensures forall i :: 0 <= i < |Chunks(t, d)| ==>
      Chunks(t, d)[i].t == t && 0 < |Chunks(t, d)[i].v| <= 0xFF &&
      (i < |Chunks(t, d)| - 1 ==> |Chunks(t, d)[i].v| == 0xFF)
    ensures |Encode(Chunks(t, d))| == |d| + 2 * |Chunks(t, d)|
    decreases |d|
  {
    if |d| > 0xFF {
      ChunksShape(t, d[0xFF..]);
      var r := Chunks(t, d[0xFF..]);
      assert Chunks(t, d) == [Item(t, d[..0xFF])] + r;
      assert forall i :: 0 < i < |Chunks(t, d)| ==> Chunks(t, d)[i] == r[i - 1];
    }
  }

  /** The run of type t that starts where the chunks of d start reassembles d, provided
      the item after the chunks has another type. */
  lemma RunHead(items: seq<Item>, k: nat, t: byte, v: seq<byte>, rest: seq<Item>)
    requires k <= |items| && items[k..] == [Item(t, v)] + rest
    ensures RunFrom(items, k, t) == v + RunFrom(items, k + 1, t)
    ensures items[k + 1..] == rest
  {
    assert items[k] == items[k..][0];
  }

  lemma RunEnds(items: seq<Item>, k: nat, t: byte, post: seq<Item>)
    requires k <= |items| && items[k..] == post && (post == [] || post[0].t != t)
    ensures RunFrom(items, k, t) == []
  {
    if k < |items| {
      assert items[k] == items[k..][0];
    }
  }

  lemma ChunkHead(t: byte, d: seq<byte>, post: seq<Item>)
    requires d != []
    ensures |d| <= 0xFF ==> Chunks(t, d) + post == [Item(t, d)] + post
    ensures |d| > 0xFF ==> Chunks(t, d) + post == [Item(t, d[..0xFF])] + (Chunks(t, d[0xFF..]) + post)
  {
  }

  lemma {:induction false} ChunksRun(items: seq<Item>, k: nat, t: byte, d: seq<byte>, post: seq<Item>)
    requires d != [] && k <= |items| && items[k..] == Chunks(t, d) + post
    requires post == [] || post[0].t != t
    ensures RunFrom(items, k, t) == d
    decreases |d|
  {
    ChunkHead(t, d, post);
    if |d| <= 0xFF {
      RunHead(items, k, t, d, post);
      RunEnds(items, k + 1, t, post);
    } else {
      RunHead(items, k, t, d[..0xFF], Chunks(t, d[0xFF..]) + post);
      ChunksRun(items, k + 1, t, d[0xFF..], post);
      assert d == d[..0xFF] + d[0xFF..];
    }
  }

  /** Fragmentation round trip: the run that starts at the first chunk of d reassembles d,
      whatever came before and provided the next item has another type. */
  lemma ChunksReassemble(pre: seq<Item>, t: byte, d: seq<byte>, post: seq<Item>)
    requires d != []
    requires post == [] || post[0].t != t
    ensures RunData(pre + Chunks(t, d) + post, |pre|) == d
  {
    var items := pre + Chunks(t, d) + post;
    var tail := Chunks(t, d) + post;
    assert items == pre + tail;
    assert items[|pre|..] == tail;
    ChunkHead(t, d, post);
    assert items[|pre|] == tail[0] && tail[0].t == t;
    ChunksRun(items, |pre|, t, d, post);
  }

  // ---------------------------------------------------------------------------------------
  // Hap::Tlv::Parse<MaxTlv>

  class Parse {
    var buf: seq<byte>          // _buf, _len: the borrowed, read-only input
    const off: array<nat>       // _off[MaxTlv]
    var cnt: nat                // _cnt

    ghost predicate Valid()
      reads this, off
    {
      |buf| < U16 && off.Length < 0x100 && cnt <= off.Length &&
      off[..cnt] == Offsets(buf, 0, off.Length)
    }

    /** The items of the current buffer, as far as the offset table reaches. */
    function Items(): seq<Item>
      reads this
    {
      ItemsOf(buf, off.Length)
    }

    constructor (maxTlv: nat)
      requires maxTlv < 0x100
      ensures Valid() && fresh(off) && off.Length == maxTlv && buf == [] && cnt == 0
    {
      buf := [];
      off := new nat[maxTlv];
      cnt := 0;
    }

    /** parse(buf, len): fills the offset table and returns the number of items found. */
    method Parse(b: seq<byte>) returns (n: nat)
      requires |b| < U16 && off.Length < 0x100
      modifies this, off
      ensures Valid() && buf == b && n == cnt && n <= off.Length
      ensures n == |Items()|
    {
      buf := b;
      var pos: nat := 0;
      var l: nat := |b|;
      cnt := 0;
      var i := 0;
      while i < off.Length
        invariant 0 <= i <= off.Length && cnt == i && pos + l == |b| && buf == b
        invariant off[..cnt] + Offsets(b, pos, off.Length - i) == Offsets(b, 0, off.Length)
      {
        if l < 2 {
          assert Offsets(b, pos, off.Length - i) == [];
          break;
        }
        ghost var o := off[..cnt];
        ghost var later := Offsets(b, Next(b, pos), off.Length - i - 1);
        assert Offsets(b, pos, off.Length - i) == [pos] + later;
        assert o + ([pos] + later) == (o + [pos]) + later;
        off[cnt] := pos;
        assert off[..cnt + 1] == o + [pos];
        cnt := cnt + 1;
        var s: nat := b[pos + 1] as int + 2;
        if s > l {
          s := l;
        }
        assert pos + s == Next(b, pos);
        pos := pos + s;
        l := l - s;
        i := i + 1;
      }
      assert off[..cnt] == Offsets(b, 0, off.Length);
      n := cnt;
      OffsetsShape(b, 0, off.Length);
    }

    /** count() */
    function Count(): (n: nat)
      reads this, off
      requires Valid()
      ensures n == |Items()| && n <= off.Length
    {
      OffsetsShape(buf, 0, off.Length);
      cnt
    }

    /** type(i): the type byte of item i, or Invalid past the last item. */
    function TypeAt(i: nat): (r: byte)
      reads this, off
      requires Valid()
      ensures i < |Items()| ==> r == Items()[i].t
      ensures i >= |Items()| ==> r == TypeInvalid
    {
      OffsetsShape(buf, 0, off.Length);
      if i >= cnt then TypeInvalid else buf[off[i]]
    }

    /** length(i) as written: the DECLARED length byte, which for a cut-off last item is
        larger than the bytes the buffer holds. */
    function Length(i: nat): (r: byte)
      reads this, off
      requires Valid()
      ensures i >= |Items()| ==> r == 0
      ensures i < |Items()| ==> |Items()[i].v| <= r
      ensures i < Count() ==> (r as int == |Items()[i].v| <==> off[i] + 2 + r as int <= |buf|)
      ensures i + 1 < |Items()| ==> r as int == |Items()[i].v|
    {
      OffsetsShape(buf, 0, off.Length);
      if i >= cnt then 0 else ClampOnlyLast(buf, off.Length, i); buf[off[i] + 1]
    }

    /** value(i) together with the length that stays inside the buffer: the bytes of item i
        (none past the last item). */
    function Value(i: nat): (r: seq<byte>)
      reads this, off
      requires Valid()
      ensures i < |Items()| ==> r == Items()[i].v
      ensures i < cnt ==> off[i] + 2 + |r| <= |buf| && r == buf[off[i] + 2 .. off[i] + 2 + |r|]
      ensures i >= |Items()| ==> r == []
    {
      OffsetsShape(buf, 0, off.Length);
      if i >= cnt then [] else buf[off[i] + 2 .. Next(buf, off[i])]
    }

    /** getInt(i): the little-endian integer of item i.  The bytes land in disjoint bit
        positions, so the source's `|=` of shifted bytes is the sum used here. */
    method GetInt(i: nat) returns (r: int)
      requires Valid()
      ensures r == LeValue(Value(i))
    {
      var v := Value(i);
      r := 0;
      var k := 0;
      while k < |v|
        invariant 0 <= k <= |v|
        invariant r == LeValue(v[..k])
      {
        LeValueSnoc(v, k);
        r := r + v[k] * Pow256(k);
        k := k + 1;
      }
      assert v[..k] == v;
    }

    /** get(t, v): the integer of the first item of type t, or nothing when no item has it. */
    method Get(t: byte) returns (r: Option<int>)
      requires Valid()
      ensures r == IntOf(Items(), t)
    {
      ghost var its := Items();
      var n := Count();
      var i := 0;
      while i < n
        invariant 0 <= i <= n == |its|
        invariant forall j :: 0 <= j < i ==> its[j].t != t
      {
        if TypeAt(i) == t {
          var v := GetInt(i);
          FindSpec(its, t);
          assert Find(its, t) == Some(i);
          return Some(v);
        }
        i := i + 1;
      }
      FindSpec(its, t);
      return None;
    }

    /** getBytes(i, data): copies the bytes of item i to data[at..]. */
    method GetBytes(i: nat, data: array<byte>, at: nat)
      requires Valid() && at + |Value(i)| <= data.Length
      modifies data
      ensures data[..] == old(data[..at]) + Value(i) + old(data[at + |Value(i)|..])
    {
      var v := Value(i);
      ghost var a := data[..];
      assert a[..at] == old(data[..at]) && a[at + |v|..] == old(data[at + |v|..]);
      var k := 0;
      while k < |v|
        invariant 0 <= k <= |v|
        invariant data[..] == a[..at] + v[..k] + a[at + k..]
      {
        ghost var cur := data[..];
        data[at + k] := v[k];
        assert data[..] == cur[at + k := v[k]];
        SpliceStep(a, v, at, k, cur);
        k := k + 1;
      }
      assert v[..k] == v;
    }

    /** getData(i, data, size), with the guard the documentation asks for: it reassembles the
        run of same-type items that begins at i; it fails exactly when the run does not fit
        into size bytes, and on success returns the number of bytes copied. */
    method GetData(i: nat, data: array<byte>, size: nat) returns (ok: bool, n: nat)
      requires Valid() && i < |Items()| && Items()[i].t != TypeInvalid
      requires size <= data.Length && size < U16
      modifies data
      ensures ok <==> |RunData(Items(), i)| <= size
      ensures ok ==> n == |RunData(Items(), i)| && data[..n] == RunData(Items(), i)
      ensures !ok ==> n == size
      ensures data[size..] == old(data[size..])
    {
      ghost var its := Items();
      var d: nat := 0;
      var t := TypeAt(i);
      var j := i;
      while true
        invariant i <= j <= |its| && d <= size
        invariant Valid() && Items() == its
        invariant RunData(its, i) == data[..d] + RunFrom(its, j, t)
        invariant data[size..] == old(data[size..])
        decreases |its| - j
      {
        ghost var img := data[..];
        RunExit(its, i, j, t, img[..d], size);
        var more, fits, w := CopyFragment(its, j, t, data, d, size);
        if !more {
          return true, d;
        }
        if !fits {
          return false, size;
        }
        CopyStep(its, i, j, t, img, data[..], d, its[j].v, size);
        d := d + w;
        j := j + 1;
      }
    }

    /** One round of getData's loop at item j: whether item j continues the run of type t,
        and if so whether its value fits behind the d bytes gathered so far, in which case
        it is copied there. */
    method CopyFragment(ghost its: seq<Item>, j: nat, t: byte, data: array<byte>, d: nat, size: nat)
      returns (more: bool, fits: bool, w: nat)
      requires Valid() && its == Items() && t != TypeInvalid && d <= size <= data.Length
      modifies data
      ensures more <==> j < |its| && its[j].t == t
      ensures fits <==> more && d + |its[j].v| <= size
      ensures fits ==> w == |its[j].v| && data[..] == old(data[..d]) + its[j].v + old(data[d + w..])
      ensures !fits ==> data[..] == old(data[..])
    {
      more := TypeAt(j) == t;
      fits := false;
      w := 0;
      if more {
        var v := Value(j);
        if |v| <= size - d {
          GetBytes(j, data, d);
          fits := true;
          w := |v|;
        }
      }
    }
  }

  /** Where getData's loop leaves the run: it ends at an item of another type (or past the
      last item), and a fragment too long for the room left makes the whole run too long. */
  lemma RunExit(its: seq<Item>, i: nat, j: nat, t: byte, pre: seq<byte>, size: nat)
    requires RunData(its, i) == pre + RunFrom(its, j, t)
    ensures !(j < |its| && its[j].t == t) ==> RunData(its, i) == pre
    ensures j < |its| && its[j].t == t && |pre| + |its[j].v| > size ==> |RunData(its, i)| > size
  {
    if j < |its| && its[j].t == t {
      assert RunFrom(its, j, t) == its[j].v + RunFrom(its, j + 1, t);
    } else {
      assert RunFrom(its, j, t) == [];
    }
  }

  /** One fragment of getData: copying fragment j (value v) behind the d bytes gathered so far
      keeps the gathered bytes a prefix of the run and the bytes from size on untouched. */
  lemma CopyStep(its: seq<Item>, i: nat, j: nat, t: byte, img: seq<byte>, img2: seq<byte>,
                 d: nat, v: seq<byte>, size: nat)
    requires j < |its| && its[j].t == t && its[j].v == v && d + |v| <= size <= |img|
    requires RunData(its, i) == img[..d] + RunFrom(its, j, t)
    requires img2 == img[..d] + v + img[d + |v|..]
    ensures |img2| == |img| && img2[size..] == img[size..]
    ensures RunData(its, i) == img2[..d + |v|] + RunFrom(its, j + 1, t)
  {
    Splice(img2, img, d, v, size);
    assert RunFrom(its, j, t) == v + RunFrom(its, j + 1, t);
  }

  /** One byte of a copy of v to index at. */
  lemma SpliceStep(a: seq<byte>, v: seq<byte>, at: nat, k: nat, cur: seq<byte>)
    requires k < |v| && at + |v| <= |a| && cur == a[..at] + v[..k] + a[at + k..]
    ensures cur[at + k := v[k]] == a[..at] + v[..k + 1] + a[at + k + 1..]
  {
    var r := cur[at + k := v[k]];
    assert forall j :: 0 <= j < |r| ==> r[j] == (a[..at] + v[..k + 1] + a[at + k + 1..])[j];
  }

  /** What a copy of v to index at leaves in the array: v after the first at bytes, and the
      bytes from size on untouched. */
  lemma Splice(a: seq<byte>, b: seq<byte>, at: nat, v: seq<byte>, size: nat)
    requires at + |v| <= size <= |b| && a == b[..at] + v + b[at + |v|..]
    ensures a[..at + |v|] == b[..at] + v && a[size..] == b[size..]
  {
    assert a[size..] == b[at + |v|..][size - at - |v|..];
  }

  /** A cut-off last item: the buffer [Identifier, 5, 0xAA] declares five value bytes but
      holds one, so length(0) sends getBytes and getInt past the end of the buffer. */
  lemma DeclaredLengthOverruns()
    ensures var b: seq<byte> := [TypeIdentifier, 5, 0xAA];
      Offsets(b, 0, 8) == [0] && 0 + 2 + b[1] > |b| && ItemsOf(b, 8) == [Item(TypeIdentifier, [0xAA])]
  {
    var b: seq<byte> := [TypeIdentifier, 5, 0xAA];
    assert Next(b, 0) == 3;
    assert b[2..3] == [0xAA];
    assert Offsets(b, 3, 7) == [];
    assert ItemsFrom(b, 3, 7) == [];
  }

  // ---------------------------------------------------------------------------------------
  // Hap::Tlv::Create

  /** One step of addInt on the buffer image a: a value byte c stored at b and the length
      byte after the type byte raised to n. */
  /** One step of addInt's loop on the bytes still to be written. */
  lemma MinLeStep(target: seq<byte>, x: nat, w: seq<byte>)
    requires w + MinLe(x) == target
    ensures |target| >= |w| + 1
    ensures x / 0x100 == 0 ==> w + [x % 0x100] == target
    ensures x / 0x100 != 0 ==> (w + [x % 0x100]) + MinLe(x / 0x100) == target
  {
  }

  /** An arithmetic right shift by 8 bits of a negative value stays negative. */
  lemma ShiftNegative(x: int)
    requires x < 0
    ensures x / 0x100 < 0
  {
  }

  lemma LengthBump(a: seq<byte>, p: seq<byte>, k: byte, w: seq<byte>, b: nat, c: byte, n: byte, size: nat)
    requires b < size <= |a| && a[..b] == p + [k] + w
    ensures a[b := c][|p| := n][..b + 1] == p + [n] + (w + [c])
    ensures a[b := c][|p| := n][size..] == a[size..]
  {
    var r := a[b := c][|p| := n];
    assert forall i :: 0 <= i < b + 1 ==> r[i] == (p + [n] + (w + [c]))[i];
    assert r[size..] == a[size..];
  }

  /** What the cursor-side facts of an image say about its two ends. */
  lemma ImageEnds(a: seq<byte>, p: seq<byte>, k: byte, w: seq<byte>, b: nat)
    requires b <= |a| && a[..b] == p + [k] + w
    ensures a[..|p|] == p
  {
    assert a[..|p|] == a[..b][..|p|];
  }

  /** The image after one more item: the old image, the type, the length and the value. */
  lemma AppendImage(items: seq<Item>, prefix: seq<byte>, it: Item)
    requires AllShort(items) && prefix == Encode(items) && |it.v| < 0x100
    ensures AllShort(items + [it]) && Encode(items + [it]) == prefix + [it.t] + [|it.v|] + it.v
  {
    assert Encode([it]) == [it.t, |it.v|] + it.v;
    EncodeAppend(items, [it]);
  }

  class Create {
    const buf: array<byte>      // _buf
    const size: nat             // _size
    var len: nat                // _len
    ghost var items: seq<Item>  // the items appended so far

    ghost predicate Valid()
      reads this, buf
    {
      len <= size <= buf.Length && size < U16 && AllShort(items) && buf[..len] == Encode(items)
    }

    /** create(buf, size) */
    constructor (b: array<byte>, sz: nat)
      requires sz <= b.Length && sz < U16
      ensures Valid() && buf == b && size == sz && len == 0 && items == []
    {
      buf := b;
      size := sz;
      len := 0;
      items := [];
    }

    /** length(): the cursor is the size of the image of the items added so far. */
    function Length(): (n: nat)
      reads this, buf
      requires Valid()
      ensures n == |Encode(items)| && n <= size
    {
      len
    }

    /** addInt(t, v), also reached through add<T>(t, v): stores the type, a length byte and
        the fewest little-endian bytes of v.  It needs three free bytes to start, refuses an
        item that would end exactly at _size, and never succeeds for a negative v (the
        arithmetic shift never reaches zero). */
    method AddInt(t: byte, v: int) returns (ok: bool)
      requires Valid() && -0x8000_0000 <= v < 0x8000_0000
      modifies this`len, this`items, buf
      ensures Valid()
      ensures ok <==> v >= 0 && old(len) + 2 + |MinLe(v)| < size
      ensures ok ==> items == old(items) + [Item(t, MinLe(v))] && len == old(len) + 2 + |MinLe(v)|
      ensures !ok ==> items == old(items) && len == old(len)
      ensures buf[size..] == old(buf[size..])
    {
      if size - len < 3 {
        if v >= 0 {
          MinLeShort(v);
        }
        return false;
      }
      ghost var prefix := buf[..len];
      assert prefix == Encode(items);
      ghost var a0 := buf[..];
      buf[len] := t;
      buf[len + 1] := 0;
      assert buf[..] == a0[len := t][len + 1 := 0];
      ghost var hdr := buf[..len + 1];
      assert hdr == buf[..][..len + 1] == prefix + [t];
      assert buf[size..] == buf[..][size..] == a0[size..];
      var end: nat;
      ok, end := StoreLe(len + 1, v);
      if !ok {
        assert buf[..len] == buf[..len + 1][..len];
        return;
      }
      MinLeShort(v);
      ghost var it := Item(t, MinLe(v));
      assert buf[..end] == hdr + [|it.v|] + it.v;
      AppendImage(items, prefix, it);
      len := end;
      items := items + [it];
    }

    /** add(t, v) for an enumeration value (State, Error, Method): addInt of the value. */
    method Add(t: byte, v: byte) returns (ok: bool)
      requires Valid()
      modifies this`len, this`items, buf
      ensures Valid()
      ensures ok <==> old(len) + 3 < size
      ensures ok ==> items == old(items) + [Item(t, [v])] && len == old(len) + 3
      ensures !ok ==> items == old(items) && len == old(len)
      ensures buf[size..] == old(buf[size..])
    {
      assert MinLe(v) == [v];
      ok := AddInt(t, v);
    }

    /** The byte loop of addInt: from index l + 1 on it stores the low byte of v and raises
        the length byte at l, shifting v right by eight bits until it is zero; it fails as
        soon as the cursor reaches _size. */
    method StoreLe(l: nat, v: int) returns (ok: bool, end: nat)
      requires l + 1 < size <= buf.Length && buf[l] == 0 && v < U32
      modifies buf
      ensures ok <==> v >= 0 && l + 1 + |MinLe(v)| < size
      ensures ok ==> end == l + 1 + |MinLe(v)| && |MinLe(v)| < 0x100
      ensures ok ==> buf[..end] == old(buf[..l]) + [|MinLe(v)|] + MinLe(v)
      ensures buf[..l] == old(buf[..l]) && buf[size..] == old(buf[size..])
    {
      ghost var p := buf[..l];
      ghost var img := buf[..];
      assert img[..l + 1] == p + [0];
      var b := l + 1;
      var x := v;
      ghost var written: seq<byte> := [];
      ghost var k: byte := 0;
      ghost var target: seq<byte> := [];
      if v >= 0 {
        target := MinLe(v);
        MinLeShort(v);
      }
      while true
        invariant buf[..] == img && |img| == buf.Length
        invariant l + 1 <= b < size && b == l + 1 + |written|
        invariant img[..b] == p + [k] + written
        invariant img[size..] == old(buf[size..])
        invariant v >= 0 ==> x >= 0 && (written == [] || x != 0) && written + MinLe(x) == target
        invariant v >= 0 ==> k == |written| < |target| <= 4
        invariant v < 0 ==> x < 0
        decreases size - b
      {
        assert buf[l] == img[..b][l] == k;
        var c: byte := x % 0x100;
        buf[b] := c;
        var n: byte := if buf[l] == 0xFF then 0 else buf[l] + 1;
        buf[l] := n;
        LengthBump(img, p, k, written, b, c, n, size);
        img := img[b := c][l := n];
        if v >= 0 {
          MinLeStep(target, x, written);
        } else {
          ShiftNegative(x);
        }
        written := written + [c];
        k := n;
        b := b + 1;
        if b == size {
          ImageEnds(img, p, k, written, b);
          assert buf[..l] == buf[..][..l] && buf[size..] == buf[..][size..];
          return false, b;
        }
        x := x / 0x100;
        if x == 0 {
          break;
        }
      }
      ImageEnds(img, p, k, written, b);
      assert buf[..l] == buf[..][..l] && buf[size..] == buf[..][size..];
      assert v >= 0 && written == target == MinLe(v) && k == |written|;
      assert buf[..b] == buf[..][..b];
      return true, b;
    }

    /** addBytes(t, d, l), l = |d| <= 255: fails, changing nothing, exactly when fewer than
        l + 2 bytes are free; otherwise appends [t, l, d...]. */
    method AddBytes(t: byte, d: seq<byte>) returns (ok: bool)
      requires Valid() && |d| < 0x100
      modifies this`len, this`items, buf
      ensures Valid()
      ensures ok <==> old(len) + 2 + |d| <= size
      ensures ok ==> items == old(items) + [Item(t, d)] && len == old(len) + 2 + |d|
      ensures !ok ==> items == old(items) && len == old(len) && buf[..] == old(buf[..])
      ensures buf[size..] == old(buf[size..])
    {
      if size - len < |d| + 2 {
        return false;
      }
      ghost var prefix := buf[..len];
      var b := len;
      buf[b] := t;
      buf[b + 1] := |d|;
      b := b + 2;
      forall k | 0 <= k < |d| {
        buf[b + k] := d[k];
      }
      b := b + |d|;
      assert buf[..b] == prefix + [t] + [|d|] + d;
      AppendImage(items, prefix, Item(t, d));
      len := b;
      items := items + [Item(t, d)];
      ok := true;
    }

    /** addData(t, data, len): emits data as 255-byte chunks of type t followed by the rest.
        It succeeds exactly when all chunks fit; an empty value adds nothing; a failure
        keeps the chunks already added. */
    method AddData(t: byte, data: seq<byte>) returns (ok: bool)
      requires Valid() && |data| < U16
      modifies this`len, this`items, buf
      ensures Valid()
      ensures ok <==> old(len) + |Encode(Chunks(t, data))| <= size
      ensures ok ==> items == old(items) + Chunks(t, data)
      ensures !ok ==> exists j :: 0 <= j < |Chunks(t, data)| && items == old(items) + Chunks(t, data)[..j]
      ensures buf[size..] == old(buf[size..])
    {
      ghost var all := Chunks(t, data);
      var pos := 0;
      ghost var done: seq<Item> := [];
      while pos < |data|
        invariant 0 <= pos <= |data| && Valid() && AllShort(done)
        invariant all == done + Chunks(t, data[pos..])
        invariant items == old(items) + done
        invariant len == old(len) + |Encode(done)|
        invariant buf[size..] == old(buf[size..])
        decreases |data| - pos
      {
        var l := if |data| - pos > 0xFF then 0xFF else |data| - pos;
        var chunk := data[pos .. pos + l];
        ghost var c := Item(t, chunk);
        ChunkStep(all, done, t, data, pos, l, c);
        ghost var items0 := items;
        ghost var len0 := len;
        ok := AddBytes(t, chunk);
        if !ok {
          assert len0 + 2 + l > size;
          assert old(len) + |Encode(all)| > size;
          assert 0 <= |done| < |all| && items == old(items) + all[..|done|];
          return false;
        }
        Snoc(old(items), done, c);
        done := done + [c];
        pos := pos + l;
      }
      assert data[pos..] == [] && all == done;
      return true;
    }
  }

  /** The chunk addData cuts at pos, and the chunks after it. */
  lemma ChunkNext(t: byte, data: seq<byte>, pos: nat, l: nat, c: Item)
    requires pos < |data| && l == (if |data| - pos > 0xFF then 0xFF else |data| - pos)
    requires c == Item(t, data[pos .. pos + l])
    ensures Chunks(t, data[pos..]) == [c] + Chunks(t, data[pos + l..])
  {
    var rest := data[pos..];
    assert rest[..l] == data[pos .. pos + l] && rest[l..] == data[pos + l..];
    if |rest| <= 0xFF {
      assert rest[..l] == rest && rest[l..] == [];
    }
  }

  lemma Snoc<T>(a: seq<T>, b: seq<T>, x: T)
    ensures (a + b) + [x] == a + (b + [x])
  {
  }

  lemma Regroup<T>(a: seq<T>, x: T, b: seq<T>)
    ensures a + ([x] + b) == (a + [x]) + b && (a + ([x] + b))[..|a|] == a
  {
  }

  /** One round of addData's loop: the chunk c of length l cut at pos, and what adding it
      does to the image. */
  lemma ChunkStep(all: seq<Item>, done: seq<Item>, t: byte, data: seq<byte>, pos: nat, l: nat, c: Item)
    requires pos < |data| && AllShort(done) && all == done + Chunks(t, data[pos..])
    requires l == (if |data| - pos > 0xFF then 0xFF else |data| - pos) && c == Item(t, data[pos .. pos + l])
    ensures all == (done + [c]) + Chunks(t, data[pos + l..])
    ensures AllShort(done + [c]) && |Encode(done + [c])| == |Encode(done)| + 2 + l
    ensures |Encode(all)| >= |Encode(done)| + 2 + l && |done| < |all| && all[..|done|] == done
  {
    var later := Chunks(t, data[pos + l..]);
    ChunkNext(t, data, pos, l, c);
    Regroup(done, c, later);
    AppendImage(done, Encode(done), c);
    EncodeAppend(done + [c], later);
  }

  /** Fragmented values survive the codec: parsing what addData wrote (behind earlier items)
      and reassembling from the first chunk gives the value back. */
  lemma FragmentRoundTrip(before: seq<Item>, t: byte, d: seq<byte>, budget: nat)
    requires AllShort(before) && d != [] && budget >= |before| + |Chunks(t, d)|
    ensures RunData(ItemsOf(Encode(before + Chunks(t, d)), budget), |before|) == d
  {
    var items := before + Chunks(t, d);
    EncodeAppend(before, Chunks(t, d));
    var b := Encode(items);
    assert b[0..] == b == Encode(items) + [];
    ParseEncoded(b, 0, items, [], budget);
    ChunksReassemble(before, t, d, []);
    assert before + Chunks(t, d) + [] == items;
  }
}
