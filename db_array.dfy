// The database's object arrays (ObjArrayBase / ObjArrayStatic<Count> in HapDb/HapDb.h).
//
// An array is a fixed block of `Count` pointer slots and a fill mark `_sz`.  The model keeps
// the slots as an `array<Option<T>>` (None is the null pointer) and the mark as `sz`;
// Contents() is the part below the mark, the only part the C++ code ever looks at.

module DbArray {
  import opened Common

  /** The objects present in s, in slot order, the null slots skipped. */
  function Present<T>(s: seq<Option<T>>): (r: seq<T>)
    ensures |r| <= |s|
  {
    if s == [] then []
    else Present(s[..|s| - 1]) + (if s[|s| - 1].Some? then [s[|s| - 1].value] else [])
  }

  lemma PresentSnoc<T>(s: seq<Option<T>>, x: Option<T>)
    ensures Present(s + [x]) == Present(s) + (if x.Some? then [x.value] else [])
  {
    assert (s + [x])[..|s|] == s;
  }

  /** Every object of Present(s) sits in some slot of s, and every non-null slot is there. */
  lemma {:induction false} PresentMembers<T>(s: seq<Option<T>>, x: T)
    ensures x in Present(s) <==> Some(x) in s
  {
    if s != [] {
      var init := s[..|s| - 1];
      PresentMembers(init, x);
      assert s == init + [s[|s| - 1]];
    }
  }

  /** Present distributes over joining slot sequences. */
  lemma {:induction false} PresentAppend<T>(a: seq<Option<T>>, b: seq<Option<T>>)
    ensures Present(a + b) == Present(a) + Present(b)
    decreases |b|
  {
    if b == [] {
      assert a + b == a;
    } else {
      var n := |b| - 1;
      PresentAppend(a, b[..n]);
      assert a + b == (a + b[..n]) + [b[n]];
      assert b == b[..n] + [b[n]];
      PresentSnoc(a + b[..n], b[n]);
      PresentSnoc(b[..n], b[n]);
    }
  }

  /** The object in slot i is the one Present lists after those of the slots before i, and
      storing another object there replaces it at that position. */
  lemma PresentUpdate<T>(s: seq<Option<T>>, i: nat, x: T)
    requires i < |s| && s[i].Some?
    ensures |Present(s[..i])| < |Present(s)| && Present(s)[|Present(s[..i])|] == s[i].value
    ensures Present(s[i := Some(x)]) == Present(s)[|Present(s[..i])| := x]
  {
    var pre, post := s[..i], s[i + 1..];
    assert s == (pre + [s[i]]) + post;
    assert s[i := Some(x)] == (pre + [Some(x)]) + post;
    PresentAppend(pre + [s[i]], post);
    PresentAppend(pre + [Some(x)], post);
    PresentSnoc(pre, s[i]);
    PresentSnoc(pre, Some(x));
    var a := Present(pre);
    assert Present(s) == a + [s[i].value] + Present(post);
    assert Present(s[i := Some(x)]) == a + [x] + Present(post);
  }

  /** f applied to each element of s. */
  function MapSeq<T>(s: seq<T>, f: T -> T): (r: seq<T>)
    ensures |r| == |s| && forall k :: 0 <= k < |s| ==> r[k] == f(s[k])
  {
    seq(|s|, k requires 0 <= k < |s| => f(s[k]))
  }

  /** f applied to the object of each non-null slot of s. */
  function MapSlots<T>(s: seq<Option<T>>, f: T -> T): (r: seq<Option<T>>)
    ensures |r| == |s|
    ensures forall k :: 0 <= k < |s| ==> r[k] == if s[k].Some? then Some(f(s[k].value)) else None
  {
    seq(|s|, k requires 0 <= k < |s| => if s[k].Some? then Some(f(s[k].value)) else None)
  }

  lemma {:induction false} PresentMap<T>(s: seq<Option<T>>, f: T -> T)
    ensures Present(MapSlots(s, f)) == MapSeq(Present(s), f)
  {
    if s != [] {
      var n := |s| - 1;
      PresentMap(s[..n], f);
      assert MapSlots(s, f) == MapSlots(s[..n], f) + [MapSlots(s, f)[n]];
      assert s == s[..n] + [s[n]];
      PresentSnoc(MapSlots(s[..n], f), MapSlots(s, f)[n]);
      PresentSnoc(s[..n], s[n]);
    }
  }

  /** Storing in slot i an object f cannot tell from the one there leaves the image under f
      alone. */
  lemma MapSlotsUpdate<T>(s: seq<Option<T>>, i: nat, x: T, f: T -> T)
    requires i < |s| && s[i].Some? && f(x) == f(s[i].value)
    ensures MapSlots(s[i := Some(x)], f) == MapSlots(s, f)
  {
  }

  /** The object GetObj(match) returns: the first non-null slot whose object matches. */
  function FirstMatch<T>(s: seq<Option<T>>, accept: T -> bool): Option<T>
  {
    if s == [] then None
    else if s[0].Some? && accept(s[0].value) then s[0]
    else FirstMatch(s[1..], accept)
  }

  /** A slot that holds an object the predicate accepts. */
  ghost predicate Hit<T>(s: seq<Option<T>>, accept: T -> bool, k: int)
  {
    0 <= k < |s| && s[k].Some? && accept(s[k].value)
  }

  /** FirstMatch finds an object iff some slot holds a matching one, and then it is the
      object of the lowest such slot. */
  lemma {:induction false} FirstMatchSpec<T>(s: seq<Option<T>>, accept: T -> bool)
    ensures FirstMatch(s, accept).None? <==> forall k :: 0 <= k < |s| ==> !Hit(s, accept, k)
    ensures FirstMatch(s, accept).Some? ==>
      exists k :: Hit(s, accept, k) && s[k] == FirstMatch(s, accept) &&
        forall j :: 0 <= j < k ==> !Hit(s, accept, j)
  {
    if s != [] && !(s[0].Some? && accept(s[0].value)) {
      FirstMatchSpec(s[1..], accept);
      assert !Hit(s, accept, 0);
      forall k | 1 <= k < |s|
        ensures Hit(s, accept, k) <==> Hit(s[1..], accept, k - 1)
      {
      }
      if FirstMatch(s, accept).Some? {
        var k :| Hit(s[1..], accept, k) && s[1..][k] == FirstMatch(s[1..], accept) &&
          forall j :: 0 <= j < k ==> !Hit(s[1..], accept, j);
        assert Hit(s, accept, k + 1);
      } else {
        forall k | 0 <= k < |s|
          ensures !Hit(s, accept, k)
        {
          if k > 0 {
            assert !Hit(s[1..], accept, k - 1);
          }
        }
      }
    } else if s != [] {
      assert Hit(s, accept, 0);
    }
  }

  /** The slots after set(obj, i) with i below the capacity: slot i holds obj, the mark moves up
      to i + 1 when it was at or below i, and the slots it passes over stay null. */
  function Place<T>(s: seq<Option<T>>, i: nat, x: T): seq<Option<T>>
  {
    if i < |s| then s[i := Some(x)] else s + seq(i - |s|, _ => None) + [Some(x)]
  }

  lemma PlaceSpec<T>(s: seq<Option<T>>, i: nat, x: T)
    ensures |Place(s, i, x)| == if i < |s| then |s| else i + 1
    ensures Place(s, i, x)[i] == Some(x)
    ensures forall k :: 0 <= k < |s| && k != i ==> Place(s, i, x)[k] == s[k]
    ensures forall k :: |s| <= k < i ==> Place(s, i, x)[k] == None
  {
  }

  class ObjArray<T> {
    const slots: array<Option<T>>   // _obj, _max == slots.Length
    var sz: nat                     // _sz

    /** The mark never passes the capacity (a uint8_t), and no slot at or above it was ever set. */
    ghost predicate Valid()
      reads this, slots
    {
      sz <= slots.Length < 0x100 && forall k :: sz <= k < slots.Length ==> slots[k] == None
    }

    ghost function Contents(): seq<Option<T>>
      reads this, slots
      requires Valid()
    {
      slots[..sz]
    }

    /** ObjArrayStatic<Count>(): an empty array of Count slots.  The slots start null, as the
        member array of a statically allocated database does. */
    constructor (count: nat)
      requires count < 0x100
      ensures Valid() && slots.Length == count && Contents() == [] && fresh(slots)
    {
      slots := new Option<T>[count](_ => None);
      sz := 0;
    }

    /** size() */
    function Size(): (n: nat)
      reads this, slots
      requires Valid()
      ensures n == |Contents()| && n <= slots.Length
    {
      sz
    }

    /** set(obj): appends while there is room; a full array ignores the call, so the size
        never exceeds the capacity. */
    method Append(obj: T)
      requires Valid()
      modifies this, slots
      ensures Valid()
      ensures old(sz) < slots.Length ==> Contents() == old(Contents()) + [Some(obj)]
      ensures old(sz) == slots.Length ==> Contents() == old(Contents())
    {
      if sz < slots.Length {
        slots[sz] := Some(obj);
        sz := sz + 1;
      }
    }

    /** set(obj, i): stores at slot i when i is below the capacity, else does nothing.  A
        negative i indexes before the array in C++; it is excluded. */
    method SetAt(obj: T, i: int)
      requires Valid() && 0 <= i
      modifies this, slots
      ensures Valid()
      ensures i < slots.Length ==> Contents() == Place(old(Contents()), i, obj)
      ensures i >= slots.Length ==> Contents() == old(Contents())
    {
      if i < slots.Length {
        ghost var before := slots[..sz];
        slots[i] := Some(obj);
        if sz <= i {
          sz := i + 1;
          assert slots[..sz] == Place(before, i, obj);
        } else {
          assert slots[..sz] == before[i := Some(obj)];
        }
      }
    }

    /** get(i): null at or above the mark, else slot i. */
    function Get(i: int): (r: Option<T>)
      reads this, slots
      requires Valid() && 0 <= i
      ensures i >= |Contents()| ==> r == None
      ensures i < |Contents()| ==> r == Contents()[i]
    {
      if i >= sz then None else slots[i]
    }

    /** GetObj(match): scans the slots below the mark, skipping nulls, and returns the first
        object match accepts, or null. */
    method GetObj(accept: T -> bool) returns (r: Option<T>)
      requires Valid()
      ensures r == FirstMatch(Contents(), accept)
    {
      var i := 0;
      while i < sz
        invariant 0 <= i <= sz
        invariant FirstMatch(Contents(), accept) == FirstMatch(Contents()[i..], accept)
      {
        var obj := slots[i];
        assert Contents()[i..][0] == obj && Contents()[i..][1..] == Contents()[i + 1..];
        if obj.Some? && accept(obj.value) {
          return obj;
        }
        i := i + 1;
      }
      return None;
    }
  }
}
