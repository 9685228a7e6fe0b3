// The leaves of the accessory database (Characteristic::Simple and Service in HapDb/HapDb.h):
// numbering them, and passing one write or read request to the characteristic it names.
//
// The objects are values: a service holds the contents of its characteristic array (the slots
// below the mark, None for a null slot), and an operation that changes objects returns the
// changed ones.
//
// The JSON text the C++ code produces is not modelled; a read reports the list of properties it
// would print, in print order.  Converting a JSON value to the characteristic's C type
// (hap_type<F>::Write) is not modelled either: a write request carries the outcome of that
// conversion.

module DbObjects {
  import opened Common
  import opened DbArray
  import opened DbStatus
  import DbQuery

  /** KeyId: the properties a database object can carry. */
  datatype KeyId =
    | AidProp | ServicesProp
    | TypeProp | IidProp | CharacteristicsProp | HiddenProp | PrimaryProp | LinkedProp
    | ValueProp | PermsProp | EvProp | DescriptionProp | FormatProp | UnitProp
    | MinValueProp | MaxValueProp | MinStepProp | MaxLenProp | MaxDataLenProp
    | ValidValuesProp | ValidValuesRangeProp

  /** The position of a property in a read's output. */
  function Rank(k: KeyId): nat
  {
    match k
    case ValueProp => 0
    case FormatProp => 1
    case UnitProp => 2
    case MinValueProp => 3
    case MaxValueProp => 4
    case MinStepProp => 5
    case MaxLenProp => 6
    case PermsProp => 7
    case TypeProp => 8
    case EvProp => 9
    case _ => 10
  }

  ghost predicate Ascending(ks: seq<KeyId>)
  {
    forall a, b :: 0 <= a < b < |ks| ==> Rank(ks[a]) < Rank(ks[b])
  }

  /** Has(props, k): GetProperty(k) finds a property with key k. */
  predicate Has(props: seq<Option<KeyId>>, k: KeyId)
  {
    FirstMatch(props, (x: KeyId) => x == k).Some?
  }

  lemma HasSpec(props: seq<Option<KeyId>>, k: KeyId)
    ensures Has(props, k) <==> Some(k) in props
  {
    FirstMatchSpec(props, (x: KeyId) => x == k);
    if Some(k) in props {
      var j :| 0 <= j < |props| && props[j] == Some(k);
      assert Hit(props, (x: KeyId) => x == k, j);
    }
  }

  /** The order in which Simple::Read prints properties. */
  const ReadOrder: seq<KeyId> :=
    [ValueProp, FormatProp, UnitProp, MinValueProp, MaxValueProp, MinStepProp, MaxLenProp,
     PermsProp, TypeProp, EvProp]

  /** ks holds the keys of ranks base, base + 1, ... in turn. */
  ghost predicate RankedFrom(ks: seq<KeyId>, base: nat)
  {
    forall i :: 0 <= i < |ks| ==> Rank(ks[i]) == base + i
  }

  /** The ten printed properties have ranks of their own. */
  lemma RankInjective(a: KeyId, b: KeyId)
    requires Rank(a) == Rank(b) < |ReadOrder|
    ensures a == b
  {
    match a
    case ValueProp =>
    case FormatProp =>
    case UnitProp =>
    case MinValueProp =>
    case MaxValueProp =>
    case MinStepProp =>
    case MaxLenProp =>
    case PermsProp =>
    case TypeProp =>
    case EvProp =>
    case _ =>
  }

  lemma ReadOrderRanked()
    ensures RankedFrom(ReadOrder, 0)
  {
  }

  /** Whether Simple::Read prints property k: the value when it may be read, format and each
      meta property the characteristic holds (unit, minValue, maxValue, minStep, maxLen) when
      meta=1, then perms, type and ev as asked; no other property. */
  predicate Printed(readable: bool, flags: DbQuery.ReadFlags, props: seq<Option<KeyId>>, k: KeyId)
  {
    match k
    case ValueProp => readable
    case FormatProp => flags.meta
    case UnitProp | MinValueProp | MaxValueProp | MinStepProp | MaxLenProp => flags.meta && Has(props, k)
    case PermsProp => flags.perms
    case TypeProp => flags.types
    case EvProp => flags.ev
    case _ => false
  }

  /** The keys of ks that Simple::Read prints, in the order of ks: one `if` per key. */
  function PrintList(ks: seq<KeyId>, readable: bool, flags: DbQuery.ReadFlags, props: seq<Option<KeyId>>)
    : (r: seq<KeyId>)
    ensures |r| <= |ks|
  {
    if ks == [] then []
    else (if Printed(readable, flags, props, ks[0]) then [ks[0]] else []) + PrintList(ks[1..], readable, flags, props)
  }

  lemma RankedTail(ks: seq<KeyId>, base: nat)
    requires ks != [] && RankedFrom(ks, base)
    ensures RankedFrom(ks[1..], base + 1)
  {
    forall i | 0 <= i < |ks[1..]| ensures Rank(ks[1..][i]) == base + 1 + i {
      assert ks[1..][i] == ks[i + 1];
    }
  }

  /** Over ranked keys, k is listed exactly when it is of one of their ranks and printed. */
  lemma {:induction false} PrintListMembers(ks: seq<KeyId>, readable: bool, flags: DbQuery.ReadFlags,
                                            props: seq<Option<KeyId>>, base: nat, k: KeyId)
    requires RankedFrom(ks, base) && base + |ks| <= |ReadOrder|
    ensures k in PrintList(ks, readable, flags, props) <==>
      base <= Rank(k) < base + |ks| && Printed(readable, flags, props, k)
    decreases ks
  {
    if ks != [] {
      RankedTail(ks, base);
      PrintListMembers(ks[1..], readable, flags, props, base + 1, k);
      if Rank(k) == base {
        RankInjective(k, ks[0]);
      }
    }
  }

  /** Listing from ranked keys keeps them in rank order. */
  lemma {:induction false} PrintListAscending(ks: seq<KeyId>, readable: bool, flags: DbQuery.ReadFlags,
                                              props: seq<Option<KeyId>>, base: nat)
    requires RankedFrom(ks, base) && base + |ks| <= |ReadOrder|
    ensures Ascending(PrintList(ks, readable, flags, props))
    decreases ks
  {
    if ks != [] {
      RankedTail(ks, base);
      PrintListAscending(ks[1..], readable, flags, props, base + 1);
      var rest := PrintList(ks[1..], readable, flags, props);
      if Printed(readable, flags, props, ks[0]) {
        forall x | x in rest ensures Rank(ks[0]) < Rank(x) {
          PrintListMembers(ks[1..], readable, flags, props, base + 1, x);
        }
        ConsAscending(ks[0], rest);
        assert PrintList(ks, readable, flags, props) == [ks[0]] + rest;
      } else {
        assert PrintList(ks, readable, flags, props) == rest;
      }
    }
  }

  lemma ConsAscending(k: KeyId, rest: seq<KeyId>)
    requires Ascending(rest) && forall x :: x in rest ==> Rank(k) < Rank(x)
    ensures Ascending([k] + rest)
  {
    var r := [k] + rest;
    forall x, y | 0 <= x < y < |r| ensures Rank(r[x]) < Rank(r[y]) {
      assert r[y] == rest[y - 1] && r[y] in rest;
      if x > 0 {
        assert r[x] == rest[x - 1];
      }
    }
  }

  /** The properties Simple::Read prints, in print order. */
  function ReadProps(readable: bool, flags: DbQuery.ReadFlags, props: seq<Option<KeyId>>): seq<KeyId>
  {
    PrintList(ReadOrder, readable, flags, props)
  }

  /** A printed property is one of the ten, at its place in ReadOrder. */
  lemma ReadPropsLookup(readable: bool, flags: DbQuery.ReadFlags, props: seq<Option<KeyId>>, k: KeyId)
    ensures k in ReadProps(readable, flags, props) <==> Rank(k) < |ReadOrder| && Printed(readable, flags, props, k)
  {
    ReadOrderRanked();
    PrintListMembers(ReadOrder, readable, flags, props, 0, k);
  }

  /** A read prints the value iff it may be read, format iff meta=1, and perms, type and ev
      iff asked. */
  lemma ReadPropsMembers(readable: bool, flags: DbQuery.ReadFlags, props: seq<Option<KeyId>>)
    ensures ValueProp in ReadProps(readable, flags, props) <==> readable
    ensures FormatProp in ReadProps(readable, flags, props) <==> flags.meta
    ensures PermsProp in ReadProps(readable, flags, props) <==> flags.perms
    ensures TypeProp in ReadProps(readable, flags, props) <==> flags.types
    ensures EvProp in ReadProps(readable, flags, props) <==> flags.ev
  {
    ReadPropsLookup(readable, flags, props, ValueProp);
    ReadPropsLookup(readable, flags, props, FormatProp);
    ReadPropsLookup(readable, flags, props, PermsProp);
    ReadPropsLookup(readable, flags, props, TypeProp);
    ReadPropsLookup(readable, flags, props, EvProp);
  }

  /** A meta property (unit, minValue, maxValue, minStep, maxLen) is printed iff meta=1 and
      the characteristic holds it. */
  lemma ReadPropsMeta(readable: bool, flags: DbQuery.ReadFlags, props: seq<Option<KeyId>>, k: KeyId)
    requires k.UnitProp? || k.MinValueProp? || k.MaxValueProp? || k.MinStepProp? || k.MaxLenProp?
    ensures k in ReadProps(readable, flags, props) <==> flags.meta && Some(k) in props
  {
    ReadPropsLookup(readable, flags, props, k);
    HasSpec(props, k);
  }

  /** A read prints nothing but those ten properties, and in the order of ReadOrder. */
  lemma ReadPropsOrdered(readable: bool, flags: DbQuery.ReadFlags, props: seq<Option<KeyId>>)
    ensures forall k :: k in ReadProps(readable, flags, props) ==> Rank(k) < |ReadOrder|
    ensures Ascending(ReadProps(readable, flags, props))
  {
    ReadOrderRanked();
    PrintListAscending(ReadOrder, readable, flags, props, 0);
    forall k | k in ReadProps(readable, flags, props) ensures Rank(k) < |ReadOrder| {
      ReadPropsLookup(readable, flags, props, k);
    }
  }

  // ------------------------------------------------------------------
  // Instance ids

  /** n consecutive ids from base on, wrapping at 2^32. */
  function Run(base: int, n: nat): (r: seq<Iid>)
    ensures |r| == n && forall m :: 0 <= m < n ==> r[m] == (base + m) % U32
  {
    seq(n, m => (base + m) % U32)
  }

  /** ids are id, id + 1, ... in iid_t arithmetic, and next is the id after the last. */
  ghost predicate Consecutive(ids: seq<Iid>, id: Iid, next: Iid)
  {
    ids == Run(id, |ids|) && next == (id + |ids|) % U32
  }

  lemma ModShift(a: int, b: int)
    ensures ((a % U32) + b) % U32 == (a + b) % U32
  {
  }

  /** A run that goes on where another stopped extends it. */
  lemma ConsecutiveJoin(a: seq<Iid>, b: seq<Iid>, id: Iid, mid: Iid, next: Iid)
    requires Consecutive(a, id, mid) && Consecutive(b, mid, next)
    ensures Consecutive(a + b, id, next)
  {
    forall m | |a| <= m < |a + b|
      ensures (a + b)[m] == (id + m) % U32
    {
      assert (a + b)[m] == b[m - |a|];
      ModShift(id + |a|, m - |a|);
    }
    ModShift(id + |a|, |b|);
  }

  /** One id on its own is a run. */
  lemma ConsecutiveOne(id: Iid)
    ensures Consecutive([id], id, (id + 1) % U32)
  {
  }

  /** Without wrap-around the ids of a run are distinct. */
  lemma RunDistinct(base: int, n: nat)
    requires 0 <= base && base + n <= U32
    ensures Distinct(Run(base, n))
  {
    var r := Run(base, n);
    forall i, j | 0 <= i < j < n
      ensures r[i] != r[j]
    {
      assert r[i] == base + i && r[j] == base + j;
    }
  }

  /** The position of the first id in ids equal to id, or |ids| when there is none: the object
      a scan that stops at the first match reaches. */
  function IndexOf(ids: seq<Iid>, id: Iid): (k: nat)
    ensures k <= |ids| && (k < |ids| <==> id in ids)
    ensures k < |ids| ==> ids[k] == id
    ensures forall j :: 0 <= j < k ==> ids[j] != id
  {
    if ids == [] then 0
    else if ids[0] == id then 0
    else 1 + IndexOf(ids[1..], id)
  }

  /** The first match in a + b is the first in a, or else one past a in b. */
  lemma IndexOfAppend(a: seq<Iid>, b: seq<Iid>, id: Iid)
    ensures IndexOf(a + b, id) == if id in a then IndexOf(a, id) else |a| + IndexOf(b, id)
  {
    var k := if id in a then IndexOf(a, id) else |a| + IndexOf(b, id);
    var ab := a + b;
    forall j | 0 <= j < k
      ensures ab[j] != id
    {
      if j >= |a| {
        assert ab[j] == b[j - |a|];
      }
    }
    if k < |ab| {
      assert ab[k] == id by {
        if k >= |a| {
          assert ab[k] == b[k - |a|];
        }
      }
    }
  }

  // ------------------------------------------------------------------
  // Characteristic::Simple

  /** A write request, as Db::Write fills wr_prm from one JSON object: the ids, the value
      member with the outcome of converting it (Some(None) when the conversion failed), and the
      ev member when it is a boolean. */
  datatype WriteReq = WriteReq(aid: Iid, iid: Iid, value: Option<Option<int>>, ev: Option<bool>)

  /** What a write reports and leaves: whether the characteristic took it, p.status after it,
      and the characteristic after it. */
  datatype CharWrite = CharWrite(found: bool, status: Status, ch: Characteristic)

  /** What a read reports: whether the characteristic answered, p.status after it, and the
      properties it prints, in order. */
  datatype CharRead = CharRead(found: bool, status: Status, props: seq<KeyId>)

  /** A characteristic: its id, permissions, the keys of its optional properties (the _prop
      slots), its value and its ev flag. */
  datatype Characteristic = Characteristic(iid: Iid, perms: bv8, props: seq<Option<KeyId>>, value: int, ev: bool)
  {
    /** Base::setId: takes id and returns the next one (iid_t wraps at 2^32). */
    function SetId(id: Iid): (r: (Characteristic, Iid))
      ensures r.0.iid == id && r.0.(iid := iid) == this
      ensures r.1 == (id + 1) % U32
    {
      (this.(iid := id), (id + 1) % U32)
    }

    /** Simple::Write: the event flag first, then the value; each failing step
        overwrites the status, and a step that is not allowed leaves its property alone. */
    function Write(req: WriteReq, status: Status): (r: CharWrite)
      ensures Skeleton(r.ch) == Skeleton(this)
      ensures !r.found <==> req.iid != iid
      ensures !r.found ==> r == CharWrite(false, ResourceNotExist, this)
      ensures r.found && req.value.Some? && !IsEnabled(perms, PairedWrite) ==> r.status == CannotWrite
      ensures r.found && req.value.Some? && IsEnabled(perms, PairedWrite) && req.value.value.None? ==>
        r.status == InvalidValue
      ensures (r.found && (req.value.None? || (IsEnabled(perms, PairedWrite) && req.value.value.Some?)) &&
        req.ev.Some? && !IsEnabled(perms, Events)) ==> r.status == NotificationNotSupported
      ensures (r.found && (req.ev.None? || IsEnabled(perms, Events)) &&
        (req.value.None? || (IsEnabled(perms, PairedWrite) && req.value.value.Some?))) ==> r.status == status
      ensures r.ch.value != value ==>
        r.found && req.value.Some? && IsEnabled(perms, PairedWrite) && req.value.value == Some(r.ch.value)
      ensures r.found && req.value.Some? && IsEnabled(perms, PairedWrite) && req.value.value.Some? ==>
        r.ch.value == req.value.value.value
      ensures r.ch.ev != ev ==> r.found && req.ev == Some(r.ch.ev) && IsEnabled(perms, Events)
      ensures r.found && req.ev.Some? && IsEnabled(perms, Events) ==> r.ch.ev == req.ev.value
    {
      if req.iid != iid then CharWrite(false, ResourceNotExist, this)
      else
        var (st1, ev1) :=
          if req.ev.None? then (status, ev)
          else if !IsEnabled(perms, Events) then (NotificationNotSupported, ev)
          else (status, req.ev.value);
        var (st2, value2) :=
          if req.value.None? then (st1, value)
          else if !IsEnabled(perms, PairedWrite) then (CannotWrite, value)
          else if req.value.value.Some? then (st1, req.value.value.value)
          else (InvalidValue, value);
        CharWrite(true, st2, this.(value := value2, ev := ev1))
    }

    /** Simple::Read: the value when reading is permitted (else the status becomes
        CannotRead and the read goes on), then format and the optional meta properties held,
        perms, type and ev as the query asks. */
    function Read(flags: DbQuery.ReadFlags, reqIid: Iid, status: Status): (r: CharRead)
      ensures !r.found <==> reqIid != iid
      ensures !r.found ==> r == CharRead(false, ResourceNotExist, [])
      ensures r.found ==> r.status == if IsEnabled(perms, PairedRead) then status else CannotRead
      ensures r.found ==> r.props == ReadProps(IsEnabled(perms, PairedRead), flags, props)
    {
      if reqIid != iid then CharRead(false, ResourceNotExist, [])
      else
        var readable := IsEnabled(perms, PairedRead);
        CharRead(true, if readable then status else CannotRead, ReadProps(readable, flags, props))
    }
  }

  /** The characteristic with its value and ev flag cleared: what no write changes. */
  function Skeleton(c: Characteristic): Characteristic
  {
    c.(value := 0, ev := false)
  }

  /** The characteristic with its id cleared: what numbering does not change. */
  function Unnumbered(c: Characteristic): Characteristic
  {
    c.(iid := NullId)
  }

  /** A write's outcome depends on the characteristic's id and permissions only. */
  lemma WriteStatusLocal(c: Characteristic, d: Characteristic, req: WriteReq, status: Status)
    requires Skeleton(c) == Skeleton(d)
    ensures c.Write(req, status).found == d.Write(req, status).found
    ensures c.Write(req, status).status == d.Write(req, status).status
  {
    assert c.iid == Skeleton(c).iid && c.perms == Skeleton(c).perms;
    assert d.iid == Skeleton(d).iid && d.perms == Skeleton(d).perms;
  }

  /** The ids of cs, in order. */
  function IidsOf(cs: seq<Characteristic>): (r: seq<Iid>)
    ensures |r| == |cs| && forall m :: 0 <= m < |cs| ==> r[m] == cs[m].iid
  {
    seq(|cs|, m requires 0 <= m < |cs| => cs[m].iid)
  }

  lemma IidsAppend(a: seq<Characteristic>, b: seq<Characteristic>)
    ensures IidsOf(a + b) == IidsOf(a) + IidsOf(b)
  {
    var l, r := IidsOf(a + b), IidsOf(a) + IidsOf(b);
    forall m | 0 <= m < |l|
      ensures l[m] == r[m]
    {
      if m >= |a| {
        assert (a + b)[m] == b[m - |a|];
      }
    }
  }

  /** Clearing what f clears keeps the ids when f keeps them. */
  lemma IidsSkeleton(cs: seq<Characteristic>)
    ensures IidsOf(MapSeq(cs, Skeleton)) == IidsOf(cs)
  {
  }

  // Scanning the characteristic slots s for an id, one slot at a time: the slots before i
  // hold no characteristic with that id.

  ghost predicate Missed(s: seq<Option<Characteristic>>, i: nat, id: Iid)
  {
    i <= |s| && forall j :: 0 <= j < i ==> !(s[j].Some? && s[j].value.iid == id)
  }

  /** No slot before i matches: no characteristic among theirs has the id. */
  lemma {:induction false} MissedPrefix(s: seq<Option<Characteristic>>, i: nat, id: Iid)
    requires Missed(s, i, id)
    ensures id !in IidsOf(Present(s[..i]))
  {
    if i > 0 {
      MissedPrefix(s, i - 1, id);
      assert s[..i] == s[..i - 1] + [s[i - 1]];
      PresentSnoc(s[..i - 1], s[i - 1]);
      IidsAppend(Present(s[..i - 1]), if s[i - 1].Some? then [s[i - 1].value] else []);
    }
  }

  /** Slot i matches: its characteristic is the first one with that id. */
  lemma ScanHit(s: seq<Option<Characteristic>>, i: nat, id: Iid)
    requires i < |s| && Missed(s, i, id) && s[i].Some? && s[i].value.iid == id
    ensures IndexOf(IidsOf(Present(s)), id) == |Present(s[..i])|
    ensures |Present(s[..i])| < |Present(s)| && Present(s)[|Present(s[..i])|] == s[i].value
  {
    var pre := Present(s[..i]);
    MissedPrefix(s, i, id);
    PresentUpdate(s, i, s[i].value);
    PresentAppend(s[..i], s[i..]);
    assert s == s[..i] + s[i..];
    IidsAppend(pre, Present(s[i..]));
    IndexOfAppend(IidsOf(pre), IidsOf(Present(s[i..])), id);
    assert Present(s[i..])[0] == s[i].value;
  }

  /** All slots passed: no characteristic has that id. */
  lemma ScanEnd(s: seq<Option<Characteristic>>, id: Iid)
    requires Missed(s, |s|, id)
    ensures IndexOf(IidsOf(Present(s)), id) == |Present(s)|
  {
    MissedPrefix(s, |s|, id);
    assert s[..|s|] == s;
  }

  // ------------------------------------------------------------------
  // Service

  /** A service: its id and the contents of its characteristic array. */
  datatype Service = Service(iid: Iid, chars: seq<Option<Characteristic>>)
  {
    /** The characteristics in slot order, the null slots skipped. */
    function Chars(): seq<Characteristic>
    {
      Present(chars)
    }

    function Ids(): seq<Iid>
    {
      IidsOf(Chars())
    }

    /** The ids in the order setId hands them out: the service's, then its characteristics'. */
    function TreeIds(): seq<Iid>
    {
      [iid] + Ids()
    }

    /** Service::setId: the service takes id and its characteristics, in slot order, the ids
        after it; the next free id is returned.  Nothing else changes. */
    method SetId(id: Iid) returns (r: Service, next: Iid)
      ensures ServiceUnnumbered(r) == ServiceUnnumbered(this)
      ensures r.iid == id && Consecutive(r.TreeIds(), id, next)
    {
      var cs := chars;
      next := (id + 1) % U32;
      var i := 0;
      assert cs[..0] == [];
      while i < |cs|
        invariant i <= |cs| && NumberedUpTo(cs, chars, i, id, next)
      {
        if cs[i].Some? {
          var c, n := cs[i].value.SetId(next).0, cs[i].value.SetId(next).1;
          NumberTurn(cs, chars, i, id, next, c);
          cs := cs[i := Some(c)];
          next := n;
        } else {
          SkipTurn(cs, chars, i, id, next);
        }
        i := i + 1;
      }
      assert cs[..i] == cs;
      r := Service(id, cs);
      ConsecutiveOne(id);
      ConsecutiveJoin([id], r.Ids(), id, (id + 1) % U32, next);
    }

    /** Service::Write: the first characteristic with the request's iid takes the write, and
        nothing else changes; with none, the request is not found and the status is left
        alone. */
    method Write(req: WriteReq, status: Status) returns (r: Service, found: bool, status': Status)
      ensures var p := IndexOf(Ids(), req.iid);
        (found <==> p < |Ids()|) &&
        (!found ==> r == this && status' == status) &&
        (found ==> var w := Chars()[p].Write(req, status);
          status' == w.status && ServiceSkeleton(r) == ServiceSkeleton(this) && r.Chars() == Chars()[p := w.ch])
    {
      var i := 0;
      while i < |chars|
        invariant Missed(chars, i, req.iid)
      {
        var slot := chars[i];
        if slot.Some? && slot.value.iid == req.iid {
          ScanHit(chars, i, req.iid);
          var w := slot.value.Write(req, status);
          PresentUpdate(chars, i, w.ch);
          MapSlotsUpdate(chars, i, w.ch, Skeleton);
          return this.(chars := chars[i := Some(w.ch)]), w.found, w.status;
        }
        i := i + 1;
      }
      ScanEnd(chars, req.iid);
      return this, false, status;
    }

    /** Service::Read: the first characteristic with the request's iid answers; with none, the
        request is not found and the status is left alone. */
    method Read(flags: DbQuery.ReadFlags, reqIid: Iid, status: Status) returns (r: CharRead)
      ensures var p := IndexOf(Ids(), reqIid);
        if p < |Ids()| then r == Chars()[p].Read(flags, reqIid, status)
        else r == CharRead(false, status, [])
    {
      var i := 0;
      while i < |chars| && !(chars[i].Some? && chars[i].value.iid == reqIid)
        invariant Missed(chars, i, reqIid)
      {
        i := i + 1;
      }
      if i < |chars| {
        ScanHit(chars, i, reqIid);
        var c := chars[i].value;
        assert IndexOf(Ids(), reqIid) < |Ids()| && Chars()[IndexOf(Ids(), reqIid)] == c;
        r := c.Read(flags, reqIid, status);
      } else {
        ScanEnd(chars, reqIid);
        assert IndexOf(Ids(), reqIid) == |Ids()|;
        r := CharRead(false, status, []);
      }
    }
  }

  /** The setId loop after i slots: cs is chars with the characteristics of the first i slots
      numbered from id + 1 on, and next is the id after theirs. */
  ghost predicate NumberedUpTo(cs: seq<Option<Characteristic>>, chars: seq<Option<Characteristic>>, i: nat,
                               id: Iid, next: Iid)
  {
    i <= |cs| && MapSlots(cs, Unnumbered) == MapSlots(chars, Unnumbered) &&
    Consecutive(IidsOf(Present(cs[..i])), (id + 1) % U32, next)
  }

  /** Slot i holds a characteristic, which takes the id next. */
  lemma NumberTurn(cs: seq<Option<Characteristic>>, chars: seq<Option<Characteristic>>, i: nat,
                   id: Iid, next: Iid, c: Characteristic)
    requires NumberedUpTo(cs, chars, i, id, next) && i < |cs| && cs[i].Some?
    requires c == cs[i].value.SetId(next).0
    ensures NumberedUpTo(cs[i := Some(c)], chars, i + 1, id, (next + 1) % U32)
  {
    var t := cs[i := Some(c)];
    assert t[..i + 1] == cs[..i] + [Some(c)];
    PresentSnoc(cs[..i], Some(c));
    IidsAppend(Present(cs[..i]), [c]);
    ConsecutiveOne(next);
    ConsecutiveJoin(IidsOf(Present(cs[..i])), [next], (id + 1) % U32, next, (next + 1) % U32);
    MapSlotsUpdate(cs, i, c, Unnumbered);
  }

  /** Slot i is null. */
  lemma SkipTurn(cs: seq<Option<Characteristic>>, chars: seq<Option<Characteristic>>, i: nat, id: Iid, next: Iid)
    requires NumberedUpTo(cs, chars, i, id, next) && i < |cs| && cs[i].None?
    ensures NumberedUpTo(cs, chars, i + 1, id, next)
  {
    assert cs[..i + 1] == cs[..i] + [cs[i]];
    PresentSnoc(cs[..i], cs[i]);
  }

  /** The service with its characteristics' values and ev flags cleared. */
  function ServiceSkeleton(sv: Service): Service
  {
    sv.(chars := MapSlots(sv.chars, Skeleton))
  }

  /** The service with its own and its characteristics' ids cleared. */
  function ServiceUnnumbered(sv: Service): Service
  {
    Service(NullId, MapSlots(sv.chars, Unnumbered))
  }

  /** Clearing values and ev flags clears them in the list of characteristics. */
  lemma ServiceSkeletonChars(sv: Service)
    ensures ServiceSkeleton(sv).Chars() == MapSeq(sv.Chars(), Skeleton)
    ensures ServiceSkeleton(sv).Ids() == sv.Ids()
  {
    PresentMap(sv.chars, Skeleton);
    IidsSkeleton(sv.Chars());
  }

  /** Renumbering keeps the number of characteristics. */
  lemma ServiceUnnumberedSize(sv: Service, sv': Service)
    requires ServiceUnnumbered(sv) == ServiceUnnumbered(sv')
    ensures |sv.Chars()| == |sv'.Chars()| && |sv.TreeIds()| == |sv'.TreeIds()|
  {
    PresentMap(sv.chars, Unnumbered);
    PresentMap(sv'.chars, Unnumbered);
  }
}
