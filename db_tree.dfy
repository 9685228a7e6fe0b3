// The top of the object tree (Accessory and Db in HapDb/HapDb.h): numbering an accessory's
// services and characteristics, passing a write or read to the object it names, and the two
// requests the database answers, PUT and GET /characteristics.
//
// The objects are values, as in the leaves: an accessory holds the contents of its service
// array and the database the contents of its accessory array.  An accessory is seen through
// the flat list of its characteristics, service by service and each service's in slot order:
// passing a request down the services until one takes it reaches the first characteristic
// of that list with the request's iid.

module DbTree {
  import opened Common
  import opened DbArray
  import opened DbStatus
  import opened DbObjects
  import DbQuery

  // ------------------------------------------------------------------
  // The services of an accessory, slot by slot

  /** The characteristics of the services in the slots s, service by service. */
  function Flat(s: seq<Option<Service>>): seq<Characteristic>
  {
    if s == [] then [] else Flat(s[..|s| - 1]) + (if s[|s| - 1].Some? then s[|s| - 1].value.Chars() else [])
  }

  /** The ids of the services in the slots s and of their characteristics, in the order
      setId hands them out. */
  function TreeIdsOf(s: seq<Option<Service>>): seq<Iid>
  {
    if s == [] then [] else TreeIdsOf(s[..|s| - 1]) + (if s[|s| - 1].Some? then s[|s| - 1].value.TreeIds() else [])
  }

  lemma FlatSnoc(s: seq<Option<Service>>, x: Option<Service>)
    ensures Flat(s + [x]) == Flat(s) + (if x.Some? then x.value.Chars() else [])
    ensures TreeIdsOf(s + [x]) == TreeIdsOf(s) + (if x.Some? then x.value.TreeIds() else [])
  {
    assert (s + [x])[..|s|] == s;
  }

  lemma {:induction false} FlatAppend(a: seq<Option<Service>>, b: seq<Option<Service>>)
    ensures Flat(a + b) == Flat(a) + Flat(b)
    decreases |b|
  {
    if b == [] {
      assert a + b == a;
    } else {
      var n := |b| - 1;
      FlatAppend(a, b[..n]);
      assert a + b == (a + b[..n]) + [b[n]];
      assert b == b[..n] + [b[n]];
      FlatSnoc(a + b[..n], b[n]);
      FlatSnoc(b[..n], b[n]);
    }
  }

  /** The characteristics of service j follow those of the services before it. */
  lemma FlatSplit(s: seq<Option<Service>>, j: nat)
    requires j < |s| && s[j].Some?
    ensures Flat(s) == Flat(s[..j]) + s[j].value.Chars() + Flat(s[j + 1..])
  {
    assert s == (s[..j] + [s[j]]) + s[j + 1..];
    FlatAppend(s[..j] + [s[j]], s[j + 1..]);
    FlatSnoc(s[..j], s[j]);
  }

  /** Clearing values and ev flags service by service clears them in the flat list. */
  lemma {:induction false} FlatSkeleton(s: seq<Option<Service>>)
    ensures Flat(MapSlots(s, ServiceSkeleton)) == MapSeq(Flat(s), Skeleton)
  {
    if s != [] {
      var n := |s| - 1;
      FlatSkeleton(s[..n]);
      var m := MapSlots(s, ServiceSkeleton);
      assert m == MapSlots(s[..n], ServiceSkeleton) + [m[n]];
      assert s == s[..n] + [s[n]];
      FlatSnoc(MapSlots(s[..n], ServiceSkeleton), m[n]);
      FlatSnoc(s[..n], s[n]);
      var tail := if s[n].Some? then s[n].value.Chars() else [];
      if s[n].Some? {
        ServiceSkeletonChars(s[n].value);
      }
      MapSeqAppend(Flat(s[..n]), tail, Skeleton);
    }
  }

  lemma MapSeqAppend<T>(a: seq<T>, b: seq<T>, f: T -> T)
    ensures MapSeq(a + b, f) == MapSeq(a, f) + MapSeq(b, f)
  {
  }

  /** Clearing the ids keeps their number. */
  lemma {:induction false} TreeIdsUnnumbered(s: seq<Option<Service>>)
    ensures |TreeIdsOf(MapSlots(s, ServiceUnnumbered))| == |TreeIdsOf(s)|
  {
    if s != [] {
      var n := |s| - 1;
      TreeIdsUnnumbered(s[..n]);
      var m := MapSlots(s, ServiceUnnumbered);
      assert m == MapSlots(s[..n], ServiceUnnumbered) + [m[n]];
      assert s == s[..n] + [s[n]];
      FlatSnoc(MapSlots(s[..n], ServiceUnnumbered), m[n]);
      FlatSnoc(s[..n], s[n]);
      if s[n].Some? {
        PresentMap(s[n].value.chars, Unnumbered);
      }
    }
  }

  /** Renumbering keeps the number of ids. */
  lemma TreeIdsSize(a: seq<Option<Service>>, b: seq<Option<Service>>)
    requires MapSlots(a, ServiceUnnumbered) == MapSlots(b, ServiceUnnumbered)
    ensures |TreeIdsOf(a)| == |TreeIdsOf(b)|
  {
    TreeIdsUnnumbered(a);
    TreeIdsUnnumbered(b);
  }

  // ------------------------------------------------------------------
  // Accessory

  /** An accessory: its aid and the contents of its service array. */
  datatype Accessory = Accessory(aid: Iid, servs: seq<Option<Service>>)
  {
    /** The characteristics, service by service. */
    function Chars(): seq<Characteristic>
    {
      Flat(servs)
    }

    function Ids(): seq<Iid>
    {
      IidsOf(Chars())
    }

    /** The ids of the services and characteristics, in the order init hands them out. */
    function TreeIds(): seq<Iid>
    {
      TreeIdsOf(servs)
    }

    /** Whether a write reaches a characteristic: the aid is this accessory's and some
        characteristic has the iid. */
    predicate Reaches(req: WriteReq)
    {
      req.aid == aid && req.iid in Ids()
    }

    /** p.status after Accessory::Write: -70409 for another aid; otherwise what the first
        characteristic with the iid leaves, or the status as it was when there is none. */
    function Report(req: WriteReq, status: Status): Status
    {
      if req.aid != aid then ResourceNotExist
      else
        var p := IndexOf(Ids(), req.iid);
        if p == |Ids()| then status else Chars()[p].Write(req, status).status
    }

    /** r is this accessory after the write: only the characteristic the write reaches has
        changed, as its own write changes it. */
    ghost predicate WrittenTo(req: WriteReq, status: Status, r: Accessory)
    {
      var p := IndexOf(Ids(), req.iid);
      if !Reaches(req) then r == this
      else AccSkeleton(r) == AccSkeleton(this) && r.Chars() == Chars()[p := Chars()[p].Write(req, status).ch]
    }

    /** What Accessory::Read reports: -70409 for another aid; otherwise the first
        characteristic with the iid answers, and with none the request is not found. */
    function ReadAnswer(flags: DbQuery.ReadFlags, id: DbQuery.Pair, status: Status): CharRead
    {
      if id.aid != aid then CharRead(false, ResourceNotExist, [])
      else
        var p := IndexOf(Ids(), id.iid);
        if p < |Ids()| then Chars()[p].Read(flags, id.iid, status) else CharRead(false, status, [])
    }

    /** Accessory::init: sets the aid and numbers the services, in slot order, from id on,
        each service followed by its characteristics; returns the next free id.  Nothing
        else changes, and without wrap-around the ids are distinct. */
    method Init(aid': Iid, id: Iid) returns (r: Accessory, next: Iid)
      ensures r.aid == aid' && AccUnnumbered(r) == AccUnnumbered(this)
      ensures Consecutive(r.TreeIds(), id, next)
      ensures id + |TreeIds()| <= U32 ==> Distinct(r.TreeIds())
    {
      var ss := servs;
      next := id;
      var i := 0;
      assert ss[..0] == [];
      while i < |ss|
        invariant i <= |ss| && ServicesNumbered(ss, servs, i, id, next)
      {
        if ss[i].Some? {
          var sv, n := ss[i].value.SetId(next);
          ServiceTurn(ss, servs, i, id, next, sv, n);
          ss := ss[i := Some(sv)];
          next := n;
        } else {
          ServiceSkip(ss, servs, i, id, next);
        }
        i := i + 1;
      }
      assert ss[..i] == ss;
      r := Accessory(aid', ss);
      TreeIdsSize(ss, servs);
      if id + |TreeIds()| <= U32 {
        RunDistinct(id, |TreeIds()|);
      }
    }

    /** Accessory::Write: a request for another aid is refused with -70409; otherwise it is
        passed to each service in slot order until one takes it. */
    method Write(req: WriteReq, status: Status) returns (r: Accessory, found: bool, status': Status)
      ensures found == Reaches(req) && status' == Report(req, status) && WrittenTo(req, status, r)
    {
      if req.aid != aid {
        return this, false, ResourceNotExist;
      }
      var i := 0;
      assert servs[..0] == [];
      while i < |servs|
        invariant i <= |servs| && req.iid !in IidsOf(Flat(servs[..i]))
      {
        var slot := servs[i];
        if slot.Some? {
          var sv, ok, st := slot.value.Write(req, status);
          if ok {
            WriteHit(this, i, req, status, sv);
            return this.(servs := servs[i := Some(sv)]), true, st;
          }
        }
        ServiceMiss(servs, i, req.iid);
        i := i + 1;
      }
      assert servs[..i] == servs;
      return this, false, status;
    }

    /** Accessory::Read: a request for another aid is refused with -70409; otherwise it is
        passed to each service in slot order until one answers. */
    method Read(flags: DbQuery.ReadFlags, id: DbQuery.Pair, status: Status) returns (r: CharRead)
      ensures r == ReadAnswer(flags, id, status)
    {
      if id.aid != aid {
        return CharRead(false, ResourceNotExist, []);
      }
      var i := 0;
      assert servs[..0] == [];
      while i < |servs|
        invariant i <= |servs| && id.iid !in IidsOf(Flat(servs[..i]))
      {
        var slot := servs[i];
        if slot.Some? {
          r := slot.value.Read(flags, id.iid, status);
          if r.found {
            ReadHit(servs, i, id.iid);
            return r;
          }
        }
        ServiceMiss(servs, i, id.iid);
        i := i + 1;
      }
      assert servs[..i] == servs;
      return CharRead(false, status, []);
    }
  }

  /** The accessory with its characteristics' values and ev flags cleared. */
  function AccSkeleton(acc: Accessory): Accessory
  {
    acc.(servs := MapSlots(acc.servs, ServiceSkeleton))
  }

  /** The accessory with its aid and all ids below it cleared. */
  function AccUnnumbered(acc: Accessory): Accessory
  {
    Accessory(NullId, MapSlots(acc.servs, ServiceUnnumbered))
  }

  /** The init loop after i slots: ss is s with the services of the first i slots numbered
      from id on, and next is the id after theirs. */
  ghost predicate ServicesNumbered(ss: seq<Option<Service>>, s: seq<Option<Service>>, i: nat, id: Iid, next: Iid)
  {
    i <= |ss| && MapSlots(ss, ServiceUnnumbered) == MapSlots(s, ServiceUnnumbered) &&
    Consecutive(TreeIdsOf(ss[..i]), id, next)
  }

  /** Slot i holds a service, which numbered itself from next on. */
  lemma ServiceTurn(ss: seq<Option<Service>>, s: seq<Option<Service>>, i: nat, id: Iid, next: Iid,
                    sv: Service, n: Iid)
    requires ServicesNumbered(ss, s, i, id, next) && i < |ss| && ss[i].Some?
    requires ServiceUnnumbered(sv) == ServiceUnnumbered(ss[i].value) && Consecutive(sv.TreeIds(), next, n)
    ensures ServicesNumbered(ss[i := Some(sv)], s, i + 1, id, n)
  {
    var t := ss[i := Some(sv)];
    assert t[..i + 1] == ss[..i] + [Some(sv)];
    FlatSnoc(ss[..i], Some(sv));
    ConsecutiveJoin(TreeIdsOf(ss[..i]), sv.TreeIds(), id, next, n);
    MapSlotsUpdate(ss, i, sv, ServiceUnnumbered);
  }

  /** Slot i is null. */
  lemma ServiceSkip(ss: seq<Option<Service>>, s: seq<Option<Service>>, i: nat, id: Iid, next: Iid)
    requires ServicesNumbered(ss, s, i, id, next) && i < |ss| && ss[i].None?
    ensures ServicesNumbered(ss, s, i + 1, id, next)
  {
    assert ss[..i + 1] == ss[..i] + [ss[i]];
    FlatSnoc(ss[..i], ss[i]);
  }

  /** Slot i holds no characteristic with the id either. */
  lemma ServiceMiss(s: seq<Option<Service>>, i: nat, id: Iid)
    requires i < |s| && id !in IidsOf(Flat(s[..i]))
    requires s[i].Some? ==> id !in s[i].value.Ids()
    ensures id !in IidsOf(Flat(s[..i + 1]))
  {
    assert s[..i + 1] == s[..i] + [s[i]];
    FlatSnoc(s[..i], s[i]);
    IidsAppend(Flat(s[..i]), if s[i].Some? then s[i].value.Chars() else []);
  }

  /** The service in slot i holds the first characteristic with the id, at position q of its
      own list and |Flat(s[..i])| + q of the accessory's. */
  lemma ServiceHit(s: seq<Option<Service>>, i: nat, id: Iid)
    requires i < |s| && id !in IidsOf(Flat(s[..i])) && s[i].Some? && id in s[i].value.Ids()
    ensures IndexOf(IidsOf(Flat(s)), id) == |Flat(s[..i])| + IndexOf(s[i].value.Ids(), id)
    ensures Flat(s) == Flat(s[..i]) + s[i].value.Chars() + Flat(s[i + 1..])
  {
    var pre, mid, post := Flat(s[..i]), s[i].value.Chars(), Flat(s[i + 1..]);
    FlatSplit(s, i);
    IidsAppend(pre + mid, post);
    IidsAppend(pre, mid);
    IndexOfAppend(IidsOf(pre) + IidsOf(mid), IidsOf(post), id);
    IndexOfAppend(IidsOf(pre), IidsOf(mid), id);
  }

  /** A read answered by the service in slot i is the first characteristic's answer. */
  lemma ReadHit(s: seq<Option<Service>>, i: nat, id: Iid)
    requires i < |s| && id !in IidsOf(Flat(s[..i])) && s[i].Some? && id in s[i].value.Ids()
    ensures var p := IndexOf(IidsOf(Flat(s)), id);
      p < |Flat(s)| && Flat(s)[p] == s[i].value.Chars()[IndexOf(s[i].value.Ids(), id)]
  {
    ServiceHit(s, i, id);
    var pre, mid, post := Flat(s[..i]), s[i].value.Chars(), Flat(s[i + 1..]);
    var q := IndexOf(IidsOf(mid), id);
    assert q < |mid|;
    IndexMiddle(pre, mid, post, q);
  }

  lemma IndexMiddle<T>(pre: seq<T>, mid: seq<T>, post: seq<T>, q: nat)
    requires q < |mid|
    ensures |pre| + q < |pre + mid + post| && (pre + mid + post)[|pre| + q] == mid[q]
  {
  }

  lemma UpdateMiddle<T>(pre: seq<T>, mid: seq<T>, post: seq<T>, q: nat, x: T)
    requires q < |mid|
    ensures (pre + mid + post)[|pre| + q := x] == pre + mid[q := x] + post
  {
  }

  /** Changing characteristic q of the service in slot i changes position |Flat(s[..i])| + q
      of the flat list. */
  lemma FlatUpdate(s: seq<Option<Service>>, i: nat, sv: Service, q: nat, x: Characteristic)
    requires i < |s| && s[i].Some? && q < |s[i].value.Chars()|
    requires sv.Chars() == s[i].value.Chars()[q := x]
    ensures |Flat(s[..i])| + q < |Flat(s)|
    ensures Flat(s[i := Some(sv)]) == Flat(s)[|Flat(s[..i])| + q := x]
  {
    var s' := s[i := Some(sv)];
    FlatSplit(s, i);
    assert s'[..i] == s[..i] && s'[i + 1..] == s[i + 1..];
    FlatSplit(s', i);
    UpdateMiddle(Flat(s[..i]), s[i].value.Chars(), Flat(s[i + 1..]), q, x);
  }

  /** The service in slot i took the write and became sv. */
  lemma WriteHit(acc: Accessory, i: nat, req: WriteReq, status: Status, sv: Service)
    requires req.aid == acc.aid && i < |acc.servs| && req.iid !in IidsOf(Flat(acc.servs[..i]))
    requires acc.servs[i].Some? && req.iid in acc.servs[i].value.Ids()
    requires var old_ := acc.servs[i].value; var q := IndexOf(old_.Ids(), req.iid);
      ServiceSkeleton(sv) == ServiceSkeleton(old_) &&
      sv.Chars() == old_.Chars()[q := old_.Chars()[q].Write(req, status).ch]
    ensures var old_ := acc.servs[i].value; var q := IndexOf(old_.Ids(), req.iid);
      acc.Reaches(req) && acc.Report(req, status) == old_.Chars()[q].Write(req, status).status &&
      acc.WrittenTo(req, status, acc.(servs := acc.servs[i := Some(sv)]))
  {
    var s := acc.servs;
    var old_ := s[i].value;
    var q := IndexOf(old_.Ids(), req.iid);
    ServiceHit(s, i, req.iid);
    ReadHit(s, i, req.iid);
    var p := IndexOf(acc.Ids(), req.iid);
    assert acc.Chars()[p] == old_.Chars()[q];
    var x := old_.Chars()[q].Write(req, status).ch;
    FlatUpdate(s, i, sv, q, x);
    MapSlotsUpdate(s, i, sv, ServiceSkeleton);
  }

  // ------------------------------------------------------------------
  // Db

  /** HTTP request outcomes are in DbStatus; a read of the database reports one answer per
      id pair, in order. */
  datatype Db = Db(accs: seq<Option<Accessory>>)
  {
    /** The slot of the accessory GetAcc(aid) returns: the first holding one with that aid,
        or |accs| when there is none. */
    function AccSlot(aid: Iid): (k: nat)
      ensures k <= |accs|
      ensures k < |accs| ==> accs[k].Some? && accs[k].value.aid == aid
      ensures forall j :: 0 <= j < k ==> !(accs[j].Some? && accs[j].value.aid == aid)
    {
      SlotFrom(accs, aid, 0)
    }

    /** AccSlot is where GetAcc's scan (GetObj with a match on the aid) stops. */
    lemma AccSlotIsGetObj(aid: Iid, accept: Accessory -> bool)
      requires forall a :: accept(a) <==> a.aid == aid
      ensures FirstMatch(accs, accept) == if AccSlot(aid) < |accs| then accs[AccSlot(aid)] else None
    {
      FirstMatchSpec(accs, accept);
      var k := AccSlot(aid);
      if FirstMatch(accs, accept).Some? {
        var j :| Hit(accs, accept, j) && accs[j] == FirstMatch(accs, accept) &&
          forall m :: 0 <= m < j ==> !Hit(accs, accept, m);
        assert accs[j].value.aid == aid;
        assert k <= j;
        assert Hit(accs, accept, k);
      } else if k < |accs| {
        assert Hit(accs, accept, k);
      }
    }

    /** The status the response gives one write, a fresh wr_prm for each: -70409 when no
        accessory has the aid or the accessory does not take the write, else what the
        characteristic leaves. */
    function ItemStatus(req: WriteReq): Status
    {
      var k := AccSlot(req.aid);
      if k == |accs| then ResourceNotExist
      else if !accs[k].value.Reaches(req) then ResourceNotExist
      else accs[k].value.Report(req, Success)
    }

    /** r is the database after one write: the accessory GetAcc finds, if any, took it. */
    ghost predicate ItemWritten(req: WriteReq, r: Db)
    {
      var k := AccSlot(req.aid);
      if k == |accs| then r == this
      else
        (|r.accs| == |accs| && r.accs[k].Some? && r.accs == accs[k := r.accs[k]] &&
         accs[k].value.WrittenTo(req, Success, r.accs[k].value))
    }

    /** The answer one id pair of a GET gets, the read starting from status carried: -70409
        when no accessory has the aid or the accessory does not answer. */
    function ReadAnswer(flags: DbQuery.ReadFlags, id: DbQuery.Pair, carried: Status): CharRead
    {
      var k := AccSlot(id.aid);
      if k == |accs| then CharRead(false, ResourceNotExist, [])
      else
        var r := accs[k].value.ReadAnswer(flags, id, carried);
        if r.found then r else r.(status := ResourceNotExist)
    }

    /** The answers a read of the pairs ps gets, each from a fresh status. */
    function Answers(flags: DbQuery.ReadFlags, ps: seq<DbQuery.Pair>): (r: seq<CharRead>)
      ensures |r| == |ps| && forall k :: 0 <= k < |ps| ==> r[k] == ReadAnswer(flags, ps[k], Success)
    {
      seq(|ps|, k requires 0 <= k < |ps| => ReadAnswer(flags, ps[k], Success))
    }

    lemma AnswersSnoc(flags: DbQuery.ReadFlags, ps: seq<DbQuery.Pair>, id: DbQuery.Pair)
      ensures Answers(flags, ps + [id]) == Answers(flags, ps) + [ReadAnswer(flags, id, Success)]
    {
    }

    /** What the read of one id leaves in a fresh rd_prm: nothing when the status stays
        Success, else the failure it stores. */
    function Effect(flags: DbQuery.ReadFlags, id: DbQuery.Pair): Option<Status>
    {
      var st := ReadAnswer(flags, id, Success).status;
      if st == Success then None else Some(st)
    }

    function Effects(flags: DbQuery.ReadFlags, ps: seq<DbQuery.Pair>): (r: seq<Option<Status>>)
      ensures |r| == |ps| && forall k :: 0 <= k < |ps| ==> r[k] == Effect(flags, ps[k])
    {
      seq(|ps|, k requires 0 <= k < |ps| => Effect(flags, ps[k]))
    }

    /** A read gives the same answer whatever status it starts from, except for the status:
        a failure overwrites it, a success leaves it as it was. */
    lemma ReadCarried(flags: DbQuery.ReadFlags, id: DbQuery.Pair, carried: Status)
      ensures ReadAnswer(flags, id, carried) ==
        ReadAnswer(flags, id, Success).(status := Settle(Effect(flags, id), carried))
    {
    }

    /** Db::Read as written: the status of one id's read is where the next id's read starts. */
    function StickyAnswers(flags: DbQuery.ReadFlags, ps: seq<DbQuery.Pair>, carried: Status): (r: seq<CharRead>)
      ensures |r| == |ps|
    {
      if ps == [] then []
      else
        var a := ReadAnswer(flags, ps[0], carried);
        [a] + StickyAnswers(flags, ps[1..], a.status)
    }

    /** As written, the statuses follow StickyStatuses on the reads' own outcomes, which
        store only failures. */
    lemma {:induction false} StickyAnswersStatuses(flags: DbQuery.ReadFlags, ps: seq<DbQuery.Pair>, carried: Status)
      ensures StatusesOf(StickyAnswers(flags, ps, carried)) == StickyStatuses(Effects(flags, ps), carried)
      ensures ErrorsOnly(Effects(flags, ps))
    {
      if ps != [] {
        ReadCarried(flags, ps[0], carried);
        var s := Settle(Effect(flags, ps[0]), carried);
        StickyAnswersStatuses(flags, ps[1..], s);
        assert Effects(flags, ps) == [Effect(flags, ps[0])] + Effects(flags, ps[1..]);
      }
    }

    /** Starting each read from Success, every id reports its own outcome. */
    lemma FreshStatuses(flags: DbQuery.ReadFlags, ps: seq<DbQuery.Pair>)
      ensures StatusesOf(Answers(flags, ps)) == ReportedStatuses(Effects(flags, ps))
    {
    }

    /** The body of the write loop of Db::Write for one well-formed item. */
    method WriteItem(req: WriteReq) returns (r: Db, status: Status)
      ensures status == ItemStatus(req) && ItemWritten(req, r)
    {
      var k := AccSlot(req.aid);
      if k == |accs| {
        return this, ResourceNotExist;
      }
      var acc, found, st := accs[k].value.Write(req, Success);
      if !found {
        st := ResourceNotExist;
      }
      return Db(accs[k := Some(acc)]), st;
    }

    /** Db::Write on the parsed request: None when the body is not an object with a
        "characteristics" array, an item None when it is malformed.  A malformed request or
        item ends the request with 400 and no body, the items before it having been
        applied; otherwise each item gets its status, computed on the database as it was,
        and the reply is 204, 400 or 207 as WriteResult says. */
    method Write(items: Option<seq<Option<WriteReq>>>) returns (r: Db, reply: WriteReply, sts: seq<Status>,
                                                               ghost trace: seq<Db>)
      ensures items.None? ==> r == this && reply == WriteReply(Http400, false) && sts == []
      ensures items.Some? ==>
        (|sts| == FirstBad(items.value) && forall k :: 0 <= k < |sts| ==> sts[k] == ItemStatus(items.value[k].value))
      ensures items.Some? ==>
        reply == if |sts| < |items.value| then WriteReply(Http400, false) else WriteResult(sts)
      ensures DbSkeleton(r) == DbSkeleton(this)
      ensures |trace| == |sts| + 1 && trace[0] == this && trace[|sts|] == r
      ensures items.Some? ==> Replayed(trace, items.value, |sts|)
    {
      if items.None? {
        return this, WriteReply(Http400, false), [], [this];
      }
      var reqs := items.value;
      r, sts, trace := this, [], [this];
      var i := 0;
      while i < |reqs|
        invariant i <= |reqs| && i <= FirstBad(reqs) && WriteProgress(reqs, i, sts, trace, r) && trace[0] == this
      {
        if reqs[i].None? {
          return r, WriteReply(Http400, false), sts, trace;
        }
        var r', st := r.WriteItem(reqs[i].value);
        WriteTurn(reqs, i, sts, trace, r, r', st);
        sts, trace, r := sts + [st], trace + [r'], r';
        i := i + 1;
      }
      reply := WriteResult(sts);
    }

    /** One id pair of the read loop, read from a fresh status. */
    method ReadOne(flags: DbQuery.ReadFlags, id: DbQuery.Pair) returns (r: CharRead)
      ensures r == ReadAnswer(flags, id, Success)
    {
      var k := AccSlot(id.aid);
      if k == |accs| {
        return CharRead(false, ResourceNotExist, []);
      }
      r := accs[k].value.Read(flags, id, Success);
      if !r.found {
        r := r.(status := ResourceNotExist);
      }
    }

    /** The id loop of Db::Read over the id list s: it decodes the pairs one character at a
        time and reads each pair as soon as it is complete; a character out of place gives
        400 (ok false). */
    method ReadIds(s: string, flags: DbQuery.ReadFlags) returns (ok: bool, answers: seq<CharRead>)
      ensures ok <==> DbQuery.DecodeIds(s).Some?
      ensures ok ==> answers == Answers(flags, DbQuery.DecodeIds(s).value)
    {
      var i, aid, iid, readAid := 0, NullId, NullId, true;
      ghost var done: seq<DbQuery.Pair> := [];
      answers := [];
      AfterNothing(DbQuery.DecodeIds(s));
      while i < |s|
        invariant i <= |s|
        invariant DbQuery.DecodeIds(s) == After(done, DbQuery.DecodeFrom(s, i, aid, iid, readAid))
        invariant answers == Answers(flags, done)
        decreases |s| - i
      {
        if readAid {
          if DbQuery.IsDigit(s[i]) {
            aid := DbQuery.Shift(aid, s[i]);
            i := i + 1;
            continue;
          } else if s[i] != '.' {
            return false, [];
          }
          i := i + 1;
          readAid := false;
        } else {
          if DbQuery.IsDigit(s[i]) {
            iid := DbQuery.Shift(iid, s[i]);
            i := i + 1;
            if i < |s| {
              continue;
            }
            AfterLast(done, DbQuery.Pair(aid, iid));
          } else if s[i] != ',' {
            return false, [];
          } else {
            AfterPrepend(done, DbQuery.Pair(aid, iid), DbQuery.DecodeFrom(s, i + 1, NullId, NullId, true));
            i := i + 1;
          }
          readAid := true;
          var a := ReadOne(flags, DbQuery.Pair(aid, iid));
          AnswersSnoc(flags, done, DbQuery.Pair(aid, iid));
          answers, done := answers + [a], done + [DbQuery.Pair(aid, iid)];
          aid, iid := NullId, NullId;
        }
      }
      assert done + [] == done;
      return true, answers;
    }

    /** Db::Read on the query string: 400 when the query does not parse, names no id list
        or holds a malformed one; otherwise every pair of the list is read, in order, each
        from a fresh status, and the reply is 200, 400 or 207 as ReadResult says. */
    method Read(q: string) returns (status: HttpStatus, answers: seq<CharRead>)
      ensures var ids := IdsOf(q);
        (ids.None? || ids.value.0 == [] ==> status == Http400 && answers == []) &&
        (ids.Some? && ids.value.0 != [] && DbQuery.DecodeIds(ids.value.0).None? ==> status == Http400) &&
        (ids.Some? && ids.value.0 != [] && DbQuery.DecodeIds(ids.value.0).Some? ==>
          answers == Answers(ids.value.1, DbQuery.DecodeIds(ids.value.0).value) &&
          status == ReadResult(StatusesOf(answers)))
    {
      var pq := DbQuery.ParseQuery(q);
      if pq.None? {
        assert IdsOf(q).None?;
        return Http400, [];
      }
      var st := pq.value;
      IdsOfParsed(q, st);
      var text := q[st.idStart..st.idStart + st.idLen];
      if st.idLen == 0 {
        assert text == [];
        return Http400, [];
      }
      var ok;
      ok, answers := ReadIds(text, st.flags);
      if !ok {
        return Http400, answers;
      }
      status := ReadResult(StatusesOf(answers));
    }
  }

  /** The databases trace[k] after the first k of n well-formed items: each arises from the
      one before by the write of its item. */
  ghost predicate Replayed(trace: seq<Db>, reqs: seq<Option<WriteReq>>, n: nat)
  {
    n < |trace| && n <= |reqs| &&
    forall k :: 0 <= k < n ==> reqs[k].Some? && trace[k].ItemWritten(reqs[k].value, trace[k + 1])
  }

  /** The write loop after i items. */
  ghost predicate WriteProgress(reqs: seq<Option<WriteReq>>, i: nat, sts: seq<Status>, trace: seq<Db>, r: Db)
  {
    |sts| == i && |trace| == i + 1 && trace[i] == r && Replayed(trace, reqs, i) &&
    DbSkeleton(r) == DbSkeleton(trace[0]) &&
    forall k :: 0 <= k < i ==> reqs[k].Some? && sts[k] == trace[0].ItemStatus(reqs[k].value)
  }

  lemma WriteTurn(reqs: seq<Option<WriteReq>>, i: nat, sts: seq<Status>, trace: seq<Db>, r: Db, r': Db, st: Status)
    requires WriteProgress(reqs, i, sts, trace, r) && i < |reqs| && reqs[i].Some?
    requires st == r.ItemStatus(reqs[i].value) && r.ItemWritten(reqs[i].value, r')
    ensures WriteProgress(reqs, i + 1, sts + [st], trace + [r'], r')
  {
    ItemStatusSkeleton(r, trace[0], reqs[i].value);
    ItemWrittenSkeleton(r, reqs[i].value, r');
    ReplayedSnoc(trace, reqs, i, r');
  }

  lemma ReplayedSnoc(trace: seq<Db>, reqs: seq<Option<WriteReq>>, i: nat, r': Db)
    requires Replayed(trace, reqs, i) && |trace| == i + 1 && i < |reqs| && reqs[i].Some?
    requires trace[i].ItemWritten(reqs[i].value, r')
    ensures Replayed(trace + [r'], reqs, i + 1)
  {
    var trace' := trace + [r'];
    forall k | 0 <= k < i + 1
      ensures reqs[k].Some? && trace'[k].ItemWritten(reqs[k].value, trace'[k + 1])
    {
      if k < i {
        assert trace'[k] == trace[k] && trace'[k + 1] == trace[k + 1];
      }
    }
  }

  /** The first slot from j on holding an accessory with that aid, or |accs|. */
  function SlotFrom(accs: seq<Option<Accessory>>, aid: Iid, j: nat): (k: nat)
    requires j <= |accs|
    ensures j <= k <= |accs|
    ensures k < |accs| ==> accs[k].Some? && accs[k].value.aid == aid
    ensures forall m :: j <= m < k ==> !(accs[m].Some? && accs[m].value.aid == aid)
    decreases |accs| - j
  {
    if j == |accs| then j
    else if accs[j].Some? && accs[j].value.aid == aid then j
    else SlotFrom(accs, aid, j + 1)
  }

  /** The first malformed item, or |items| when all are well-formed. */
  function FirstBad(items: seq<Option<WriteReq>>): (k: nat)
    ensures k <= |items| && (k < |items| ==> items[k].None?)
    ensures forall j :: 0 <= j < k ==> items[j].Some?
  {
    if items == [] || items[0].None? then 0 else 1 + FirstBad(items[1..])
  }

  /** The database with every characteristic's value and ev flag cleared. */
  function DbSkeleton(db: Db): Db
  {
    Db(MapSlots(db.accs, AccSkeleton))
  }

  /** The id list and the flags of a query, when it parses. */
  function IdsOf(q: string): Option<(string, DbQuery.ReadFlags)>
  {
    var pq := DbQuery.ParseQuerySpec(q);
    if pq.None? then None else Some((DbQuery.IdText(q, pq.value), pq.value.flags))
  }

  lemma IdsOfParsed(q: string, st: DbQuery.Query)
    requires DbQuery.ParseQuerySpec(q) == Some(st)
    ensures st.idStart + st.idLen <= |q| && IdsOf(q) == Some((q[st.idStart..st.idStart + st.idLen], st.flags))
  {
  }

  /** The decoder's result with the pairs done put in front. */
  function After(done: seq<DbQuery.Pair>, r: Option<seq<DbQuery.Pair>>): Option<seq<DbQuery.Pair>>
  {
    if r.None? then None else Some(done + r.value)
  }

  lemma AfterNothing(r: Option<seq<DbQuery.Pair>>)
    ensures After([], r) == r
  {
    if r.Some? {
      assert [] + r.value == r.value;
    }
  }

  /** A pair completed at the last character of the list. */
  lemma AfterLast(done: seq<DbQuery.Pair>, id: DbQuery.Pair)
    ensures After(done, Some([id])) == After(done + [id], Some([]))
  {
    assert done + [id] + [] == done + [id];
  }

  /** A pair completed at a ','. */
  lemma AfterPrepend(done: seq<DbQuery.Pair>, id: DbQuery.Pair, r: Option<seq<DbQuery.Pair>>)
    ensures After(done, DbQuery.Prepend(id, r)) == After(done + [id], r)
  {
    if r.Some? {
      assert done + ([id] + r.value) == done + [id] + r.value;
    }
  }

  /** The statuses of the answers, in order. */
  function StatusesOf(answers: seq<CharRead>): (r: seq<Status>)
    ensures |r| == |answers| && forall k :: 0 <= k < |answers| ==> r[k] == answers[k].status
  {
    seq(|answers|, k requires 0 <= k < |answers| => answers[k].status)
  }

  /** Clearing values and ev flags keeps the aids, ids and permissions a write is routed by,
      so the slot GetAcc finds is the same. */
  lemma AccSlotSkeleton(db1: Db, db2: Db, aid: Iid)
    requires DbSkeleton(db1) == DbSkeleton(db2)
    ensures db1.AccSlot(aid) == db2.AccSlot(aid)
    ensures db1.AccSlot(aid) < |db1.accs| ==>
      AccSkeleton(db1.accs[db1.AccSlot(aid)].value) == AccSkeleton(db2.accs[db1.AccSlot(aid)].value)
  {
    var m1, m2 := MapSlots(db1.accs, AccSkeleton), MapSlots(db2.accs, AccSkeleton);
    assert |db1.accs| == |m1| == |m2| == |db2.accs|;
    forall j | 0 <= j < |db1.accs|
      ensures db1.accs[j].Some? == db2.accs[j].Some?
      ensures db1.accs[j].Some? ==> AccSkeleton(db1.accs[j].value) == AccSkeleton(db2.accs[j].value)
    {
      assert m1[j] == m2[j];
    }
  }

  /** An accessory's characteristics with values and ev flags cleared. */
  lemma AccSkeletonChars(a: Accessory, b: Accessory)
    requires AccSkeleton(a) == AccSkeleton(b)
    ensures a.aid == b.aid && a.Ids() == b.Ids() && |a.Chars()| == |b.Chars()|
    ensures forall p :: 0 <= p < |a.Chars()| ==> Skeleton(a.Chars()[p]) == Skeleton(b.Chars()[p])
  {
    FlatSkeleton(a.servs);
    FlatSkeleton(b.servs);
    assert MapSeq(a.Chars(), Skeleton) == MapSeq(b.Chars(), Skeleton);
    IidsSkeleton(a.Chars());
    IidsSkeleton(b.Chars());
  }

  /** An item's status depends on what no write changes, so every item of a request gets
      the status it would get on the database as the request found it. */
  lemma ItemStatusSkeleton(db1: Db, db2: Db, req: WriteReq)
    requires DbSkeleton(db1) == DbSkeleton(db2)
    ensures db1.ItemStatus(req) == db2.ItemStatus(req)
  {
    AccSlotSkeleton(db1, db2, req.aid);
    var k := db1.AccSlot(req.aid);
    if k < |db1.accs| {
      var a, b := db1.accs[k].value, db2.accs[k].value;
      AccSkeletonChars(a, b);
      var p := IndexOf(a.Ids(), req.iid);
      if p < |a.Ids()| {
        WriteStatusLocal(a.Chars()[p], b.Chars()[p], req, Success);
      }
    }
  }

  /** A write changes no skeleton. */
  lemma ItemWrittenSkeleton(db: Db, req: WriteReq, r: Db)
    requires db.ItemWritten(req, r)
    ensures DbSkeleton(r) == DbSkeleton(db)
  {
    var k := db.AccSlot(req.aid);
    if k < |db.accs| {
      MapSlotsUpdate(db.accs, k, r.accs[k].value, AccSkeleton);
      assert db.accs[k := Some(r.accs[k].value)] == r.accs;
    }
  }
}
