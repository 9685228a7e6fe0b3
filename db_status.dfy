// Operation statuses, permissions and the HTTP status of the characteristic requests
// (HapDb/HapDb.h).

module DbStatus {
  import opened Common

  /** iid_t: instance and accessory ids are 32-bit unsigned. */
  type Iid = x: int | 0 <= x < U32

  /** null_id */
  const NullId: Iid := 0

  // enum class Status, in declaration order
  datatype Status =
    | Success
    | RequestDenied
    | UnableToCommunicate
    | ResourceIsBusy
    | CannotWrite
    | CannotRead
    | NotificationNotSupported
    | OutOfResources
    | OperationTimedOut
    | ResourceNotExist
    | InvalidValue
    | InsufficientAuthorization

  /** The enumerator's value, int(c). */
  function Code(s: Status): (c: nat)
    ensures c < 12
    ensures c == 0 <==> s == Success
  {
    match s
    case Success => 0
    case RequestDenied => 1
    case UnableToCommunicate => 2
    case ResourceIsBusy => 3
    case CannotWrite => 4
    case CannotRead => 5
    case NotificationNotSupported => 6
    case OutOfResources => 7
    case OperationTimedOut => 8
    case ResourceNotExist => 9
    case InvalidValue => 10
    case InsufficientAuthorization => 11
  }

  /** Distinct statuses have distinct enumerator values. */
  lemma CodeInjective(a: Status, b: Status)
    ensures Code(a) == Code(b) ==> a == b
  {
  }

  function DigitChar(d: nat): char
    requires d < 10
  {
    "0123456789"[d]
  }

  /** StatusStr(c): the table entry at int(c).  Success is "0"; status n is the HAP code
      -70400 - n, written "-704" and two decimal digits. */
  function StatusStr(s: Status): (r: string)
    ensures s == Success ==> r == "0"
    ensures s != Success ==> r == "-704" + [DigitChar(Code(s) / 10), DigitChar(Code(s) % 10)]
  {
    [
      "0",
      "-70401",
      "-70402",
      "-70403",
      "-70404",
      "-70405",
      "-70406",
      "-70407",
      "-70408",
      "-70409",
      "-70410",
      "-70411"
    ][Code(s)]
  }

  /** No two statuses are reported with the same text. */
  lemma {:induction false} StatusStrInjective(a: Status, b: Status)
    requires StatusStr(a) == StatusStr(b)
    ensures a == b
  {
    if a != Success && b != Success {
      var ra, rb := StatusStr(a), StatusStr(b);
      assert ra[4] == rb[4] && ra[5] == rb[5];
      assert Code(a) / 10 == Code(b) / 10 && Code(a) % 10 == Code(b) % 10;
      CodeInjective(a, b);
    }
  }

  // enum HttpStatus
  datatype HttpStatus = Http200 | Http204 | Http207 | Http400 | Http404 | Http422 | Http500 | Http503

  // ------------------------------------------------------------------
  // Permissions (Property::Permissions)

  /** Perm bits */
  const PairedRead: bv8 := 1 << 0
  const PairedWrite: bv8 := 1 << 1
  const Events: bv8 := 1 << 2
  const AdditionalAuthorization: bv8 := 1 << 3
  const TimedWrite: bv8 := 1 << 4
  const Hidden: bv8 := 1 << 5

  /** Bit i of a mask. */
  predicate Bit(m: bv8, i: nat)
    requires i < 8
  {
    (m >> i) & 1 == 1
  }

  /** isEnabled(p): the permission value and the mask share a set bit. */
  predicate IsEnabled(perms: bv8, p: bv8)
  {
    perms & p != 0
  }

  /** A permission is enabled iff the value and the mask have a set bit in common. */
  lemma BitsMeet(a: bv8, b: bv8)
    ensures IsEnabled(a, b) <==> exists i :: 0 <= i < 8 && Bit(a, i) && Bit(b, i)
  {
    if a & b != 0 {
      var c := a & b;
      var i: nat := if c & 1 != 0 then 0 else if c & 2 != 0 then 1 else if c & 4 != 0 then 2
        else if c & 8 != 0 then 3 else if c & 16 != 0 then 4 else if c & 32 != 0 then 5
        else if c & 64 != 0 then 6 else 7;
      assert Bit(a, i) && Bit(b, i);
    }
  }

  /** PermStr */
  const PermStr: seq<string> := ["pr", "pw", "ev", "aa", "tw", "hd"]

  /** The names getDb lists for the bits below n, in ascending bit order. */
  function PermNames(perms: bv8, n: nat): seq<string>
    requires n <= 5
  {
    if n == 0 then []
    else PermNames(perms, n - 1) + (if IsEnabled(perms, 1 << (n - 1)) then [PermStr[n - 1]] else [])
  }

  /** The permissions member of a characteristic's JSON description lists "pr", "pw", "ev",
      "aa", "tw" for the set bits 0..4; the loop stops before bit 5, so a hidden
      characteristic is never reported as "hd". */
  method PermList(perms: bv8) returns (names: seq<string>)
    ensures names == PermNames(perms, 5)
  {
    names := [];
    for i := 0 to 5
      invariant names == PermNames(perms, i)
    {
      if IsEnabled(perms, 1 << i) {
        names := names + [PermStr[i]];
      }
    }
  }

  /** Where a name sits in PermStr. */
  function PermIndex(name: string): nat
  {
    if name == "pr" then 0 else if name == "pw" then 1 else if name == "ev" then 2
    else if name == "aa" then 3 else if name == "tw" then 4 else 5
  }

  lemma SingleBit(perms: bv8, i: nat)
    requires i < 8
    ensures IsEnabled(perms, 1 << i) <==> Bit(perms, i)
  {
    var m: bv8 := 1 << i;
    BitsMeet(perms, m);
    forall j | 0 <= j < 8
      ensures Bit(m, j) <==> j == i
    {
    }
  }

  /** A name is listed iff it is one of the first five and its bit is set; the names come
      in ascending bit order, so none is listed twice, and "hd" never appears. */
  lemma {:induction false} PermNamesSpec(perms: bv8, n: nat)
    requires n <= 5
    ensures forall k :: 0 <= k < |PermNames(perms, n)| ==> PermIndex(PermNames(perms, n)[k]) < n
    ensures forall i :: 0 <= i < n ==> (PermStr[i] in PermNames(perms, n) <==> Bit(perms, i))
    ensures forall a, b :: 0 <= a < b < |PermNames(perms, n)| ==>
      PermIndex(PermNames(perms, n)[a]) < PermIndex(PermNames(perms, n)[b])
    ensures "hd" !in PermNames(perms, n)
  {
    if n > 0 {
      PermNamesSpec(perms, n - 1);
      SingleBit(perms, n - 1);
      var p := PermNames(perms, n - 1);
      assert PermIndex(PermStr[n - 1]) == n - 1;
      forall i | 0 <= i < n - 1
        ensures PermStr[i] != PermStr[n - 1]
      {
        assert PermIndex(PermStr[i]) == i;
      }
      assert PermIndex("hd") == 5;
    }
  }

  // ------------------------------------------------------------------
  // The HTTP status of a multi-characteristic request

  /** errcnt: the items whose status is not Success. */
  function ErrCount(sts: seq<Status>): (n: nat)
    ensures n <= |sts|
  {
    if sts == [] then 0 else ErrCount(sts[..|sts| - 1]) + (if sts[|sts| - 1] != Success then 1 else 0)
  }

  lemma {:induction false} ErrCountSpec(sts: seq<Status>)
    ensures ErrCount(sts) == 0 <==> forall k :: 0 <= k < |sts| ==> sts[k] == Success
    ensures ErrCount(sts) == |sts| <==> forall k :: 0 <= k < |sts| ==> sts[k] != Success
  {
    if sts != [] {
      var init := sts[..|sts| - 1];
      ErrCountSpec(init);
      assert forall k :: 0 <= k < |init| ==> init[k] == sts[k];
    }
  }

  lemma ErrCountSnoc(sts: seq<Status>, s: Status)
    ensures ErrCount(sts + [s]) == ErrCount(sts) + (if s != Success then 1 else 0)
  {
    assert (sts + [s])[..|sts|] == sts;
  }

  /** Db::Write's result: the HTTP status and whether the response body is sent. */
  datatype WriteReply = WriteReply(status: HttpStatus, body: bool)

  /** PUT /characteristics: 204 with an empty body when every write succeeded, 400 when every
      one failed, 207 when some did and some did not. */
  function WriteResult(sts: seq<Status>): (r: WriteReply)
    ensures r.status == Http204 <==> forall k :: 0 <= k < |sts| ==> sts[k] == Success
    ensures r.status == Http400 <==> sts != [] && forall k :: 0 <= k < |sts| ==> sts[k] != Success
    ensures r.status == Http207 <==>
      (exists k :: 0 <= k < |sts| && sts[k] == Success) && (exists k :: 0 <= k < |sts| && sts[k] != Success)
    ensures r.body <==> r.status != Http204
  {
    ErrCountSpec(sts);
    var errcnt := ErrCount(sts);
    if errcnt == 0 then WriteReply(Http204, false)
    else if |sts| == errcnt then WriteReply(Http400, true)
    else WriteReply(Http207, true)
  }

  /** GET /characteristics: 200 when every read succeeded (also when the id list named no
      characteristic), 400 when every one failed, 207 otherwise. */
  function ReadResult(sts: seq<Status>): (r: HttpStatus)
    ensures r == Http200 <==> forall k :: 0 <= k < |sts| ==> sts[k] == Success
    ensures r == Http400 <==> sts != [] && forall k :: 0 <= k < |sts| ==> sts[k] != Success
    ensures r == Http207 <==>
      (exists k :: 0 <= k < |sts| && sts[k] == Success) && (exists k :: 0 <= k < |sts| && sts[k] != Success)
  {
    ErrCountSpec(sts);
    var errcnt := ErrCount(sts);
    if errcnt == 0 then Http200
    else if |sts| == errcnt then Http400
    else Http207
  }

  // ------------------------------------------------------------------
  // The status a read leaves in rd_prm

  /** What one read does to p.status: it either stores an error or leaves the field alone
      (a successful read never writes Success). */
  function Settle(effect: Option<Status>, carried: Status): Status
  {
    if effect.Some? then effect.value else carried
  }

  /** Db::Read as written: one rd_prm serves the whole id list and only aid and iid are reset
      between ids, so a status stays in place for every later id. */
  function StickyStatuses(effects: seq<Option<Status>>, carried: Status): (r: seq<Status>)
    ensures |r| == |effects|
  {
    if effects == [] then []
    else
      var s := Settle(effects[0], carried);
      [s] + StickyStatuses(effects[1..], s)
  }

  /** Each id's read starting from Success: the status the id's own read produced. */
  function ReportedStatuses(effects: seq<Option<Status>>): (r: seq<Status>)
    ensures |r| == |effects|
    ensures forall k :: 0 <= k < |effects| ==> r[k] == Settle(effects[k], Success)
  {
    seq(|effects|, k requires 0 <= k < |effects| => Settle(effects[k], Success))
  }

  /** Only errors are ever stored. */
  ghost predicate ErrorsOnly(effects: seq<Option<Status>>)
  {
    forall k :: 0 <= k < |effects| && effects[k].Some? ==> effects[k].value != Success
  }

  /** As written, once an id fails every later id is reported failed. */
  lemma {:induction false} StickyStatusSpreads(effects: seq<Option<Status>>, carried: Status, k: nat, j: nat)
    requires ErrorsOnly(effects) && k <= j < |effects|
    requires StickyStatuses(effects, carried)[k] != Success
    ensures StickyStatuses(effects, carried)[j] != Success
  {
    var s := Settle(effects[0], carried);
    assert ErrorsOnly(effects[1..]) by {
      forall i | 0 <= i < |effects[1..]| && effects[1..][i].Some?
        ensures effects[1..][i].value != Success
      {
        assert effects[1..][i] == effects[i + 1];
      }
    }
    if k == 0 && j > 0 {
      if 1 < |effects| {
        assert StickyStatuses(effects[1..], s)[0] == Settle(effects[1], s);
        StickyStatusSpreads(effects[1..], s, 0, j - 1);
      }
    } else if k > 0 {
      StickyStatusSpreads(effects[1..], s, k - 1, j - 1);
    }
  }

  /** A missing accessory followed by a readable characteristic ("id=1.1,2.1" with no
      accessory 1): as written both ids report -70409 and the request gets 400; each read
      on its own gives one failure and one success, a 207. */
  lemma StickyStatusMasksSuccess()
    ensures StickyStatuses([Some(ResourceNotExist), None], Success) == [ResourceNotExist, ResourceNotExist]
    ensures ReadResult(StickyStatuses([Some(ResourceNotExist), None], Success)) == Http400
    ensures ReportedStatuses([Some(ResourceNotExist), None]) == [ResourceNotExist, Success]
    ensures ReadResult(ReportedStatuses([Some(ResourceNotExist), None])) == Http207
  {
    var e := [Some(ResourceNotExist), None];
    assert e[1..] == [None];
    var r := ReportedStatuses(e);
    assert r[1] == Success;
  }
}
