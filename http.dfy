// The HTTP server core of the accessory: the session slot pool (Server::Open/Close), the
// routing of a parsed request (Server::Process) and the PairSetup handlers M1, M3 and M5.
//
// The pairing record is process-wide: srp (whether an SRP session exists), srp_owner (the
// slot it belongs to) and srp_auth_count (a uint8_t counting the key exchanges started).
// The crypto calls (SRP, HKDF, the AEAD decryption) are given to the handlers as their
// outcomes; a handler's answer is the list of TLV items it adds to the response.

module Http {
  import opened Common
  import opened Tlv

  /** sid_invalid: the owner recorded when there is no pairing record; never a slot index. */
  const SidInvalid: int := -1

  /** Tlv::Method::PairSetupNonMfi, the pair-setup method without MFi authentication. */
  const MethodPairSetupNonMfi: byte := 0

  /** Pairings::Admin, the permission a controller paired through PairSetup receives. */
  const PermissionAdmin: byte := 1

  /** M1 answers MaxTries once srp_auth_count is above this. */
  const MaxAuthCount: byte := 100

  /** Room for the controller's SRP public key and proof in srp_data (M3). */
  const IosKeySize: nat := 384
  const IosProofSize: nat := 64

  /** sizeof(srp_data), the scratch buffer M5 decrypts in. */
  const SrpDataSize: nat := 1024

  /** The authentication tag at the end of EncryptedData. */
  const TagSize: nat := 16

  /** Parse<3>: the decrypted M5 sub-TLV is scanned for at most three items. */
  const M5MaxTlv: nat := 3

  // ---------------------------------------------------------------------------------------
  // Values.

  /** A stored controller pairing: its identifier, long-term public key and permission. */
  datatype Pairing = Pairing(id: seq<byte>, key: seq<byte>, perm: byte)

  /** The pairing record: srp != NULL, srp_owner and srp_auth_count. */
  datatype Record = Record(live: bool, owner: int, count: byte)

  /** The record is owned by a slot exactly while it exists, and the counter never passes
      one more than the MaxTries threshold. */
  ghost predicate RecordOk(r: Record, slots: nat)
  {
    (if r.live then 0 <= r.owner < slots else r.owner == SidInvalid) && r.count <= MaxAuthCount + 1
  }

  predicate Owns(r: Record, sid: int)
  {
    r.live && r.owner == sid
  }

  /** SRP_free plus srp = NULL and srp_owner = sid_invalid; the counter stays. */
  function Freed(r: Record): Record
  {
    Record(false, SidInvalid, r.count)
  }

  /** The teardown of Close and of the M3/M5 RetErr labels: only the owner's record goes. */
  function CancelOwned(r: Record, sid: int): Record
  {
    if Owns(r, sid) then Freed(r) else r
  }

  /** create.add(t, v) of an enumeration value: one item holding v's minimal bytes, which
      for a byte is the byte itself. */
  function IntItem(t: byte, v: byte): (it: Item)
    ensures it == Item(t, [v])
  {
    Item(t, MinLe(v))
  }

  function StateItem(s: byte): Item
  {
    IntItem(TypeState, s)
  }

  function ErrorItem(e: byte): Item
  {
    IntItem(TypeError, e)
  }

  /** tlvi.get(t, buf, size): the value that begins at the first item of type t, with the
      fragments that follow it, when it fits into cap bytes.  A value of at most 255 bytes
      is exactly the one item. */
  function DataOf(items: seq<Item>, t: byte, cap: nat): Option<seq<byte>>
  {
    match Find(items, t)
    case None => None
    case Some(k) => if |RunData(items, k)| <= cap then Some(RunData(items, k)) else None
  }

  /** What SRP_new, SRP_set_username, SRP_set_params, SRP_set_auth_password and SRP_gen_pub
      (with the public key it yields) return during M1. */
  datatype M1Crypto = M1Crypto(created: bool, username: bool, params: bool, password: bool,
                               pub: Option<seq<byte>>)

  /** What SRP_compute_key, SRP_verify and SRP_respond (with the proof it yields) return
      during M3. */
  datatype M3Crypto = M3Crypto(key: bool, verify: bool, proof: Option<seq<byte>>)

  /** What M5's collaborators produce: the plaintext the AEAD decryption writes, whether
      the computed tag equals the controller's, and whether Pairings::Add accepts. */
  datatype M5Crypto = M5Crypto(plain: seq<byte>, tagMatch: bool, added: bool)

  predicate M1CryptoOk(c: M1Crypto)
  {
    c.created && c.username && c.params && c.password && c.pub.Some?
  }

  /** A handler's effect: the pairing record afterwards and the items of its response. */
  datatype Reply = Reply(rec: Record, rsp: seq<Item>)

  /** M5 also changes the stored pairings. */
  datatype Reply5 = Reply5(rec: Record, pairings: seq<Pairing>, rsp: seq<Item>)

  // ---------------------------------------------------------------------------------------
  // The handlers as decision lists over the record.

  /** PairSetup_M1 */
  function M1Spec(r: Record, paired: nat, sid: nat, req: seq<Item>, c: M1Crypto, salt: seq<byte>): Reply
  {
    var state := [StateItem(StateM2)];
    if ByteOf(req, TypeMethod) != Some(MethodPairSetupNonMfi) then
      Reply(Freed(r), state + [ErrorItem(ErrorUnknown)])
    else if paired != 0 then
      Reply(r, state + [ErrorItem(ErrorUnavailable)])
    else if r.count > MaxAuthCount then
      Reply(r, state + [ErrorItem(ErrorMaxTries)])
    else if r.live && r.owner != sid then
      Reply(r, state + [ErrorItem(ErrorBusy)])
    else if !c.created then
      Reply(Freed(r), state + [ErrorItem(ErrorUnknown)])
    else if !M1CryptoOk(c) then
      Reply(Record(false, SidInvalid, r.count + 1), state + [ErrorItem(ErrorUnknown)])
    else
      Reply(Record(true, sid, r.count + 1), state + Chunks(TypePublicKey, c.pub.value) + Chunks(TypeSalt, salt))
  }

  /** M1 goes through: the right method, no stored pairing, the counter not above the
      threshold, no record of another slot, and every SRP step succeeds. */
  predicate M1Accepts(r: Record, paired: nat, sid: nat, req: seq<Item>, c: M1Crypto)
  {
    ByteOf(req, TypeMethod) == Some(MethodPairSetupNonMfi) && paired == 0 &&
    r.count <= MaxAuthCount && !(r.live && r.owner != sid) && M1CryptoOk(c)
  }

  /** PairSetup_M3 */
  function M3Spec(r: Record, sid: nat, req: seq<Item>, c: M3Crypto): Reply
  {
    var state := [StateItem(StateM4)];
    var fail := Reply(CancelOwned(r, sid), state + [ErrorItem(ErrorUnknown)]);
    if !Owns(r, sid) then fail
    else if DataOf(req, TypePublicKey, IosKeySize).None? || DataOf(req, TypeProof, IosProofSize).None? then fail
    else if !c.key then fail
    else if !c.verify then Reply(r, state + [ErrorItem(ErrorAuthentication)])
    else if c.proof.None? then fail
    else Reply(r, state + Chunks(TypeProof, c.proof.value))
  }

  /** M3 carries the controller's public key and proof, each fitting its room in srp_data. */
  predicate M3Inputs(req: seq<Item>)
  {
    DataOf(req, TypePublicKey, IosKeySize).Some? && DataOf(req, TypeProof, IosProofSize).Some?
  }

  /** PairSetup_M5 */
  function M5Spec(r: Record, ps: seq<Pairing>, sid: nat, req: seq<Item>, c: M5Crypto): Reply5
  {
    var state := [StateItem(StateM4)];
    var fail := Reply5(CancelOwned(r, sid), ps, state + [ErrorItem(ErrorUnknown)]);
    if !Owns(r, sid) || DataOf(req, TypeEncryptedData, SrpDataSize).None? then fail
    else if !c.tagMatch then Reply5(r, ps, state + [ErrorItem(ErrorAuthentication)])
    else
      var inner := ItemsOf(c.plain, M5MaxTlv);
      var id := First(inner, TypeIdentifier);
      var ltpk := First(inner, TypePublicKey);
      if id.None? || ltpk.None? || First(inner, TypeSignature).None? then fail
      else if !c.added then Reply5(r, ps, state + [ErrorItem(ErrorMaxPeers)])
      else Reply5(Freed(r), ps + [Pairing(id.value.v, ltpk.value.v, PermissionAdmin)],
                  state + [ErrorItem(ErrorUnknown)])
  }

  /** The plaintext the AEAD writes is as long as the ciphertext: the EncryptedData length
      less the tag, in uint16_t arithmetic. */
  predicate M5PlainLength(req: seq<Item>, c: M5Crypto)
  {
    var enc := DataOf(req, TypeEncryptedData, SrpDataSize);
    enc.Some? ==> |c.plain| == (|enc.value| - TagSize) % U16
  }

  // ---------------------------------------------------------------------------------------
  // The server.

  class Server {
    /** _sess[sid].isOpen() for every slot. */
    const sess: array<bool>
    /** srp != NULL */
    var srp: bool
    /** srp_owner */
    var srpOwner: int
    /** srp_auth_count */
    var srpAuthCount: byte
    /** _pairings, the stored controller pairings. */
    var pairings: seq<Pairing>

    function Rec(): Record
      reads this
    {
      Record(srp, srpOwner, srpAuthCount)
    }

    ghost predicate Valid()
      reads this
    {
      RecordOk(Rec(), sess.Length)
    }

    /** A server with every slot closed, no pairing record and no stored pairing. */
    constructor (slots: nat)
      ensures Valid() && fresh(sess) && sess.Length == slots && sess[..] == seq(slots, _ => false)
      ensures Rec() == Record(false, SidInvalid, 0) && pairings == []
    {
      sess := new bool[slots](_ => false);
      srp := false;
      srpOwner := SidInvalid;
      srpAuthCount := 0;
      pairings := [];
    }

    /** Open(): opens and returns the closed slot of lowest index, or sid_invalid when
        every slot is open. */
    method Open() returns (sid: int)
      modifies sess
      ensures sid == SidInvalid <==> forall j :: 0 <= j < sess.Length ==> old(sess[j])
      ensures sid != SidInvalid ==>
        0 <= sid < sess.Length && !old(sess[sid]) && (forall j :: 0 <= j < sid ==> old(sess[j])) &&
        sess[..] == old(sess[..])[sid := true]
      ensures sid == SidInvalid ==> sess[..] == old(sess[..])
    {
      var i := 0;
      while i < sess.Length
        invariant 0 <= i <= sess.Length && sess[..] == old(sess[..])
        invariant forall j :: 0 <= j < i ==> sess[j]
      {
        if !sess[i] {
          sess[i] := true;
          return i;
        }
        i := i + 1;
      }
      return SidInvalid;
    }

    /** Close(sid): false, changing nothing, for a slot past the last or one that is not
        open; otherwise closes it and frees the pairing record if this slot owns it. */
    method Close(sid: nat) returns (ok: bool)
      requires Valid()
      modifies sess, this`srp, this`srpOwner
      ensures Valid()
      ensures ok <==> sid < sess.Length && old(sess[sid])
      ensures ok ==> sess[..] == old(sess[..])[sid := false] && Rec() == CancelOwned(old(Rec()), sid)
      ensures !ok ==> sess[..] == old(sess[..]) && Rec() == old(Rec())
    {
      if sid >= sess.Length {
        return false;
      }
      if !sess[sid] {
        return false;
      }
      sess[sid] := false;
      if srp && srpOwner == sid {
        srp := false;
        srpOwner := SidInvalid;
      }
      return true;
    }

    /** PairSetup_M1 for slot sid, with the request items req, the SRP outcomes c and the
        16 random salt bytes. */
    method PairSetupM1(sid: nat, req: seq<Item>, c: M1Crypto, salt: seq<byte>) returns (rsp: seq<Item>)
      requires Valid() && sid < sess.Length && |salt| == 16
      modifies this`srp, this`srpOwner, this`srpAuthCount
      ensures Valid()
      ensures Reply(Rec(), rsp) == M1Spec(old(Rec()), |pairings|, sid, req, c, salt)
    {
      rsp := [StateItem(StateM2)];
      label Ret: {
        label RetErr: {
          var m := ByteOf(req, TypeMethod);
          if m.None? {
            break RetErr;
          }
          if m.value != MethodPairSetupNonMfi {
            break RetErr;
          }
          if |pairings| != 0 {
            rsp := rsp + [ErrorItem(ErrorUnavailable)];
            break Ret;
          }
          if srpAuthCount > MaxAuthCount {
            rsp := rsp + [ErrorItem(ErrorMaxTries)];
            break Ret;
          }
          if srp && srpOwner != sid {
            rsp := rsp + [ErrorItem(ErrorBusy)];
            break Ret;
          }
          srp := c.created;
          if !srp {
            break RetErr;
          }
          srpOwner := sid;
          srpAuthCount := srpAuthCount + 1;
          if !c.username || !c.params || !c.password || c.pub.None? {
            break RetErr;
          }
          rsp := rsp + Chunks(TypePublicKey, c.pub.value) + Chunks(TypeSalt, salt);
          break Ret;
        }
        // RetErr: the record is freed whoever owns it
        srp := false;
        srpOwner := SidInvalid;
        rsp := rsp + [ErrorItem(ErrorUnknown)];
      }
    }

    /** PairSetup_M3 for slot sid, with the request items req and the SRP outcomes c. */
    method PairSetupM3(sid: nat, req: seq<Item>, c: M3Crypto) returns (rsp: seq<Item>)
      requires Valid()
      modifies this`srp, this`srpOwner
      ensures Valid()
      ensures Reply(Rec(), rsp) == M3Spec(old(Rec()), sid, req, c)
    {
      rsp := [StateItem(StateM4)];
      label Ret: {
        label RetErr: {
          if !srp || srpOwner != sid {
            break RetErr;
          }
          var key := DataOf(req, TypePublicKey, IosKeySize);
          if key.None? {
            break RetErr;
          }
          var proof := DataOf(req, TypeProof, IosProofSize);
          if proof.None? {
            break RetErr;
          }
          if !c.key {
            break RetErr;
          }
          if !c.verify {
            rsp := rsp + [ErrorItem(ErrorAuthentication)];
            break Ret;
          }
          if c.proof.None? {
            break RetErr;
          }
          rsp := rsp + Chunks(TypeProof, c.proof.value);
          break Ret;
        }
        // RetErr: the record is freed only by its owner
        if srp && srpOwner == sid {
          srp := false;
          srpOwner := SidInvalid;
        }
        rsp := rsp + [ErrorItem(ErrorUnknown)];
      }
    }

    /** PairSetup_M5 for slot sid, with the request items req and the outcomes c of the
        decryption and of Pairings::Add. */
    method PairSetupM5(sid: nat, req: seq<Item>, c: M5Crypto) returns (rsp: seq<Item>)
      requires Valid() && M5PlainLength(req, c)
      modifies this`srp, this`srpOwner, this`pairings
      ensures Valid()
      ensures Reply5(Rec(), pairings, rsp) == M5Spec(old(Rec()), old(pairings), sid, req, c)
    {
      rsp := [StateItem(StateM4)];
      label Ret: {
        label RetErr: {
          if !srp || srpOwner != sid {
            break RetErr;
          }
          var enc := DataOf(req, TypeEncryptedData, SrpDataSize);
          if enc.None? {
            break RetErr;
          }
          if !c.tagMatch {
            rsp := rsp + [ErrorItem(ErrorAuthentication)];
            break Ret;
          }
          var tlv := new Parse(M5MaxTlv);
          var n := tlv.Parse(c.plain);
          var id := First(tlv.Items(), TypeIdentifier);
          if id.None? {
            break RetErr;
          }
          var ltpk := First(tlv.Items(), TypePublicKey);
          if ltpk.None? {
            break RetErr;
          }
          var sign := First(tlv.Items(), TypeSignature);
          if sign.None? {
            break RetErr;
          }
          if !c.added {
            rsp := rsp + [ErrorItem(ErrorMaxPeers)];
            break Ret;
          }
          pairings := pairings + [Pairing(id.value.v, ltpk.value.v, PermissionAdmin)];
          // no jump to Ret here: control falls into RetErr
        }
        // RetErr: the record is freed only by its owner
        if srp && srpOwner == sid {
          srp := false;
          srpOwner := SidInvalid;
        }
        rsp := rsp + [ErrorItem(ErrorUnknown)];
      }
    }
  }

  // ---------------------------------------------------------------------------------------
  // What the handlers promise.

  /** The four checks of M1 run in a fixed order, and the three refusals after the method
      check leave the record alone.  A missing or wrong Method jumps to RetErr before the
      Busy check, so it frees the record whoever owns it. */
  lemma M1CheckOrder(r: Record, paired: nat, sid: nat, req: seq<Item>, c: M1Crypto, salt: seq<byte>)
    ensures var out := M1Spec(r, paired, sid, req, c, salt);
      out.rsp[0] == StateItem(StateM2) &&
      (ByteOf(req, TypeMethod) != Some(MethodPairSetupNonMfi) ==>
        out == Reply(Freed(r), [StateItem(StateM2), ErrorItem(ErrorUnknown)])) &&
      (ByteOf(req, TypeMethod) == Some(MethodPairSetupNonMfi) && paired != 0 ==>
        out == Reply(r, [StateItem(StateM2), ErrorItem(ErrorUnavailable)])) &&
      (ByteOf(req, TypeMethod) == Some(MethodPairSetupNonMfi) && paired == 0 && r.count > MaxAuthCount ==>
        out == Reply(r, [StateItem(StateM2), ErrorItem(ErrorMaxTries)])) &&
      (ByteOf(req, TypeMethod) == Some(MethodPairSetupNonMfi) && paired == 0 && r.count <= MaxAuthCount &&
       r.live && r.owner != sid ==>
        out == Reply(r, [StateItem(StateM2), ErrorItem(ErrorBusy)]))
  {
  }

  /** A record owned by slot a is destroyed by an M1 without the right Method from any
      other slot b. */
  lemma M1DestroysForeignRecord(a: nat, b: nat, count: byte, paired: nat, req: seq<Item>, c: M1Crypto, salt: seq<byte>)
    requires a != b && ByteOf(req, TypeMethod) != Some(MethodPairSetupNonMfi)
    ensures !M1Spec(Record(true, a, count), paired, b, req, c, salt).rec.live
  {
  }

  /** The counter moves only by one, and only from at most the threshold, so it never
      passes 101 and the uint8_t never wraps. */
  lemma M1CountStep(r: Record, paired: nat, sid: nat, req: seq<Item>, c: M1Crypto, salt: seq<byte>)
    ensures var n := M1Spec(r, paired, sid, req, c, salt).rec.count;
      n == r.count || (r.count <= MaxAuthCount && n == r.count + 1)
    ensures r.count <= MaxAuthCount + 1 ==> M1Spec(r, paired, sid, req, c, salt).rec.count <= MaxAuthCount + 1
  {
  }

  /** No item of type t among the chunks of another type. */
  lemma ChunksOfType(t: byte, d: seq<byte>, u: byte)
    requires u != t
    ensures forall i :: 0 <= i < |Chunks(t, d)| ==> Chunks(t, d)[i].t != u
  {
    ChunksShape(t, d);
  }

  /** Find on a list whose first k items lack type t and whose item k has it. */
  lemma FindAt(items: seq<Item>, t: byte, k: nat)
    requires k < |items| && items[k].t == t && forall i :: 0 <= i < k ==> items[i].t != t
    ensures Find(items, t) == Some(k)
  {
    FindSpec(items, t);
  }

  /** The M1 response carries no Error item exactly when M1 goes through.  Then the record
      belongs to the caller, the counter went up by one, the State is M2, the PublicKey
      items reassemble the public key and the Salt item holds the salt. */
  lemma {:induction false} M1Success(r: Record, paired: nat, sid: nat, req: seq<Item>, c: M1Crypto, salt: seq<byte>)
    requires |salt| == 16
    ensures var out := M1Spec(r, paired, sid, req, c, salt);
      Find(out.rsp, TypeError).None? <==> M1Accepts(r, paired, sid, req, c)
    ensures var out := M1Spec(r, paired, sid, req, c, salt);
      M1Accepts(r, paired, sid, req, c) ==>
        out.rec == Record(true, sid, r.count + 1) && out.rsp[0] == StateItem(StateM2) &&
        (c.pub.value != [] ==> RunData(out.rsp, 1) == c.pub.value) &&
        First(out.rsp, TypeSalt) == Some(Item(TypeSalt, salt))
  {
    var out := M1Spec(r, paired, sid, req, c, salt);
    if M1Accepts(r, paired, sid, req, c) {
      var pub := c.pub.value;
      var head := [StateItem(StateM2)];
      var pk := Chunks(TypePublicKey, pub);
      var tail := [Item(TypeSalt, salt)];
      assert Chunks(TypeSalt, salt) == tail;
      assert out.rsp == head + pk + tail;
      ChunksOfType(TypePublicKey, pub, TypeError);
      ChunksOfType(TypePublicKey, pub, TypeSalt);
      assert forall i :: 0 <= i < |out.rsp| ==> out.rsp[i].t != TypeError by {
        forall i | 0 <= i < |out.rsp| ensures out.rsp[i].t != TypeError {
          if 0 < i < 1 + |pk| {
            assert out.rsp[i] == pk[i - 1];
          }
        }
      }
      FindSpec(out.rsp, TypeError);
      forall i | 0 <= i < 1 + |pk| ensures out.rsp[i].t != TypeSalt {
        if 0 < i {
          assert out.rsp[i] == pk[i - 1];
        }
      }
      FindAt(out.rsp, TypeSalt, 1 + |pk|);
      if pub != [] {
        ChunksReassemble(head, TypePublicKey, pub, tail);
      }
    } else {
      assert out.rsp[1].t == TypeError;
      FindAt(out.rsp, TypeError, 1);
    }
  }

  /** Two slots compete: while a's key exchange is in progress b is told Busy, and once a
      closes its slot b's next M1 goes through. */
  lemma BusyUntilClosed(r: Record, a: nat, b: nat, req: seq<Item>, c: M1Crypto, salt: seq<byte>)
    requires !r.live && r.count < MaxAuthCount && a != b && |salt| == 16
    requires ByteOf(req, TypeMethod) == Some(MethodPairSetupNonMfi) && M1CryptoOk(c)
    ensures var first := M1Spec(r, 0, a, req, c, salt);
      var second := M1Spec(first.rec, 0, b, req, c, salt);
      var third := M1Spec(CancelOwned(second.rec, a), 0, b, req, c, salt);
      first.rec == Record(true, a, r.count + 1) &&
      second == Reply(first.rec, [StateItem(StateM2), ErrorItem(ErrorBusy)]) &&
      third.rec == Record(true, b, r.count + 2) && Find(third.rsp, TypeError).None?
  {
    var first := M1Spec(r, 0, a, req, c, salt);
    var closed := CancelOwned(M1Spec(first.rec, 0, b, req, c, salt).rec, a);
    assert closed == Record(false, SidInvalid, r.count + 1);
    M1Success(closed, 0, b, req, c, salt);
  }

  /** M3 always answers State M4.  Without a record of its own it answers Unknown and
      leaves the record alone; a failed proof check answers Authentication and keeps the
      record; a missing input or a failed key computation or response tears the record
      down; otherwise the server's proof is sent and nothing changes. */
  lemma M3Outcomes(r: Record, sid: nat, req: seq<Item>, c: M3Crypto)
    ensures var out := M3Spec(r, sid, req, c);
      out.rsp[0] == StateItem(StateM4) &&
      (!Owns(r, sid) ==> out == Reply(r, [StateItem(StateM4), ErrorItem(ErrorUnknown)])) &&
      (Owns(r, sid) && M3Inputs(req) && c.key && !c.verify ==>
        out == Reply(r, [StateItem(StateM4), ErrorItem(ErrorAuthentication)])) &&
      (Owns(r, sid) && (!M3Inputs(req) || !c.key || (c.verify && c.proof.None?)) ==>
        out == Reply(Freed(r), [StateItem(StateM4), ErrorItem(ErrorUnknown)])) &&
      (Owns(r, sid) && M3Inputs(req) && c.key && c.verify && c.proof.Some? ==>
        out == Reply(r, [StateItem(StateM4)] + Chunks(TypeProof, c.proof.value)))
  {
  }

  /** An M3 response carries no Error item exactly when the proofs were exchanged. */
  lemma M3ErrorFree(r: Record, sid: nat, req: seq<Item>, c: M3Crypto)
    ensures Find(M3Spec(r, sid, req, c).rsp, TypeError).None? <==>
      Owns(r, sid) && M3Inputs(req) && c.key && c.verify && c.proof.Some?
  {
    var out := M3Spec(r, sid, req, c);
    if Owns(r, sid) && M3Inputs(req) && c.key && c.verify && c.proof.Some? {
      var pf := Chunks(TypeProof, c.proof.value);
      ChunksOfType(TypeProof, c.proof.value, TypeError);
      forall i | 0 <= i < |out.rsp| ensures out.rsp[i].t != TypeError {
        if 0 < i {
          assert out.rsp[i] == pf[i - 1];
        }
      }
      FindSpec(out.rsp, TypeError);
    } else {
      FindAt(out.rsp, TypeError, 1);
    }
  }

  /** A failed proof check may be retried: the record survives it, and a second M3 from the
      same slot whose proof checks out gets the server's proof. */
  lemma M3Retry(r: Record, sid: nat, req: seq<Item>, bad: M3Crypto, good: M3Crypto)
    requires Owns(r, sid) && M3Inputs(req) && bad.key && !bad.verify
    requires good.key && good.verify && good.proof.Some?
    ensures M3Spec(r, sid, req, bad).rec == r
    ensures M3Spec(M3Spec(r, sid, req, bad).rec, sid, req, good) ==
      Reply(r, [StateItem(StateM4)] + Chunks(TypeProof, good.proof.value))
  {
  }

  /** M5 answers State M4, never M6, and every answer carries an Error item: a mismatched
      tag answers Authentication and a full pairing list MaxPeers, both keeping the record;
      a missing record or item answers Unknown and frees the caller's record; and a stored
      pairing falls through to RetErr, answering Unknown and freeing the record. */
  lemma M5Outcomes(r: Record, ps: seq<Pairing>, sid: nat, req: seq<Item>, c: M5Crypto)
    ensures var out := M5Spec(r, ps, sid, req, c);
      |out.rsp| == 2 && out.rsp[0] == StateItem(StateM4) && out.rsp[1].t == TypeError &&
      (out.rsp[1] == ErrorItem(ErrorAuthentication) || out.rsp[1] == ErrorItem(ErrorMaxPeers) ==> out.rec == r) &&
      (out.rsp[1] == ErrorItem(ErrorUnknown) ==> out.rec == CancelOwned(r, sid)) &&
      (|out.pairings| != |ps| ==> out.rec == Freed(r) && out.rsp[1] == ErrorItem(ErrorUnknown))
  {
  }

  /** M5 stores a pairing exactly when it owns the record, the EncryptedData fits, the tag
      matches, the plaintext holds an Identifier, a PublicKey and a Signature, and
      Pairings::Add accepts; the pairing holds the identifier and long-term key with Admin
      permission. */
  lemma M5Stores(r: Record, ps: seq<Pairing>, sid: nat, req: seq<Item>, c: M5Crypto)
    ensures var out := M5Spec(r, ps, sid, req, c);
      var inner := ItemsOf(c.plain, M5MaxTlv);
      (out.pairings != ps <==>
        Owns(r, sid) && DataOf(req, TypeEncryptedData, SrpDataSize).Some? && c.tagMatch &&
        First(inner, TypeIdentifier).Some? && First(inner, TypePublicKey).Some? &&
        First(inner, TypeSignature).Some? && c.added) &&
      (out.pairings != ps ==>
        out.pairings == ps + [Pairing(First(inner, TypeIdentifier).value.v, First(inner, TypePublicKey).value.v, PermissionAdmin)])
  {
    var out := M5Spec(r, ps, sid, req, c);
    if out.pairings != ps {
      assert |out.pairings| == |ps| + 1;
    }
  }

  /** Pair-setup is single use: once M5 has stored a pairing, no later M1, from any slot,
      goes through.  With the right method it is answered Unavailable and leaves the record
      alone; with any other method it is answered Unknown and frees the record. */
  lemma SetupIsOneTime(r: Record, ps: seq<Pairing>, sid: nat, req: seq<Item>, c: M5Crypto,
                       sid2: nat, req2: seq<Item>, c2: M1Crypto, salt: seq<byte>)
    requires M5Spec(r, ps, sid, req, c).pairings != ps
    ensures var done := M5Spec(r, ps, sid, req, c);
      !M1Accepts(done.rec, |done.pairings|, sid2, req2, c2)
    ensures var done := M5Spec(r, ps, sid, req, c);
      ByteOf(req2, TypeMethod) == Some(MethodPairSetupNonMfi) ==>
        M1Spec(done.rec, |done.pairings|, sid2, req2, c2, salt) ==
          Reply(done.rec, [StateItem(StateM2), ErrorItem(ErrorUnavailable)])
    ensures var done := M5Spec(r, ps, sid, req, c);
      ByteOf(req2, TypeMethod) != Some(MethodPairSetupNonMfi) ==>
        M1Spec(done.rec, |done.pairings|, sid2, req2, c2, salt) ==
          Reply(Freed(done.rec), [StateItem(StateM2), ErrorItem(ErrorUnknown)])
  {
  }

  /** Where M5 lays out srp_data for an EncryptedData of n bytes: the ciphertext at 0, the
      controller's tag after it, the plaintext at n and the computed tag after that.  The
      ciphertext length is n - 16 in uint16_t arithmetic. */
  datatype Layout = Layout(cipherLen: nat, iosTag: nat, plain: nat, srvTag: nat)

  function M5Layout(n: nat): (l: Layout)
    ensures l.cipherLen < U16
  {
    var len := (n - TagSize) % U16;
    Layout(len, len, n, n + len)
  }

  /** Every region lies inside srp_data. */
  predicate InSrpData(l: Layout)
  {
    l.iosTag + TagSize <= SrpDataSize && l.plain + l.cipherLen <= SrpDataSize && l.srvTag + TagSize <= SrpDataSize
  }

  /** The in-place split stays inside srp_data exactly for 16 <= n <= 512; the source
      checks neither bound, and get has only limited n to 1024. */
  lemma M5LayoutBounds(n: nat)
    requires n <= SrpDataSize
    ensures InSrpData(M5Layout(n)) <==> TagSize <= n <= SrpDataSize / 2
    ensures TagSize <= n ==> M5Layout(n) == Layout(n - TagSize, n - TagSize, n, 2 * n - TagSize)
  {
    if n < TagSize {
      assert (n - TagSize) % U16 == U16 + n - TagSize;
    } else {
      assert (n - TagSize) % U16 == n - TagSize;
    }
  }

  // ---------------------------------------------------------------------------------------
  // Routing of a request in Server::Process.

  /** What the HTTP collaborator delivers: the method (verb), path, whether Content-Type is
      application/pairing+tlv8, the Content-Length if present, and the body. */
  datatype Request = Request(verb: string, path: string, tlv8: bool, contentLength: Option<int>, body: seq<byte>)

  /** What Process does with a request: a 400 with an empty body, the 400 refusing an
      unpaired identify, a PairSetup handler for a State value with the parsed items, or
      nothing at all (the response buffer is sent as it stands). */
  datatype Action = BadRequest | IdentifyRefused | PairSetup(state: byte, items: seq<Item>) | Untouched

  function Route(r: Request, maxTlv: nat): Action
  {
    if r.verb != "POST" then Untouched
    else if r.path == "/identify" then IdentifyRefused
    else if r.path == "/pair-setup" then
      if !r.tlv8 || r.contentLength.None? then BadRequest
      else
        var items := ItemsOf(r.body, maxTlv);
        match ByteOf(items, TypeState)
        case None => Untouched
        case Some(s) => if s == StateM1 || s == StateM3 || s == StateM5 then PairSetup(s, items) else Untouched
    else if r.path == "/pair-verify" || r.path == "/pairings" then Untouched
    else BadRequest
  }

  /** A handler runs exactly for a POST to /pair-setup with both headers whose body holds a
      State item of value M1, M3 or M5, and it gets the items parsed from the body.  A POST
      to /identify is always refused (the unpaired branch is disabled), a POST to an unknown
      path or a /pair-setup without the headers gets a 400, and GET and PUT are not
      answered. */
  lemma RouteSpec(r: Request, maxTlv: nat)
    ensures var a := Route(r, maxTlv);
      var st := ByteOf(ItemsOf(r.body, maxTlv), TypeState);
      (a.PairSetup? <==>
        r.verb == "POST" && r.path == "/pair-setup" && r.tlv8 && r.contentLength.Some? &&
        st.Some? && st.value in {StateM1, StateM3, StateM5}) &&
      (a.PairSetup? ==> a.state == st.value && a.items == ItemsOf(r.body, maxTlv)) &&
      (a == IdentifyRefused <==> r.verb == "POST" && r.path == "/identify") &&
      (a == BadRequest <==>
        r.verb == "POST" &&
        ((r.path == "/pair-setup" && (!r.tlv8 || r.contentLength.None?)) ||
         r.path !in {"/identify", "/pair-setup", "/pair-verify", "/pairings"}))
  {
  }

  lemma LeValueByte(b: byte)
    ensures LeValue([b]) == b
  {
    assert [b][1..] == [];
  }

  /** A controller's request that is the TLV image of its items, with a State item of
      value M1 in front, is routed to M1 with exactly those items. */
  lemma RouteEncodedM1(r: Request, maxTlv: nat, rest: seq<Item>)
    requires r.verb == "POST" && r.path == "/pair-setup" && r.tlv8 && r.contentLength.Some?
    requires AllShort(rest) && 1 + |rest| <= maxTlv
    requires r.body == Encode([StateItem(StateM1)] + rest)
    ensures Route(r, maxTlv) == PairSetup(StateM1, [StateItem(StateM1)] + rest)
  {
    var items := [StateItem(StateM1)] + rest;
    EncodeCons(StateItem(StateM1), rest);
    assert r.body[0..] == r.body == Encode(items) + [];
    ParseEncoded(r.body, 0, items, [], maxTlv);
    assert ItemsOf(r.body, maxTlv) == items;
    StateOfFront(StateM1, rest);
    RouteToSetup(r, maxTlv, StateM1);
  }

  /** The State of a list with a State item in front. */
  lemma StateOfFront(s: byte, rest: seq<Item>)
    ensures ByteOf([StateItem(s)] + rest, TypeState) == Some(s)
  {
    var items := [StateItem(s)] + rest;
    FindAt(items, TypeState, 0);
    assert First(items, TypeState) == Some(Item(TypeState, [s]));
    LeValueByte(s);
  }

  lemma RouteToSetup(r: Request, maxTlv: nat, s: byte)
    requires r.verb == "POST" && r.path == "/pair-setup" && r.tlv8 && r.contentLength.Some?
    requires ByteOf(ItemsOf(r.body, maxTlv), TypeState) == Some(s) && s in {StateM1, StateM3, StateM5}
    ensures Route(r, maxTlv) == PairSetup(s, ItemsOf(r.body, maxTlv))
  {
  }
}
