// The query string of GET /characteristics (Db::Read in HapDb/HapDb.h): the parameter
// parser that finds the id list and the meta/perms/type/ev flags, and the decoder that
// turns the id list "aid.iid,aid.iid,..." into (aid, iid) pairs.

module DbQuery {
  import opened Common
  import opened DbStatus

  predicate IsDigit(c: char) { '0' <= c <= '9' }

  /** The characters the id scanner steps over. */
  predicate IsIdChar(c: char) { IsDigit(c) || c == '.' || c == ',' }

  /** The characters that end a query parameter. */
  predicate IsSep(c: char) { c == '&' || c == ';' || c == '#' }

  /** strncmp(r, key, |key|) == 0 with r at position i.  A key that would run past the end
      of the query never leads anywhere but 400 (the length left drops to zero or below),
      so only keys that fit are considered. */
  predicate HasKey(q: string, i: nat, key: string)
  {
    i + |key| <= |q| && q[i..i + |key|] == key
  }

  datatype Key = IdKey | MetaKey | PermsKey | TypeKey | EvKey

  function KeyName(k: Key): string
  {
    match k
    case IdKey => "id="
    case MetaKey => "meta="
    case PermsKey => "perms="
    case TypeKey => "type="
    case EvKey => "ev="
  }

  /** The key at position i, tried in the order of the if-chain. */
  function KeyAt(q: string, i: nat): (r: Option<Key>)
    ensures r.Some? ==> HasKey(q, i, KeyName(r.value))
    ensures r.None? ==> forall k: Key :: !HasKey(q, i, KeyName(k))
  {
    if HasKey(q, i, "id=") then Some(IdKey)
    else if HasKey(q, i, "meta=") then Some(MetaKey)
    else if HasKey(q, i, "perms=") then Some(PermsKey)
    else if HasKey(q, i, "type=") then Some(TypeKey)
    else if HasKey(q, i, "ev=") then Some(EvKey)
    else None
  }

  /** The keys start with different letters, so at most one of them is at any position and
      the order of the chain does not matter. */
  lemma KeyUnique(q: string, i: nat, k: Key)
    requires HasKey(q, i, KeyName(k))
    ensures KeyAt(q, i) == Some(k)
  {
    assert q[i] == q[i..i + |KeyName(k)|][0] == KeyName(k)[0];
    forall other: Key | HasKey(q, i, KeyName(other))
      ensures other == k
    {
      assert q[i] == q[i..i + |KeyName(other)|][0] == KeyName(other)[0];
    }
  }

  /** The flags of rd_prm. */
  datatype ReadFlags = ReadFlags(meta: bool, perms: bool, types: bool, ev: bool)

  /** What the parameter loop leaves behind: the id list as a span (id, id_length) of the
      query, and the flags. */
  datatype Query = Query(idStart: nat, idLen: nat, flags: ReadFlags)

  const NoFlags := ReadFlags(false, false, false, false)
  const NoQuery := Query(0, 0, NoFlags)

  /** A flag value '1' turns the flag on; '0' leaves it as it was. */
  function SetFlag(f: ReadFlags, k: Key, on: bool): ReadFlags
  {
    if !on then f
    else match k
      case MetaKey => f.(meta := true)
      case PermsKey => f.(perms := true)
      case TypeKey => f.(types := true)
      case EvKey => f.(ev := true)
      case IdKey => f
  }

  /** Where the id scanner stops: the first character from j on that is not a digit, '.' or ','. */
  function IdEnd(q: string, j: nat): (k: nat)
    requires j <= |q|
    ensures j <= k <= |q|
    ensures forall m :: j <= m < k ==> IsIdChar(q[m])
    ensures k == |q| || !IsIdChar(q[k])
    decreases |q| - j
  {
    if j == |q| || !IsIdChar(q[j]) then j else IdEnd(q, j + 1)
  }

  lemma {:induction false} IdEndAt(q: string, j: nat, k: nat)
    requires j <= k <= |q|
    requires forall m :: j <= m < k ==> IsIdChar(q[m])
    requires k == |q| || !IsIdChar(q[k])
    ensures IdEnd(q, j) == k
    decreases k - j
  {
    if j < k {
      IdEndAt(q, j + 1, k);
    }
  }

  /** One parameter at position i: the position after it and its separator, and the state
      it leaves; None stands for 400 Bad Request.  With sumIds an id parameter adds its
      length to id_length, as the code does; without it each id parameter replaces the span
      of the previous one. */
  function ParamStep(q: string, i: nat, st: Query, sumIds: bool): (r: Option<(nat, Query)>)
    requires i < |q|
    ensures r.Some? ==> i < r.value.0
  {
    var key := KeyAt(q, i);
    if key.None? then None
    else
      var j := i + |KeyName(key.value)|;
      if j >= |q| then None
      else if key.value == IdKey then
        var k := IdEnd(q, j);
        if k < |q| && !IsSep(q[k]) then None
        else Some((k + 1, st.(idStart := j, idLen := (if sumIds then st.idLen else 0) + (k - j))))
      else if q[j] != '0' && q[j] != '1' then None
      else if j + 1 < |q| && !IsSep(q[j + 1]) then None
      else Some((j + 2, st.(flags := SetFlag(st.flags, key.value, q[j] == '1'))))
  }

  /** The parameter loop from position i. */
  function QueryFrom(q: string, i: nat, st: Query, sumIds: bool): Option<Query>
    decreases |q| - i
  {
    if i >= |q| then Some(st)
    else
      var r := ParamStep(q, i, st, sumIds);
      if r.None? then None else QueryFrom(q, r.value.0, r.value.1, sumIds)
  }

  lemma QueryFromStep(q: string, i: nat, st: Query, sumIds: bool, next: nat, st': Query)
    requires i < |q| && ParamStep(q, i, st, sumIds) == Some((next, st'))
    ensures QueryFrom(q, i, st, sumIds) == QueryFrom(q, next, st', sumIds)
  {
  }

  /** The parameters of a query, each id parameter replacing the previous id list. */
  function ParseQuerySpec(q: string): (r: Option<Query>)
    ensures r.Some? ==> r.value.idStart + r.value.idLen <= |q|
  {
    var r := QueryFrom(q, 0, NoQuery, false);
    if r.Some? then QuerySpanInside(q, 0, NoQuery); r else r
  }

  /** The parameters as the code collects them: id_length is never reset. */
  function QueryAsWritten(q: string): Option<Query>
  {
    QueryFrom(q, 0, NoQuery, true)
  }

  /** One turn of the parameter loop of Db::Read (with id_length restarting at each id
      parameter). */
  method ParseParam(q: string, i: nat, st: Query) returns (r: Option<(nat, Query)>)
    requires i < |q|
    ensures r == ParamStep(q, i, st, false)
  {
    var key := KeyAt(q, i);
    if key.None? {
      return None;
    }
    var j := i + |KeyName(key.value)|;
    if j >= |q| {
      return None;
    }
    if key.value == IdKey {
      var start := j;
      var loop := true;
      while loop
        invariant start <= j <= |q|
        invariant loop ==> j < |q|
        invariant forall m :: start <= m < j ==> IsIdChar(q[m])
        invariant !loop ==> j == |q| || IsSep(q[j])
        decreases |q| - j, loop
      {
        var c := q[j];
        if IsIdChar(c) {
          j := j + 1;
          if j >= |q| {
            loop := false;
          }
        } else if IsSep(c) {
          loop := false;
        } else {
          IdEndAt(q, start, j);
          return None;
        }
      }
      IdEndAt(q, start, j);
      return Some((j + 1, st.(idStart := start, idLen := j - start)));
    }
    var st' := st;
    if q[j] == '1' {
      st' := st.(flags := SetFlag(st.flags, key.value, true));
    } else if q[j] != '0' {
      return None;
    }
    if j + 1 < |q| && !IsSep(q[j + 1]) {
      return None;
    }
    return Some((j + 2, st'));
  }

  /** The parameter loop of Db::Read. */
  method ParseQuery(q: string) returns (r: Option<Query>)
    ensures r == ParseQuerySpec(q)
  {
    var i := 0;
    var st := NoQuery;
    while i < |q|
      invariant QueryFrom(q, i, st, false) == ParseQuerySpec(q)
      decreases |q| - i
    {
      var step := ParseParam(q, i, st);
      if step.None? {
        return None;
      }
      i, st := step.value.0, step.value.1;
    }
    return Some(st);
  }

  /** The id list a query names. */
  function IdText(q: string, st: Query): string
    requires st.idStart + st.idLen <= |q|
  {
    q[st.idStart..st.idStart + st.idLen]
  }

  /** The span of the ids inside the query and over id characters only. */
  ghost predicate SpanOk(q: string, st: Query)
  {
    st.idStart + st.idLen <= |q| && forall m :: st.idStart <= m < st.idStart + st.idLen ==> IsIdChar(q[m])
  }

  /** With each id parameter replacing the last, the span id, id_length stays inside the
      query and covers only digits, '.' and ','. */
  lemma {:induction false} QuerySpanInside(q: string, i: nat, st: Query)
    requires SpanOk(q, st)
    requires QueryFrom(q, i, st, false).Some?
    ensures SpanOk(q, QueryFrom(q, i, st, false).value)
    decreases |q| - i
  {
    if i < |q| {
      var r := ParamStep(q, i, st, false).value;
      assert SpanOk(q, r.1);
      QuerySpanInside(q, r.0, r.1);
    }
  }

  /** Two id parameters, "id=1.1&id=2.2": as written the second one's span starts at offset
      10 but id_length has grown to 6, so the decoder reads three characters past the end of
      the 13-character query. */
  lemma IdLengthAccumulates()
    ensures QueryAsWritten("id=1.1&id=2.2") == Some(Query(10, 6, NoFlags))
    ensures 10 + 6 > |"id=1.1&id=2.2"|
  {
    var q := "id=1.1&id=2.2";
    assert HasKey(q, 0, "id=") && HasKey(q, 7, "id=");
    IdEndAt(q, 3, 6);
    IdEndAt(q, 10, 13);
    assert ParamStep(q, 0, NoQuery, true) == Some((7, Query(3, 3, NoFlags)));
    QueryFromStep(q, 0, NoQuery, true, 7, Query(3, 3, NoFlags));
    assert ParamStep(q, 7, Query(3, 3, NoFlags), true) == Some((14, Query(10, 6, NoFlags)));
    QueryFromStep(q, 7, Query(3, 3, NoFlags), true, 14, Query(10, 6, NoFlags));
  }

  /** With the length reset, the same query selects the last list, "2.2". */
  lemma IdLengthReplaced()
    ensures ParseQuerySpec("id=1.1&id=2.2") == Some(Query(10, 3, NoFlags))
    ensures IdText("id=1.1&id=2.2", Query(10, 3, NoFlags)) == "2.2"
  {
    var q := "id=1.1&id=2.2";
    assert HasKey(q, 0, "id=") && HasKey(q, 7, "id=");
    IdEndAt(q, 3, 6);
    IdEndAt(q, 10, 13);
    assert ParamStep(q, 0, NoQuery, false) == Some((7, Query(3, 3, NoFlags)));
    QueryFromStep(q, 0, NoQuery, false, 7, Query(3, 3, NoFlags));
    assert ParamStep(q, 7, Query(3, 3, NoFlags), false) == Some((14, Query(10, 3, NoFlags)));
    QueryFromStep(q, 7, Query(3, 3, NoFlags), false, 14, Query(10, 3, NoFlags));
  }

  // ------------------------------------------------------------------
  // Well-formed queries

  /** A parameter as a client writes it. */
  datatype Param = IdParam(ids: string) | FlagParam(key: Key, on: bool)

  ghost predicate ParamOk(p: Param)
  {
    match p
    case IdParam(ids) => forall m :: 0 <= m < |ids| ==> IsIdChar(ids[m])
    case FlagParam(key, _) => key != IdKey
  }

  function Render(p: Param): string
  {
    match p
    case IdParam(ids) => "id=" + ids
    case FlagParam(key, on) => KeyName(key) + (if on then "1" else "0")
  }

  /** Parameters, each followed by its separator; the last one may end the query without
      one. */
  function Line(ps: seq<Param>, seps: string): string
    requires |seps| == |ps| || |seps| + 1 == |ps|
    decreases ps
  {
    if |ps| == 0 then []
    else if |seps| == 0 then Render(ps[0])
    else Render(ps[0]) + [seps[0]] + Line(ps[1..], seps[1..])
  }

  /** A query as a client writes it: well-formed parameters, separators from '&', ';' and
      '#', and a last parameter without separator that is not a bare "id=". */
  ghost predicate LineOk(ps: seq<Param>, seps: string)
  {
    (|seps| == |ps| || |seps| + 1 == |ps|) &&
    (forall k :: 0 <= k < |ps| ==> ParamOk(ps[k])) &&
    (forall k :: 0 <= k < |seps| ==> IsSep(seps[k])) &&
    (|seps| < |ps| ==> ps[|ps| - 1] != IdParam([]))
  }

  /** The flags the parameters turn on. */
  function FoldFlags(f: ReadFlags, ps: seq<Param>): ReadFlags
    decreases |ps|
  {
    if |ps| == 0 then f
    else if ps[0].FlagParam? then FoldFlags(SetFlag(f, ps[0].key, ps[0].on), ps[1..])
    else FoldFlags(f, ps[1..])
  }

  /** The id list of the last id parameter, if there is one. */
  function LastIds(ids: string, ps: seq<Param>): string
    decreases |ps|
  {
    if |ps| == 0 then ids
    else LastIds(if ps[0].IdParam? then ps[0].ids else ids, ps[1..])
  }

  /** The state a parameter written at position i leaves. */
  function Applied(st: Query, p: Param, i: nat): Query
  {
    match p
    case IdParam(ids) => st.(idStart := i + 3, idLen := |ids|)
    case FlagParam(key, on) => st.(flags := SetFlag(st.flags, key, on))
  }

  /** A parameter ends at position e of q: at the end of the query or at a separator. */
  ghost predicate EndsAt(q: string, e: nat)
  {
    e == |q| || (e < |q| && IsSep(q[e]))
  }

  /** An id parameter whose list ends the query or a parameter is one turn of the loop. */
  lemma IdStep(q: string, i: nat, n: nat, st: Query) returns (next: nat, st': Query)
    requires KeyAt(q, i) == Some(IdKey) && i + 3 < |q| && i + 3 + n <= |q|
    requires IdEnd(q, i + 3) == i + 3 + n && EndsAt(q, i + 3 + n)
    ensures next == i + 3 + n + 1 && st' == st.(idStart := i + 3, idLen := n)
    ensures QueryFrom(q, i, st, false) == QueryFrom(q, next, st', false)
  {
    next, st' := i + 3 + n + 1, st.(idStart := i + 3, idLen := n);
    assert ParamStep(q, i, st, false) == Some((next, st'));
    QueryFromStep(q, i, st, false, next, st');
  }

  /** A flag parameter with value '0' or '1' that ends the query or a parameter is one
      turn of the loop. */
  lemma FlagStep(q: string, i: nat, key: Key, on: bool, st: Query) returns (next: nat, st': Query)
    requires KeyAt(q, i) == Some(key) && key != IdKey && i + |KeyName(key)| < |q|
    requires q[i + |KeyName(key)|] == (if on then '1' else '0') && EndsAt(q, i + |KeyName(key)| + 1)
    ensures next == i + |KeyName(key)| + 2 && st' == st.(flags := SetFlag(st.flags, key, on))
    ensures QueryFrom(q, i, st, false) == QueryFrom(q, next, st', false)
  {
    next, st' := i + |KeyName(key)| + 2, st.(flags := SetFlag(st.flags, key, on));
    assert ParamStep(q, i, st, false) == Some((next, st'));
    QueryFromStep(q, i, st, false, next, st');
  }

  /** Parameter p is written at position i of q. */
  ghost predicate WrittenAt(q: string, i: nat, p: Param)
  {
    i + |Render(p)| <= |q| && q[i..i + |Render(p)|] == Render(p)
  }

  /** Text w and separator c at the head of q[i..]. */
  lemma HeadAt(q: string, i: nat, w: string, c: char, rest: string)
    requires i <= |q| && q[i..] == w + [c] + rest
    ensures i + |w| < |q| && q[i..i + |w|] == w && q[i + |w|] == c && q[i + |w| + 1..] == rest
  {
    assert q[i..i + |w|] == q[i..][..|w|];
    assert q[i + |w| + 1..] == q[i..][|w| + 1..];
  }

  /** The first parameter and separator of Line(ps, seps) at position i of q. */
  lemma LineHead(q: string, i: nat, ps: seq<Param>, seps: string) returns (next: nat)
    requires |seps| == |ps| || |seps| + 1 == |ps|
    requires |ps| != 0 && |seps| != 0 && i <= |q| && q[i..] == Line(ps, seps)
    ensures next == i + |Render(ps[0])| + 1 && next <= |q|
    ensures WrittenAt(q, i, ps[0]) && q[next - 1] == seps[0] && q[next..] == Line(ps[1..], seps[1..])
  {
    var w := Render(ps[0]);
    var rest := Line(ps[1..], seps[1..]);
    assert q[i..] == w + [seps[0]] + rest;
    HeadAt(q, i, w, seps[0], rest);
    next := i + |w| + 1;
  }

  lemma LastAt(q: string, i: nat, p: Param)
    requires i <= |q| && q[i..] == Render(p)
    ensures WrittenAt(q, i, p) && i + |Render(p)| == |q|
  {
    assert q[i..i + |Render(p)|] == q[i..];
  }

  /** What the loop needs to know about a well-formed id parameter written at i that ends
      the query or a parameter. */
  lemma IdRenderFacts(q: string, i: nat, ids: string)
    requires ParamOk(IdParam(ids)) && WrittenAt(q, i, IdParam(ids)) && EndsAt(q, i + 3 + |ids|)
    ensures KeyAt(q, i) == Some(IdKey) && IdEnd(q, i + 3) == i + 3 + |ids|
    ensures q[i + 3..i + 3 + |ids|] == ids
  {
    var w := Render(IdParam(ids));
    assert q[i..i + 3] == w[..3];
    KeyUnique(q, i, IdKey);
    forall m | i + 3 <= m < i + 3 + |ids|
      ensures IsIdChar(q[m])
    {
      assert q[m] == q[i..i + |w|][m - i] == ids[m - i - 3];
    }
    IdEndAt(q, i + 3, i + 3 + |ids|);
    assert q[i + 3..i + 3 + |ids|] == q[i..i + |w|][3..];
  }

  /** The same for a flag parameter. */
  lemma FlagRenderFacts(q: string, i: nat, key: Key, on: bool)
    requires key != IdKey && WrittenAt(q, i, FlagParam(key, on))
    ensures KeyAt(q, i) == Some(key) && i + |KeyName(key)| < |q|
    ensures q[i + |KeyName(key)|] == (if on then '1' else '0')
  {
    var w := Render(FlagParam(key, on));
    var n := |KeyName(key)|;
    assert q[i..i + n] == w[..n];
    KeyUnique(q, i, key);
    assert q[i + n] == q[i..i + |w|][n];
  }

  /** What the first parameter contributes to the flags and to the id list. */
  lemma FoldCons(f: ReadFlags, f': ReadFlags, ids: string, ids': string, ps: seq<Param>)
    requires |ps| != 0
    requires f' == if ps[0].FlagParam? then SetFlag(f, ps[0].key, ps[0].on) else f
    requires ids' == if ps[0].IdParam? then ps[0].ids else ids
    ensures FoldFlags(f, ps) == FoldFlags(f', ps[1..])
    ensures LastIds(ids, ps) == LastIds(ids', ps[1..])
  {
  }

  /** One well-formed parameter written at i, ending the query or a parameter, advances the
      loop past it and its separator (or past the end). */
  lemma Advance(q: string, i: nat, p: Param, st: Query) returns (next: nat, st': Query)
    requires ParamOk(p) && WrittenAt(q, i, p) && EndsAt(q, i + |Render(p)|)
    requires i + |Render(p)| < |q| || p != IdParam([])
    requires st.idStart + st.idLen <= i
    ensures next == i + |Render(p)| + 1 && st' == Applied(st, p, i)
    ensures QueryFrom(q, i, st, false) == QueryFrom(q, next, st', false)
    ensures st'.idStart + st'.idLen < next
    ensures IdText(q, st') == if p.IdParam? then p.ids else IdText(q, st)
    ensures st'.flags == if p.FlagParam? then SetFlag(st.flags, p.key, p.on) else st.flags
  {
    match p {
    case IdParam(ids) =>
      next, st' := IdAdvance(q, i, ids, st);
    case FlagParam(key, on) =>
      next, st' := FlagAdvance(q, i, key, on, st);
    }
  }

  lemma IdAdvance(q: string, i: nat, ids: string, st: Query) returns (next: nat, st': Query)
    requires ParamOk(IdParam(ids)) && WrittenAt(q, i, IdParam(ids)) && EndsAt(q, i + 3 + |ids|)
    requires i + 3 < |q|
    ensures next == i + 3 + |ids| + 1 && st' == st.(idStart := i + 3, idLen := |ids|)
    ensures QueryFrom(q, i, st, false) == QueryFrom(q, next, st', false)
    ensures i + 3 + |ids| <= |q| && IdText(q, st') == ids
  {
    IdRenderFacts(q, i, ids);
    next, st' := IdStep(q, i, |ids|, st);
  }

  lemma FlagAdvance(q: string, i: nat, key: Key, on: bool, st: Query) returns (next: nat, st': Query)
    requires key != IdKey && WrittenAt(q, i, FlagParam(key, on))
    requires EndsAt(q, i + |KeyName(key)| + 1)
    ensures next == i + |KeyName(key)| + 2 && st' == st.(flags := SetFlag(st.flags, key, on))
    ensures QueryFrom(q, i, st, false) == QueryFrom(q, next, st', false)
  {
    FlagRenderFacts(q, i, key, on);
    next, st' := FlagStep(q, i, key, on, st);
  }

  /** Any sequence of well-formed parameters, each followed by '&', ';' or '#' except
      perhaps the last, is accepted; the flags are those the parameters turn on and the id
      list is the last one given. */
  lemma {:induction false} LineAccepted(q: string, i: nat, ps: seq<Param>, seps: string, st: Query)
    returns (r: Query)
    requires LineOk(ps, seps) && i <= |q| && q[i..] == Line(ps, seps)
    requires st.idStart + st.idLen <= i
    ensures QueryFrom(q, i, st, false) == Some(r)
    ensures r.flags == FoldFlags(st.flags, ps)
    ensures r.idStart + r.idLen <= |q|
    ensures IdText(q, r) == LastIds(IdText(q, st), ps)
    decreases ps
  {
    if |ps| == 0 {
      r := st;
    } else {
      var next, st' := FirstStep(q, i, ps, seps, st);
      if |seps| == 0 {
        r := st';
      } else {
        r := LineAccepted(q, next, ps[1..], seps[1..], st');
      }
    }
  }

  /** The loop's turn over the first parameter of a well-formed line, and the line behind it. */
  lemma FirstStep(q: string, i: nat, ps: seq<Param>, seps: string, st: Query) returns (next: nat, st': Query)
    requires LineOk(ps, seps) && |ps| != 0 && i <= |q| && q[i..] == Line(ps, seps)
    requires st.idStart + st.idLen <= i
    ensures QueryFrom(q, i, st, false) == QueryFrom(q, next, st', false)
    ensures st'.idStart + st'.idLen < next && st'.idStart + st'.idLen <= |q|
    ensures FoldFlags(st.flags, ps) == FoldFlags(st'.flags, ps[1..])
    ensures LastIds(IdText(q, st), ps) == LastIds(IdText(q, st'), ps[1..])
    ensures |seps| == 0 ==> ps[1..] == [] && next == |q| + 1
    ensures |seps| != 0 ==> next <= |q| && LineOk(ps[1..], seps[1..]) && q[next..] == Line(ps[1..], seps[1..])
  {
    var _ := LineFirst(q, i, ps, seps);
    next, st' := AcceptStep(q, i, ps, st);
  }

  /** The loop's turn over the first parameter of a well-formed line. */
  lemma AcceptStep(q: string, i: nat, ps: seq<Param>, st: Query) returns (next: nat, st': Query)
    requires |ps| != 0 && ParamOk(ps[0]) && WrittenAt(q, i, ps[0]) && EndsAt(q, i + |Render(ps[0])|)
    requires i + |Render(ps[0])| < |q| || ps[0] != IdParam([])
    requires st.idStart + st.idLen <= i <= |q|
    ensures next == i + |Render(ps[0])| + 1
    ensures QueryFrom(q, i, st, false) == QueryFrom(q, next, st', false)
    ensures st'.idStart + st'.idLen < next && st'.idStart + st'.idLen <= |q|
    ensures FoldFlags(st.flags, ps) == FoldFlags(st'.flags, ps[1..])
    ensures LastIds(IdText(q, st), ps) == LastIds(IdText(q, st'), ps[1..])
  {
    next, st' := Advance(q, i, ps[0], st);
    FoldCons(st.flags, st'.flags, IdText(q, st), IdText(q, st'), ps);
  }

  /** The first parameter of a well-formed line at i, and the line behind it. */
  lemma LineFirst(q: string, i: nat, ps: seq<Param>, seps: string) returns (next: nat)
    requires LineOk(ps, seps) && |ps| != 0 && i <= |q| && q[i..] == Line(ps, seps)
    ensures next == i + |Render(ps[0])| + 1
    ensures ParamOk(ps[0]) && WrittenAt(q, i, ps[0]) && EndsAt(q, next - 1)
    ensures next - 1 < |q| || ps[0] != IdParam([])
    ensures |seps| == 0 ==> ps[1..] == [] && next == |q| + 1
    ensures |seps| != 0 ==> next <= |q| && LineOk(ps[1..], seps[1..]) && q[next..] == Line(ps[1..], seps[1..])
  {
    assert ParamOk(ps[0]);
    if |seps| != 0 {
      next := LineHead(q, i, ps, seps);
      LineOkTail(ps, seps);
    } else {
      next := i + |Render(ps[0])| + 1;
      assert |ps| == 1 && ps[1..] == [];
      LastAt(q, i, ps[0]);
    }
  }

  lemma LineOkTail(ps: seq<Param>, seps: string)
    requires LineOk(ps, seps) && |seps| != 0
    ensures IsSep(seps[0]) && LineOk(ps[1..], seps[1..])
  {
    assert IsSep(seps[0]);
    assert forall k :: 0 <= k < |ps[1..]| ==> ps[1..][k] == ps[k + 1];
    assert forall k :: 0 <= k < |seps[1..]| ==> seps[1..][k] == seps[k + 1];
  }

  /** The query of HAP: the id list and flags written as parameters. */
  lemma QueryOfLine(ps: seq<Param>, seps: string)
    requires LineOk(ps, seps)
    ensures ParseQuerySpec(Line(ps, seps)).Some?
    ensures ParseQuerySpec(Line(ps, seps)).value.flags == FoldFlags(NoFlags, ps)
    ensures ParseQuerySpec(Line(ps, seps)).value.idStart + ParseQuerySpec(Line(ps, seps)).value.idLen <= |Line(ps, seps)|
    ensures IdText(Line(ps, seps), ParseQuerySpec(Line(ps, seps)).value) == LastIds("", ps)
  {
    var q := Line(ps, seps);
    assert q[0..] == q;
    var r := LineAccepted(q, 0, ps, seps, NoQuery);
  }

  /** The parameter the loop reads at position i, when it does not answer 400: a key the
      chain knows, with '0' or '1' after a flag key and id characters only after "id=", and
      the loop goes on behind the separator that ends it, or stops at the end of the query. */
  lemma ParamOf(q: string, i: nat, st: Query) returns (p: Param, next: nat, st': Query)
    requires i < |q| && QueryFrom(q, i, st, false).Some?
    ensures ParamAt(q, i, p) && next == i + |Render(p)| + 1
    ensures QueryFrom(q, next, st', false).Some?
  {
    var r := ParamStep(q, i, st, false);
    next, st' := r.value.0, r.value.1;
    QueryFromStep(q, i, st, false, next, st');
    var key := KeyAt(q, i).value;
    if key == IdKey {
      IdStepFacts(q, i, st);
      p := IdParamOf(q, i);
    } else {
      FlagStepFacts(q, i, key, st);
      p := FlagParamOf(q, i, key);
    }
  }

  /** What a parameter read at i tells about the query: it is written there, and a separator
      or the end of the query follows; only a non-empty id list may end the query. */
  ghost predicate ParamAt(q: string, i: nat, p: Param)
  {
    ParamOk(p) && WrittenAt(q, i, p) &&
    (i + |Render(p)| < |q| ==> IsSep(q[i + |Render(p)|])) &&
    (i + |Render(p)| >= |q| ==> p != IdParam([]))
  }

  /** An id parameter read at i: "id=" and the id characters after it. */
  lemma IdParamOf(q: string, i: nat) returns (p: Param)
    requires HasKey(q, i, "id=") && i + 3 < |q|
    requires IdEnd(q, i + 3) < |q| ==> IsSep(q[IdEnd(q, i + 3)])
    ensures ParamAt(q, i, p) && i + |Render(p)| == IdEnd(q, i + 3)
  {
    var k := IdEnd(q, i + 3);
    p := IdParam(q[i + 3..k]);
    assert q[i..k] == q[i..i + 3] + q[i + 3..k];
  }

  lemma IdStepFacts(q: string, i: nat, st: Query)
    requires i < |q| && KeyAt(q, i) == Some(IdKey) && ParamStep(q, i, st, false).Some?
    ensures HasKey(q, i, "id=") && i + 3 < |q|
    ensures IdEnd(q, i + 3) < |q| ==> IsSep(q[IdEnd(q, i + 3)])
    ensures ParamStep(q, i, st, false).value.0 == IdEnd(q, i + 3) + 1
  {
  }

  /** A flag parameter read at i: its key and the digit after it. */
  lemma FlagParamOf(q: string, i: nat, key: Key) returns (p: Param)
    requires key != IdKey && HasKey(q, i, KeyName(key)) && i + |KeyName(key)| < |q|
    requires q[i + |KeyName(key)|] == '0' || q[i + |KeyName(key)|] == '1'
    requires i + |KeyName(key)| + 1 < |q| ==> IsSep(q[i + |KeyName(key)| + 1])
    ensures ParamAt(q, i, p) && i + |Render(p)| == i + |KeyName(key)| + 1
  {
    var j := i + |KeyName(key)|;
    p := FlagParam(key, q[j] == '1');
    assert q[i..j + 1] == q[i..j] + [q[j]];
  }

  lemma FlagStepFacts(q: string, i: nat, key: Key, st: Query)
    requires i < |q| && key != IdKey && KeyAt(q, i) == Some(key) && ParamStep(q, i, st, false).Some?
    ensures HasKey(q, i, KeyName(key)) && i + |KeyName(key)| < |q|
    ensures q[i + |KeyName(key)|] == '0' || q[i + |KeyName(key)|] == '1'
    ensures i + |KeyName(key)| + 1 < |q| ==> IsSep(q[i + |KeyName(key)| + 1])
    ensures ParamStep(q, i, st, false).value.0 == i + |KeyName(key)| + 2
  {
  }

  /** Every query the loop accepts is a line of well-formed parameters. */
  lemma {:induction false} LineFrom(q: string, i: nat, st: Query) returns (ps: seq<Param>, seps: string)
    requires i <= |q| && QueryFrom(q, i, st, false).Some?
    ensures LineOk(ps, seps) && q[i..] == Line(ps, seps)
    decreases |q| - i
  {
    if i == |q| {
      ps, seps := [], [];
    } else {
      var p, next, st' := ParamOf(q, i, st);
      if i + |Render(p)| >= |q| {
        LastParam(q, i, p);
        ps, seps := [p], [];
      } else {
        var ps', seps' := LineFrom(q, next, st');
        ParamThenLine(q, i, p, ps', seps');
        ps, seps := [p] + ps', [q[i + |Render(p)|]] + seps';
      }
    }
  }

  lemma LastParam(q: string, i: nat, p: Param)
    requires ParamAt(q, i, p) && i + |Render(p)| >= |q|
    ensures LineOk([p], []) && q[i..] == Line([p], [])
  {
    assert q[i..] == q[i..i + |Render(p)|];
  }

  lemma ParamThenLine(q: string, i: nat, p: Param, ps: seq<Param>, seps: string)
    requires ParamAt(q, i, p) && i + |Render(p)| < |q|
    requires LineOk(ps, seps) && q[i + |Render(p)| + 1..] == Line(ps, seps)
    ensures LineOk([p] + ps, [q[i + |Render(p)|]] + seps)
    ensures q[i..] == Line([p] + ps, [q[i + |Render(p)|]] + seps)
  {
    var e := i + |Render(p)|;
    SplitAt(q, i, e);
    LineCons(p, q[e], ps, seps);
  }

  lemma SplitAt(q: string, i: nat, e: nat)
    requires i <= e < |q|
    ensures q[i..] == q[i..e] + [q[e]] + q[e + 1..]
  {
  }

  lemma LineCons(p: Param, c: char, ps: seq<Param>, seps: string)
    requires ParamOk(p) && IsSep(c) && LineOk(ps, seps)
    ensures LineOk([p] + ps, [c] + seps)
    ensures Line([p] + ps, [c] + seps) == Render(p) + [c] + Line(ps, seps)
  {
    assert ([p] + ps)[1..] == ps && ([c] + seps)[1..] == seps;
    assert forall k :: 1 <= k < |[p] + ps| ==> ([p] + ps)[k] == ps[k - 1];
    assert forall k :: 1 <= k < |[c] + seps| ==> ([c] + seps)[k] == seps[k - 1];
  }

  /** The converse of QueryOfLine: a query that parses at all is a line of well-formed
      parameters. */
  lemma LineOfQuery(q: string) returns (ps: seq<Param>, seps: string)
    requires ParseQuerySpec(q).Some?
    ensures LineOk(ps, seps) && Line(ps, seps) == q
  {
    assert q[0..] == q;
    ps, seps := LineFrom(q, 0, NoQuery);
  }

  // ------------------------------------------------------------------
  // The id list

  datatype Pair = Pair(aid: Iid, iid: Iid)

  function DigitValue(c: char): nat
    requires IsDigit(c)
  {
    c as int - '0' as int
  }

  /** x * 10 + digit in iid_t arithmetic. */
  function Shift(x: Iid, c: char): Iid
    requires IsDigit(c)
  {
    (x * 10 + DigitValue(c)) % U32
  }

  /** The second loop of Db::Read from position i of the id list, with the aid and iid read
      so far and whether an aid is being read.  A pair is complete at ',' or when the list
      ends inside its iid; a list ending before the '.' drops that last aid. */
  function DecodeFrom(s: string, i: nat, aid: Iid, iid: Iid, readAid: bool): Option<seq<Pair>>
    decreases |s| - i
  {
    if i >= |s| then Some([])
    else if readAid then
      if IsDigit(s[i]) then DecodeFrom(s, i + 1, Shift(aid, s[i]), iid, true)
      else if s[i] != '.' then None
      else DecodeFrom(s, i + 1, aid, iid, false)
    else if IsDigit(s[i]) then
      if i + 1 < |s| then DecodeFrom(s, i + 1, aid, Shift(iid, s[i]), false)
      else Some([Pair(aid, Shift(iid, s[i]))])
    else if s[i] != ',' then None
    else Prepend(Pair(aid, iid), DecodeFrom(s, i + 1, NullId, NullId, true))
  }

  function Prepend(p: Pair, r: Option<seq<Pair>>): (r': Option<seq<Pair>>)
    ensures r'.Some? <==> r.Some?
    ensures r'.Some? ==> r'.value == [p] + r.value
  {
    if r.None? then None else Some([p] + r.value)
  }

  function DecodeIds(s: string): Option<seq<Pair>>
  {
    DecodeFrom(s, 0, NullId, NullId, true)
  }

  /** Decimal text of n, without leading zeros. */
  function Dec(n: nat): (r: string)
    ensures |r| >= 1 && forall m :: 0 <= m < |r| ==> IsDigit(r[m])
  {
    if n < 10 then [DigitChar(n)] else Dec(n / 10) + [DigitChar(n % 10)]
  }

  /** The number a string of digits denotes. */
  function DecValue(ds: string): nat
    requires forall m :: 0 <= m < |ds| ==> IsDigit(ds[m])
  {
    if ds == [] then 0 else DecValue(ds[..|ds| - 1]) * 10 + DigitValue(ds[|ds| - 1])
  }

  lemma {:induction false} DecValueDec(n: nat)
    ensures DecValue(Dec(n)) == n
  {
    if n >= 10 {
      var d := Dec(n);
      DecValueDec(n / 10);
      assert d[..|d| - 1] == Dec(n / 10);
    }
  }

  /** A prefix of a digit string never denotes more than the whole. */
  lemma {:induction false} DecValuePrefix(ds: string, k: nat)
    requires forall m :: 0 <= m < |ds| ==> IsDigit(ds[m])
    requires k <= |ds|
    ensures DecValue(ds[..k]) <= DecValue(ds)
    decreases |ds| - k
  {
    if k < |ds| {
      DecValuePrefix(ds, k + 1);
      assert ds[..k + 1][..k] == ds[..k];
    } else {
      assert ds[..k] == ds;
    }
  }

  lemma DecValueStep(ds: string, k: nat)
    requires forall m :: 0 <= m < |ds| ==> IsDigit(ds[m])
    requires k < |ds|
    ensures DecValue(ds[..k + 1]) == DecValue(ds[..k]) * 10 + DigitValue(ds[k])
  {
    assert ds[..k + 1][..k] == ds[..k];
  }

  /** The aid digits ds at position i are read into the accumulator. */
  lemma {:induction false} AidRun(s: string, i: nat, ds: string, k: nat, iid: Iid)
    requires forall m :: 0 <= m < |ds| ==> IsDigit(ds[m])
    requires i + |ds| <= |s| && s[i..i + |ds|] == ds && k <= |ds| && DecValue(ds) < U32
    ensures DecValue(ds[..k]) < U32
    ensures DecodeFrom(s, i + k, DecValue(ds[..k]), iid, true) == DecodeFrom(s, i + |ds|, DecValue(ds), iid, true)
    decreases |ds| - k
  {
    DecValuePrefix(ds, k);
    if k < |ds| {
      DecValueStep(ds, k);
      DecValuePrefix(ds, k + 1);
      assert s[i + k] == ds[k];
      assert Shift(DecValue(ds[..k]), s[i + k]) == DecValue(ds[..k + 1]);
      AidRun(s, i, ds, k + 1, iid);
    } else {
      assert ds[..k] == ds;
    }
  }

  /** The iid digits ds at position i, followed by more of the list. */
  lemma {:induction false} IidRun(s: string, i: nat, ds: string, k: nat, aid: Iid)
    requires forall m :: 0 <= m < |ds| ==> IsDigit(ds[m])
    requires i + |ds| < |s| && s[i..i + |ds|] == ds && k <= |ds| && DecValue(ds) < U32
    ensures DecValue(ds[..k]) < U32
    ensures DecodeFrom(s, i + k, aid, DecValue(ds[..k]), false) == DecodeFrom(s, i + |ds|, aid, DecValue(ds), false)
    decreases |ds| - k
  {
    DecValuePrefix(ds, k);
    if k < |ds| {
      DecValueStep(ds, k);
      DecValuePrefix(ds, k + 1);
      assert s[i + k] == ds[k];
      assert Shift(DecValue(ds[..k]), s[i + k]) == DecValue(ds[..k + 1]);
      IidRun(s, i, ds, k + 1, aid);
    } else {
      assert ds[..k] == ds;
    }
  }

  /** The iid digits ds end the list: the pair is emitted at the last digit. */
  lemma {:induction false} IidLast(s: string, i: nat, ds: string, k: nat, aid: Iid)
    requires forall m :: 0 <= m < |ds| ==> IsDigit(ds[m])
    requires i + |ds| == |s| && s[i..] == ds && k < |ds| && DecValue(ds) < U32
    ensures DecValue(ds[..k]) < U32
    ensures DecodeFrom(s, i + k, aid, DecValue(ds[..k]), false) == Some([Pair(aid, DecValue(ds))])
    decreases |ds| - k
  {
    DecValuePrefix(ds, k);
    DecValueStep(ds, k);
    DecValuePrefix(ds, k + 1);
    assert s[i + k] == ds[k];
    assert Shift(DecValue(ds[..k]), s[i + k]) == DecValue(ds[..k + 1]);
    if k + 1 < |ds| {
      IidLast(s, i, ds, k + 1, aid);
    } else {
      assert ds[..k + 1] == ds;
    }
  }

  /** "aid.iid" */
  function PairText(p: Pair): string
  {
    Dec(p.aid) + "." + Dec(p.iid)
  }

  /** The id list a client sends: the pairs in decimal, separated by ','. */
  function IdList(ps: seq<Pair>): string
    requires ps != []
  {
    if |ps| == 1 then PairText(ps[0]) else PairText(ps[0]) + "," + IdList(ps[1..])
  }

  /** Reading the pair text p at position i: the aid digits and the '.', then the iid digits
      from position j, ending at e. */
  lemma PairAt(s: string, i: nat, p: Pair) returns (j: nat, e: nat)
    requires i + |PairText(p)| <= |s| && s[i..i + |PairText(p)|] == PairText(p)
    ensures j == i + |Dec(p.aid)| + 1 && e == j + |Dec(p.iid)| && e == i + |PairText(p)|
    ensures s[j..e] == Dec(p.iid)
    ensures DecodeFrom(s, i, NullId, NullId, true) == DecodeFrom(s, j, p.aid, NullId, false)
  {
    var a, b := Dec(p.aid), Dec(p.iid);
    var w := PairText(p);
    j, e := i + |a| + 1, i + |a| + 1 + |b|;
    assert s[i..i + |a|] == w[..|a|] == a;
    assert s[j - 1] == w[|a|] == '.';
    assert s[j..e] == w[|a| + 1..] == b;
    DecValueDec(p.aid);
    AidThenDot(s, i, a, p.aid);
  }

  /** The aid digits a of value v at i, followed by the '.'. */
  lemma AidThenDot(s: string, i: nat, a: string, v: Iid)
    requires forall m :: 0 <= m < |a| ==> IsDigit(a[m])
    requires i + |a| < |s| && s[i..i + |a|] == a && s[i + |a|] == '.' && DecValue(a) == v
    ensures DecodeFrom(s, i, NullId, NullId, true) == DecodeFrom(s, i + |a| + 1, v, NullId, false)
  {
    assert a[..0] == [];
    AidRun(s, i, a, 0, NullId);
  }

  /** The iid digits b of value v at j, followed by more of the list from e. */
  lemma IidThen(s: string, j: nat, e: nat, b: string, aid: Iid, v: Iid)
    requires forall m :: 0 <= m < |b| ==> IsDigit(b[m])
    requires e == j + |b| && e < |s| && s[j..e] == b && DecValue(b) == v
    ensures DecodeFrom(s, j, aid, NullId, false) == DecodeFrom(s, e, aid, v, false)
  {
    assert b[..0] == [];
    IidRun(s, j, b, 0, aid);
  }

  /** The iid digits b of value v at j end the list. */
  lemma IidEnd(s: string, j: nat, b: string, aid: Iid, v: Iid)
    requires |b| >= 1 && forall m :: 0 <= m < |b| ==> IsDigit(b[m])
    requires j + |b| == |s| && s[j..] == b && DecValue(b) == v
    ensures DecodeFrom(s, j, aid, NullId, false) == Some([Pair(aid, v)])
  {
    assert b[..0] == [];
    IidLast(s, j, b, 0, aid);
  }

  /** A ',' completes the pair read so far. */
  lemma CommaStep(s: string, e: nat, aid: Iid, iid: Iid)
    requires e < |s| && s[e] == ','
    ensures DecodeFrom(s, e, aid, iid, false) == Prepend(Pair(aid, iid), DecodeFrom(s, e + 1, NullId, NullId, true))
  {
  }

  /** How the id list of ps lies in s from position i. */
  lemma ListParts(s: string, i: nat, ps: seq<Pair>) returns (e: nat)
    requires ps != [] && i <= |s| && s[i..] == IdList(ps)
    ensures e == i + |PairText(ps[0])| && e <= |s| && s[i..e] == PairText(ps[0])
    ensures |ps| == 1 ==> e == |s|
    ensures |ps| > 1 ==> e < |s| && s[e] == ',' && s[e + 1..] == IdList(ps[1..])
  {
    var w := PairText(ps[0]);
    e := i + |w|;
    if |ps| == 1 {
      assert s[i..e] == s[i..];
    } else {
      var t := IdList(ps);
      assert t == w + "," + IdList(ps[1..]);
      assert s[i..e] == t[..|w|];
      assert s[e] == t[|w|];
      assert s[e + 1..] == t[|w| + 1..];
    }
  }

  /** The last pair of a list. */
  lemma LastPairAt(s: string, i: nat, ps: seq<Pair>)
    requires |ps| == 1 && i <= |s| && s[i..] == IdList(ps)
    ensures DecodeFrom(s, i, NullId, NullId, true) == Some(ps)
  {
    var p := ps[0];
    var e0 := ListParts(s, i, ps);
    var j, e := PairAt(s, i, p);
    DecValueDec(p.iid);
    assert s[j..] == Dec(p.iid);
    IidEnd(s, j, Dec(p.iid), p.aid, p.iid);
    assert ps == [p];
  }

  /** A pair followed by ',' and the rest of the list, which starts at e + 1. */
  lemma PairThenRest(s: string, i: nat, ps: seq<Pair>) returns (e: nat)
    requires |ps| > 1 && i <= |s| && s[i..] == IdList(ps)
    ensures e < |s| && s[e + 1..] == IdList(ps[1..])
    ensures DecodeFrom(s, i, NullId, NullId, true) == Prepend(ps[0], DecodeFrom(s, e + 1, NullId, NullId, true))
  {
    var p := ps[0];
    var e0 := ListParts(s, i, ps);
    var j, e1 := PairAt(s, i, p);
    e := e1;
    DecValueDec(p.iid);
    IidThen(s, j, e, Dec(p.iid), p.aid, p.iid);
    CommaStep(s, e, p.aid, p.iid);
  }

  lemma {:induction false} IdListFrom(s: string, i: nat, ps: seq<Pair>)
    requires ps != [] && i <= |s| && s[i..] == IdList(ps)
    ensures DecodeFrom(s, i, NullId, NullId, true) == Some(ps)
    decreases ps
  {
    if |ps| == 1 {
      LastPairAt(s, i, ps);
    } else {
      var e := PairThenRest(s, i, ps);
      IdListFrom(s, e + 1, ps[1..]);
      assert ps == [ps[0]] + ps[1..];
    }
  }

  /** The id list round trip: "a.i,a.i,..." decodes to its pairs, in order. */
  lemma DecodeIdList(ps: seq<Pair>)
    requires ps != []
    ensures DecodeIds(IdList(ps)) == Some(ps)
  {
    var s := IdList(ps);
    assert s[0..] == s;
    IdListFrom(s, 0, ps);
  }
}
