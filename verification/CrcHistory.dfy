/**
 The CRC interface over whole call histories: when a session is open, which bytes
 it covers, and what get_result means, said about positions in the history rather
 than about a state that is carried along.
 */
module CrcHistory {
  import opened CrcEngine

  /** The phase after a history, starting from the zero-initialised object. */
  function Run(h: seq<Call>): Phase
    decreases |h|
  {
    if h == [] then Idle else Next(Run(h[..|h| - 1]), h[|h| - 1])
  }

  predicate NamedInit(c: Call) {
    c.Init? && NamedMode(c.mode) && EndianOk(c.endian)
  }

  /** Custom parameters given at position j are still waiting: nothing but results and named inits followed. */
  ghost predicate LoadedSince(h: seq<Call>, j: nat) {
    j < |h| && h[j].Custom? && forall k :: j < k < |h| ==> h[k].GetResult? || NamedInit(h[k])
  }

  ghost predicate Pending(h: seq<Call>) {
    exists j: nat :: LoadedSince(h, j)
  }

  /** The call at i opens a session: a named mode normally, the custom mode when custom parameters wait. */
  ghost predicate Opens(h: seq<Call>, i: nat) {
    && i < |h| && h[i].Init? && EndianOk(h[i].endian)
    && if Pending(h[..i]) then h[i].mode == CRC_CUSTOM else NamedMode(h[i].mode)
  }

  /** A session opened at i, with its updates from k to the end and only early results in between. */
  ghost predicate SessionAt(h: seq<Call>, i: nat, k: nat) {
    && i < k <= |h| && Opens(h, i)
    && (forall m :: i < m < k ==> h[m].GetResult?)
    && (forall m :: k <= m < |h| ==> h[m].Update?)
  }

  /** The bytes of a run of updates. */
  function Bytes(calls: seq<Call>): seq<bv8>
    decreases |calls|
  {
    if calls == [] then []
    else
      var c := calls[|calls| - 1];
      Bytes(calls[..|calls| - 1]) + if c.Update? then c.chunk else []
  }

  /** Custom parameters as changed by the named inits that came after them. */
  function Overlaid(p: Params, calls: seq<Call>): Params
    decreases |calls|
  {
    if calls == [] then p
    else
      var c := calls[|calls| - 1];
      var q := Overlaid(p, calls[..|calls| - 1]);
      if c.Init? then Overlay(q, c.mode) else q
  }

  lemma {:induction false} LoadedSinceRun(h: seq<Call>, j: nat)
    requires LoadedSince(h, j)
    ensures Run(h) == Loaded(Overlaid(h[j].p, h[j + 1..]))
    decreases |h|
  {
    var prev := h[..|h| - 1];
    if j < |prev| {
      LoadedSinceRun(prev, j);
      assert h[j + 1..][..|h[j + 1..]| - 1] == prev[j + 1..];
    }
  }

  lemma {:induction false} PendingIff(h: seq<Call>)
    ensures Run(h).Loaded? <==> Pending(h)
    decreases |h|
  {
    if Pending(h) {
      var j: nat :| LoadedSince(h, j);
      LoadedSinceRun(h, j);
    }
    if Run(h).Loaded? {
      var prev := h[..|h| - 1];
      PendingIff(prev);
      if h[|h| - 1].Custom? {
        assert LoadedSince(h, |h| - 1);
      } else {
        var j: nat :| LoadedSince(prev, j);
        assert LoadedSince(h, j);
      }
    }
  }

  /** The parameters of the session opened at i. */
  ghost function ParamsAt(h: seq<Call>, i: nat): Params
    requires Opens(h, i)
  {
    if Pending(h[..i]) then
      var j: nat :| LoadedSince(h[..i], j);
      Overlaid(h[j].p, h[j + 1..i])
    else Overlay(DEFAULTS, h[i].mode)
  }

  lemma OpensRun(h: seq<Call>, i: nat)
    requires Opens(h, i)
    ensures Run(h[..i + 1]) == Open(ParamsAt(h, i), h[i].endian, [], false)
  {
    assert h[..i + 1][..i] == h[..i];
    PendingIff(h[..i]);
    if Pending(h[..i]) {
      forall j: nat | LoadedSince(h[..i], j)
        ensures Run(h[..i]) == Loaded(Overlaid(h[j].p, h[j + 1..i]))
      {
        LoadedSinceRun(h[..i], j);
        assert h[..i][j + 1..] == h[j + 1..i];
      }
    }
  }

  lemma {:induction false} SessionRun(h: seq<Call>, i: nat, k: nat)
    requires SessionAt(h, i, k)
    ensures Run(h) == Open(ParamsAt(h, i), h[i].endian, Bytes(h[k..]), k < |h|)
    decreases |h|
  {
    var prev := h[..|h| - 1];
    if i + 1 == |h| {
      OpensRun(h, i);
      assert h[..i + 1] == h;
    } else {
      assert prev[..i] == h[..i];
      if k < |h| {
        SessionRun(prev, i, k);
        assert h[k..][..|h[k..]| - 1] == prev[k..];
        ParamsAtPrefix(h, prev, i);
      } else {
        SessionRun(prev, i, k - 1);
        assert prev[k - 1..] == [] && h[k..] == [];
        ParamsAtPrefix(h, prev, i);
      }
    }
  }

  /** The parameters of a session depend only on what came before it. */
  lemma ParamsAtPrefix(h: seq<Call>, g: seq<Call>, i: nat)
    requires Opens(h, i) && Opens(g, i) && h[..i + 1] == g[..i + 1]
    ensures ParamsAt(h, i) == ParamsAt(g, i)
  {
    OpensRun(h, i);
    OpensRun(g, i);
  }

  /** A history that leaves a session open ends in one; the session can be named. */
  lemma {:induction false} FindSession(h: seq<Call>) returns (i: nat, k: nat)
    requires Run(h).Open?
    ensures SessionAt(h, i, k)
    decreases |h|
  {
    hide Overlay, Overlaid;
    var n := |h| - 1;
    var prev := h[..n];
    PendingIff(prev);
    if h[n].Init? {
      i, k := n, n + 1;
    } else {
      i, k := FindSession(prev);
      SessionRun(prev, i, k);
      assert prev[..i] == h[..i];
      if !h[n].Update? {
        EarlyResult(prev, i, k);
        k := n + 1;
      }
    }
  }

  /** A get_result that leaves the session open comes before the first update. */
  lemma EarlyResult(h: seq<Call>, i: nat, k: nat)
    requires SessionAt(h, i, k) && Next(Run(h), GetResult).Open?
    ensures k == |h|
  {
    hide Overlay, Overlaid;
    SessionRun(h, i, k);
  }

  /** The object has an open session exactly when the history ends in one. */
  lemma OpenIff(h: seq<Call>)
    ensures Run(h).Open? <==> exists i: nat, k: nat :: SessionAt(h, i, k)
  {
    forall i: nat, k: nat | SessionAt(h, i, k)
      ensures Run(h).Open?
    {
      SessionRun(h, i, k);
    }
    if Run(h).Open? {
      var i, k := FindSession(h);
    }
  }

  /**
   What get_result says about a history: the CRC of exactly the bytes updated since the init
   that opened the session, and 0 when no session with an update is open.
   */
  ghost predicate Answers(h: seq<Call>, result: bv16) {
    && (forall i: nat, k: nat :: SessionAt(h, i, k) && k < |h| ==>
          WordBits.Bits16(result) == CrcBits(ParamsAt(h, i), h[i].endian, Bytes(h[k..])))
    && ((forall i: nat, k: nat :: SessionAt(h, i, k) ==> k == |h|) ==> result == 0)
  }

  lemma GetResultMeaning(h: seq<Call>, result: bv16)
    requires Returns(Run(h), result)
    ensures Answers(h, result)
  {
    hide WordBits.Bits16, CrcBits;
    forall i: nat, k: nat | SessionAt(h, i, k)
      ensures Run(h) == Open(ParamsAt(h, i), h[i].endian, Bytes(h[k..]), k < |h|)
    {
      SessionRun(h, i, k);
    }
    OpenIff(h);
  }

  /** One call on an object: the value of a get_result, and 0 for the others. */
  method Perform(crc: Crc, c: Call) returns (result: bv16)
    requires crc.Valid()
    modifies crc
    ensures crc.Valid() && crc.phase == Next(old(crc.phase), c)
    ensures c.GetResult? ==> Returns(old(crc.phase), result)
  {
    hide Next, Returns;
    result := 0;
    match c
    case Custom(p) => crc.Custom(p.init, p.xorOut, p.reverseIn, p.reverseOut);
    case Init(mode, endian) => var status := crc.Init(mode, endian);
    case Update(chunk) =>
      var data := new bv8[|chunk|](i requires 0 <= i < |chunk| => chunk[i]);
      assert data[..|chunk|] == chunk;
      var status := crc.Update(data, |chunk|);
    case GetResult => result := crc.GetResult();
  }

  /**
   The zero-initialised object driven through any history is in the phase Run gives, and
   every get_result answers for the calls before it.
   */
  method Drive(h: seq<Call>) returns (crc: Crc, results: seq<bv16>)
    ensures fresh(crc) && crc.Valid() && crc.phase == Run(h)
    ensures |results| == |h| && forall i :: 0 <= i < |h| && h[i].GetResult? ==> Answers(h[..i], results[i])
  {
    hide Answers, Next, Returns, CrcBits;
    crc := new Crc();
    results := [];
    for n := 0 to |h|
      invariant crc.Valid() && crc.phase == Run(h[..n]) && fresh(crc)
      invariant |results| == n && forall i :: 0 <= i < n && h[i].GetResult? ==> Answers(h[..i], results[i])
    {
      assert h[..n + 1][..n] == h[..n];
      var r := Perform(crc, h[n]);
      if h[n].GetResult? {
        GetResultMeaning(h[..n], r);
      }
      results := results + [r];
    }
    assert h[..|h|] == h;
  }

  /** Once a result has been taken, no further call but an init can open a session again. */
  lemma {:induction false} ClosedAfterResult(h: seq<Call>, rest: seq<Call>)
    requires Run(h).Open? && Run(h).started
    requires forall c :: c in rest ==> !c.Init?
    ensures !Run(h + [GetResult] + rest).Open?
    decreases |rest|
  {
    var all := h + [GetResult] + rest;
    if rest == [] {
      assert all[..|all| - 1] == h;
    } else {
      var shorter := rest[..|rest| - 1];
      assert all[..|all| - 1] == h + [GetResult] + shorter;
      assert rest[|rest| - 1] in rest;
      ClosedAfterResult(h, shorter);
    }
  }

  /** How the bytes are cut into updates does not matter. */
  lemma ChunkingIrrelevant(h: seq<Call>, us: seq<Call>, vs: seq<Call>)
    requires Run(h).Open? && us != [] && vs != []
    requires (forall c :: c in us ==> c.Update?) && (forall c :: c in vs ==> c.Update?)
    requires Bytes(us) == Bytes(vs)
    ensures Run(h + us) == Run(h + vs)
  {
    UpdatesRun(h, us);
    UpdatesRun(h, vs);
  }

  lemma {:induction false} UpdatesRun(h: seq<Call>, us: seq<Call>)
    requires Run(h).Open? && us != []
    requires forall c :: c in us ==> c.Update?
    ensures Run(h + us) == Run(h).(data := Run(h).data + Bytes(us), started := true)
    decreases |us|
  {
    hide Overlay;
    var shorter, c := us[..|us| - 1], us[|us| - 1];
    assert (h + us)[..|h + us| - 1] == h + shorter;
    assert c in us;
    if shorter == [] {
      assert h + shorter == h;
    } else {
      UpdatesRun(h, shorter);
    }
  }
}
