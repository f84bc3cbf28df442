/** Messages sent as packets and reports arrive: alone from any state, and interleaved. */
module CtapHidDelivery {
  import opened Bytes
  import opened CtapHidPacket
  import opened CtapHidMessage
  import opened CtapHidReassembler
  import opened CtapHidRuns

  /** What the table holds for `m` once its init and `k` continuations have arrived. */
  function Partial(m: Message, k: nat): Incomplete {
    Incomplete(m.cmd, |m.payload|, Fit(m.payload, Capacity(k)), k % 0x100)
  }

  lemma InitStep(s: Channels, m: Message)
    requires ValidChannels(s) && |m.payload| <= COUNT_LIMIT
    ensures Step(s, InitFragment(m)) ==
            if |m.payload| <= INIT_DATA then StepResult(s, Some(m)) else StepResult(s[m.cid := Partial(m, 0)], None)
  {
    hide Fit;
    if |m.payload| <= INIT_DATA {
      FitWhole(m.payload, INIT_DATA);
    }
  }

  lemma ContStep(s: Channels, m: Message, k: nat)
    requires ValidChannels(s) && Capacity(k) < |m.payload| <= COUNT_LIMIT
    requires m.cid in s && s[m.cid] == Partial(m, k)
    ensures Step(s, ContFragment(m, k)) ==
            if Capacity(k + 1) < |m.payload| then StepResult(s[m.cid := Partial(m, k + 1)], None)
            else StepResult(s - {m.cid}, Some(m))
  {
    hide Fit;
    var have, rest := Fit(m.payload, Capacity(k)), Fit(m.payload[Capacity(k)..], CONT_DATA);
    FitGrows(m.payload, k);
    var n := Min(|m.payload| - Capacity(k), CONT_DATA);
    if Capacity(k + 1) < |m.payload| {
      assert rest[..n] == rest;
    } else {
      FitWhole(m.payload, Capacity(k + 1));
      assert have + rest[..n] == (have + rest)[..|m.payload|];
    }
  }

  lemma {:induction false} HalfWay(s: Channels, m: Message, k: nat)
    requires ValidChannels(s) && Capacity(k) < |m.payload| <= COUNT_LIMIT
    ensures k + 1 < |Fragments(m)|
    ensures After(s, Fragments(m)[..k + 1]) == s[m.cid := Partial(m, k)]
    ensures Deliveries(s, Fragments(m)[..k + 1]) == []
  {
    hide Step, Partial, Fragments, InitFragment, ContFragment, After, Deliveries;
    FragmentAt(m, k);
    var q := Fragments(m)[..k];
    assert Fragments(m)[..k + 1] == q + [Fragments(m)[k]];
    RunSnoc(s, q, Fragments(m)[k]);
    if k == 0 {
      InitStep(s, m);
      EmptyRun(s);
    } else {
      HalfWay(s, m, k - 1);
      ContStep(s[m.cid := Partial(m, k - 1)], m, k - 1);
    }
  }

  /** The table once all of `m` has arrived. */
  function Settled(s: Channels, m: Message): Channels {
    if |m.payload| <= INIT_DATA then s else s - {m.cid}
  }

  lemma FragmentStep(s: Channels, m: Message, i: nat)
    requires ValidChannels(s) && |m.payload| <= COUNT_LIMIT && i < |Fragments(m)|
    ensures Deliveries(s, Fragments(m)[..i]) == []
    ensures i < |Fragments(m)| - 1 ==> Step(After(s, Fragments(m)[..i]), Fragments(m)[i]).output == None
    ensures i == |Fragments(m)| - 1 ==>
              Step(After(s, Fragments(m)[..i]), Fragments(m)[i]) == StepResult(Settled(s, m), Some(m))
  {
    hide Step, Partial, Fragments, InitFragment, ContFragment, After, Deliveries;
    FragmentAt(m, i);
    if i == 0 {
      InitStep(s, m);
      EmptyRun(s);
      assert Fragments(m)[..0] == [];
    } else {
      HalfWay(s, m, i - 1);
      var t := s[m.cid := Partial(m, i - 1)];
      ContStep(t, m, i - 1);
      assert t - {m.cid} == s - {m.cid};
    }
  }

  /** Self-stabilisation: whatever the table held before, the consecutive packets of a
      message whose length fits the byte count return nothing until the last one, then
      exactly that message. A single-packet message leaves every partial message alone;
      a longer one leaves the table without an entry on its channel. */
  lemma Delivers(s: Channels, m: Message)
    requires ValidChannels(s) && |m.payload| <= COUNT_LIMIT
    ensures forall i | 0 <= i < |Fragments(m)| ::
              Output(s, Fragments(m), i) == if i == |Fragments(m)| - 1 then Some(m) else None
    ensures After(s, Fragments(m)) == if |m.payload| <= INIT_DATA then s else s - {m.cid}
    ensures Deliveries(s, Fragments(m)) == [m]
  {
    hide Step, Fragments;
    forall i | 0 <= i < |Fragments(m)|
      ensures Output(s, Fragments(m), i) == if i == |Fragments(m)| - 1 then Some(m) else None
    {
      FragmentStep(s, m, i);
    }
    hide After, Deliveries, Output;
    var n := |Fragments(m)| - 1;
    var q, p := Fragments(m)[..n], Fragments(m)[n];
    FragmentStep(s, m, n);
    assert Fragments(m) == q + [p];
    RunSnoc(s, q, p);
  }

  lemma OverflowsAt(s: Channels, m: Message, i: nat)
    requires ValidChannels(s) && |m.payload| <= COUNT_LIMIT && i < |Fragments(m)|
    ensures Overflows(After(s, Fragments(m)[..i]), Fragments(m)[i]) <==> i > 0 && i % 0x100 == 0
  {
    hide Fragments, After, Fit, Deliveries, ValidChannels;
    FragmentAt(m, i);
    if i > 0 {
      HalfWay(s, m, i - 1);
    }
  }

  /** The `u8` counter of the receiver holds out exactly as long as that of the sender: a
      debug build of `handle_packet` takes all packets of a message without panicking
      exactly when `to_packets` would not have panicked on it. */
  lemma CountersAgree(s: Channels, m: Message)
    requires ValidChannels(s) && |m.payload| <= COUNT_LIMIT
    ensures (forall i | 0 <= i < |Fragments(m)| :: !Overflows(After(s, Fragments(m)[..i]), Fragments(m)[i]))
            <==> |m.payload| <= COUNTER_LIMIT
  {
    hide Fragments, After, Overflows;
    forall i | 0 <= i < |Fragments(m)|
      ensures Overflows(After(s, Fragments(m)[..i]), Fragments(m)[i]) <==> i > 0 && i % 0x100 == 0
    {
      OverflowsAt(s, m, i);
    }
    if |m.payload| > COUNTER_LIMIT {
      assert Overflows(After(s, Fragments(m)[..256]), Fragments(m)[256]);
    }
  }

  lemma {:induction false} DeliveredFitCount(s: Channels, ps: seq<Packet>)
    requires ValidChannels(s)
    ensures forall m | m in Deliveries(s, ps) :: |m.payload| <= COUNT_LIMIT
  {
    if ps == [] {
    } else {
      DeliveredFitCount(s, ps[..|ps| - 1]);
    }
  }

  /** In memory a message comes back from its packets exactly when its length fits the byte count. */
  lemma InMemoryRoundTrip(s: Channels, m: Message)
    requires ValidChannels(s)
    ensures Deliveries(s, Fragments(m)) == [m] <==> |m.payload| <= COUNT_LIMIT
  {
    hide Step, Fragments;
    if |m.payload| <= COUNT_LIMIT {
      Delivers(s, m);
    } else {
      DeliveredFitCount(s, Fragments(m));
      var ds := Deliveries(s, Fragments(m));
      assert |ds| == 1 ==> ds[0] in ds;
    }
  }

  lemma {:induction false} ReceivedReports(m: Message, n: nat)
    requires n <= |Reports(m)| && TypeBit(m.cmd) && |m.payload| <= WIRE_LIMIT
    ensures Received(Reports(m)[..n]) == Fragments(m)[..n]
  {
    hide Fragments, Parse, Serialize, WireForm;
    if n == 0 {
    } else {
      ReceivedReports(m, n - 1);
      FragmentsInWireForm(m);
      var p := Fragments(m)[n - 1];
      assert p in Fragments(m);
      ParseSerialize(p);
      assert Reports(m)[..n][..n - 1] == Reports(m)[..n - 1];
      assert Fragments(m)[..n] == Fragments(m)[..n - 1] + [p];
    }
  }

  /** Over the wire a message comes back from its reports exactly when its command has
      bit 7 set and its payload has at most 7609 bytes. */
  lemma WireRoundTrip(s: Channels, m: Message)
    requires WireChannels(s)
    ensures Deliveries(s, Received(Reports(m))) == [m] <==> TypeBit(m.cmd) && |m.payload| <= WIRE_LIMIT
  {
    hide Step, Fragments;
    if TypeBit(m.cmd) && |m.payload| <= WIRE_LIMIT {
      ReceivedReports(m, |Reports(m)|);
      assert Reports(m)[..|Reports(m)|] == Reports(m) && Fragments(m)[..|Reports(m)|] == Fragments(m);
      Delivers(s, m);
    } else {
      WireRun(s, Reports(m));
      var ds := Deliveries(s, Received(Reports(m)));
      assert |ds| == 1 ==> ds[0] in ds;
    }
  }

  // ---- Back-to-back messages on one channel, any traffic on the others ----------------

  function Fragmented(queue: seq<Message>): seq<Packet> {
    if queue == [] then [] else Fragmented(queue[..|queue| - 1]) + Fragments(queue[|queue| - 1])
  }

  predicate Queue(queue: seq<Message>, c: uint32) {
    forall i | 0 <= i < |queue| :: queue[i].cid == c && |queue[i].payload| <= COUNT_LIMIT
  }

  lemma {:induction false} QueueAlone(queue: seq<Message>, c: uint32)
    requires Queue(queue, c)
    ensures After(map[], Fragmented(queue)) == map[]
    ensures Deliveries(map[], Fragmented(queue)) == queue
  {
    hide Step, Fragments, After, Deliveries;
    EmptyRun(map[]);
    if queue == [] {
    } else {
      var q, m := queue[..|queue| - 1], queue[|queue| - 1];
      QueueAlone(q, c);
      Delivers(map[], m);
      RunConcat(map[], Fragmented(q), Fragments(m));
      assert queue == q + [m];
    }
  }

  /** Whatever else is interleaved on other channels: if the packets on `c` are those of a
      queue of messages sent back to back, exactly that queue is delivered on `c`, in
      order, and nothing is left over there. */
  lemma QueueDelivered(ps: seq<Packet>, queue: seq<Message>, c: uint32)
    requires Queue(queue, c) && On(ps, c) == Fragmented(queue)
    ensures MessagesOn(Deliveries(map[], ps), c) == queue
    ensures c !in After(map[], ps)
  {
    hide Step, Fragmented, After, Deliveries, On, MessagesOn;
    QueueAlone(queue, c);
    NonInterference(map[], ps, c);
    assert Only(map[], c) == map[];
    ChannelEmpties(ps, c);
  }

  // ---- One message per channel, interleaved packet by packet ---------------------------

  /** How many of the first `k` tags are `i`. */
  function Count(tags: seq<nat>, k: nat, i: nat): nat
    requires k <= |tags|
  {
    if k == 0 then 0 else Count(tags, k - 1, i) + if tags[k - 1] == i then 1 else 0
  }

  /** The `k`-th thing sent is the next unsent one of part `tags[k]`. */
  predicate SendsNext<T(==)>(sent: seq<T>, tags: seq<nat>, parts: seq<seq<T>>, k: nat)
    requires k < |tags| == |sent|
  {
    tags[k] < |parts|
    && Count(tags, k, tags[k]) < |parts[tags[k]]|
    && sent[k] == parts[tags[k]][Count(tags, k, tags[k])]
  }

  /** `sent` is an order-preserving interleaving of all of `parts`, with `tags[k]` naming
      the part that its `k`-th element comes from. */
  predicate Interleaves<T(==)>(sent: seq<T>, tags: seq<nat>, parts: seq<seq<T>>) {
    && |tags| == |sent|
    && (forall k | 0 <= k < |tags| :: SendsNext(sent, tags, parts, k))
    && (forall i | 0 <= i < |parts| :: Count(tags, |tags|, i) == |parts[i]|)
  }

  predicate DistinctChannels(ms: seq<Message>) {
    forall i, j | 0 <= i < j < |ms| :: ms[i].cid != ms[j].cid
  }

  function AllFragments(ms: seq<Message>): seq<seq<Packet>> { seq(|ms|, i requires 0 <= i < |ms| => Fragments(ms[i])) }

  function AllReports(ms: seq<Message>): seq<seq<Report>> { seq(|ms|, i requires 0 <= i < |ms| => Reports(ms[i])) }

  /** The next packet of an interleaving, spelled out. */
  lemma NextPacket(ps: seq<Packet>, tags: seq<nat>, ms: seq<Message>, k: nat)
    requires Interleaves(ps, tags, AllFragments(ms)) && k < |ps|
    ensures |tags| == |ps| && tags[k] < |ms|
    ensures var n := Count(tags, k, tags[k]); n < |Fragments(ms[tags[k]])| && ps[k] == Fragments(ms[tags[k]])[n]
    ensures ps[k].cid == ms[tags[k]].cid
  {
    hide Count, Fragments;
    assert SendsNext(ps, tags, AllFragments(ms), k);
    FragmentAt(ms[tags[k]], Count(tags, k, tags[k]));
  }

  /** The next packet belongs to message `i` exactly if it is on its channel. */
  lemma NextIsMine(ps: seq<Packet>, tags: seq<nat>, ms: seq<Message>, k: nat, i: nat)
    requires Interleaves(ps, tags, AllFragments(ms)) && DistinctChannels(ms) && k < |ps| && i < |ms|
    ensures |tags| == |ps| && (tags[k] == i <==> ps[k].cid == ms[i].cid)
    ensures tags[k] == i ==>
              var n := Count(tags, k, i);
              n < |Fragments(ms[i])| && ps[k] == Fragments(ms[i])[n]
  {
    NextPacket(ps, tags, ms, k);
    hide Interleaves, Fragments, Count;
  }

  /** One more packet of an interleaving, seen from channel `c`. */
  lemma SentNext(q: seq<Packet>, p: Packet, f: seq<Packet>, n: nat, c: uint32)
    requires n <= |f| && On(q, c) == f[..n]
    requires p.cid == c ==> n < |f| && p == f[n]
    ensures On(q + [p], c) == if p.cid == c then f[..n + 1] else f[..n]
  {
    OnSnoc(q, p, c);
  }

  /** So far, channel `c` has seen the packets of its message in order. */
  lemma {:induction false} SentSoFar(ps: seq<Packet>, tags: seq<nat>, ms: seq<Message>, k: nat, i: nat)
    requires Interleaves(ps, tags, AllFragments(ms)) && DistinctChannels(ms) && k <= |ps| && i < |ms|
    ensures Count(tags, k, i) <= |Fragments(ms[i])|
    ensures On(ps[..k], ms[i].cid) == Fragments(ms[i])[..Count(tags, k, i)]
  {
    if k == 0 {
    } else {
      hide Interleaves, Fragments, On, DistinctChannels, AllFragments;
      NextIsMine(ps, tags, ms, k - 1, i);
      SentSoFar(ps, tags, ms, k - 1, i);
      SentNext(ps[..k - 1], ps[k - 1], Fragments(ms[i]), Count(tags, k - 1, i), ms[i].cid);
      assert ps[..k] == ps[..k - 1] + [ps[k - 1]];
    }
  }

  lemma {:induction false} SilentSoFar(ps: seq<Packet>, tags: seq<nat>, ms: seq<Message>, k: nat, c: uint32)
    requires Interleaves(ps, tags, AllFragments(ms)) && k <= |ps|
    requires forall i | 0 <= i < |ms| :: ms[i].cid != c
    ensures On(ps[..k], c) == []
  {
    if k == 0 {
    } else {
      NextPacket(ps, tags, ms, k - 1);
      SilentSoFar(ps, tags, ms, k - 1, c);
      hide Interleaves, Fragments;
      OnSnoc(ps[..k - 1], ps[k - 1], c);
      assert ps[..k] == ps[..k - 1] + [ps[k - 1]];
    }
  }

  /** What the `k`-th packet of an interleaving should return: its message if it is the
      last packet of that message, and nothing otherwise. */
  function Due(tags: seq<nat>, ms: seq<Message>, k: nat): Option<Message>
    requires k < |tags| && tags[k] < |ms|
  {
    var m := ms[tags[k]];
    if Count(tags, k, tags[k]) == |Fragments(m)| - 1 then Some(m) else None
  }

  lemma InterleavedOutput(ps: seq<Packet>, tags: seq<nat>, ms: seq<Message>, k: nat)
    requires Interleaves(ps, tags, AllFragments(ms)) && DistinctChannels(ms) && k < |ps|
    requires forall i | 0 <= i < |ms| :: |ms[i].payload| <= COUNT_LIMIT
    ensures |tags| == |ps| && tags[k] < |ms| && Output(map[], ps, k) == Due(tags, ms, k)
  {
    NextPacket(ps, tags, ms, k);
    SentSoFar(ps, tags, ms, k, tags[k]);
    hide Interleaves, Fragments, Step, After, On, Count;
    var m, q := ms[tags[k]], ps[..k];
    NonInterference(map[], q, m.cid);
    assert Only(map[], m.cid) == map[];
    StepIsLocal(After(map[], q), ps[k], m.cid);
    FragmentStep(map[], m, Count(tags, k, tags[k]));
  }

  lemma DeliveredOnce(ps: seq<Packet>, tags: seq<nat>, ms: seq<Message>, i: nat)
    requires Interleaves(ps, tags, AllFragments(ms)) && DistinctChannels(ms) && i < |ms|
    requires |ms[i].payload| <= COUNT_LIMIT
    ensures MessagesOn(Deliveries(map[], ps), ms[i].cid) == [ms[i]]
    ensures ms[i].cid !in After(map[], ps)
  {
    var n := |ps|;
    assert ps[..n] == ps;
    hide Fragments, Step, After, On, Count, Interleaves;
    SentSoFar(ps, tags, ms, n, i);
    AllSent(ps, tags, ms, i);
    assert Fragments(ms[i])[..|Fragments(ms[i])|] == Fragments(ms[i]);
    assert Fragmented([ms[i]]) == Fragments(ms[i]);
    QueueDelivered(ps, [ms[i]], ms[i].cid);
  }

  lemma NothingLeft(ps: seq<Packet>, tags: seq<nat>, ms: seq<Message>, c: uint32)
    requires Interleaves(ps, tags, AllFragments(ms)) && DistinctChannels(ms)
    requires forall i | 0 <= i < |ms| :: |ms[i].payload| <= COUNT_LIMIT
    ensures c !in After(map[], ps)
  {
    var n := |ps|;
    assert ps[..n] == ps;
    hide Fragments, Step, After, On, Count, Interleaves;
    if i :| 0 <= i < |ms| && ms[i].cid == c {
      DeliveredOnce(ps, tags, ms, i);
    } else {
      SilentSoFar(ps, tags, ms, n, c);
      EmptyRun(map[]);
      ChannelEmpties(ps, c);
    }
  }

  lemma AllSent(ps: seq<Packet>, tags: seq<nat>, ms: seq<Message>, i: nat)
    requires Interleaves(ps, tags, AllFragments(ms)) && i < |ms|
    ensures |tags| == |ps| && Count(tags, |ps|, i) == |Fragments(ms[i])|
  {
    hide Count, Fragments;
    assert AllFragments(ms)[i] == Fragments(ms[i]);
  }

  // ---- The same over the wire -----------------------------------------------------------

  ghost predicate Sendable(ms: seq<Message>) {
    DistinctChannels(ms) && forall i | 0 <= i < |ms| :: DeliverableOnWire(ms[i])
  }

  /** `bufs` is the stream as it arrives, each report behind some report-ID byte. */
  ghost predicate Arrives(bufs: seq<Buffer>, stream: seq<Report>) {
    |bufs| == |stream| && forall k | 0 <= k < |bufs| :: |bufs[k]| == 65 && bufs[k][1..] == stream[k]
  }

  lemma {:induction false} ReceivedAll(bufs: seq<Buffer>)
    requires forall k | 0 <= k < |bufs| :: Parse(bufs[k]).Some?
    ensures |Received(bufs)| == |bufs|
    ensures forall k | 0 <= k < |bufs| :: Received(bufs)[k] == Parse(bufs[k]).value
  {
    hide Parse;
    if bufs == [] {
    } else {
      ReceivedAll(bufs[..|bufs| - 1]);
    }
  }

  lemma ArrivesAsFragment(bufs: seq<Buffer>, stream: seq<Report>, tags: seq<nat>, ms: seq<Message>, k: nat)
    requires Arrives(bufs, stream) && Interleaves(stream, tags, AllReports(ms)) && Sendable(ms) && k < |bufs|
    ensures |tags| == |bufs| && tags[k] < |ms|
    ensures var n := Count(tags, k, tags[k]);
            n < |Fragments(ms[tags[k]])| && Parse(bufs[k]) == Some(Fragments(ms[tags[k]])[n])
  {
    hide Parse, Serialize, WireForm, Count, Fragments;
    assert SendsNext(stream, tags, AllReports(ms), k);
    var m, n := ms[tags[k]], Count(tags, k, tags[k]);
    var p := Fragments(m)[n];
    assert p in Fragments(m);
    FragmentsInWireForm(m);
    ParseSerialize(p);
    assert bufs[k] == [bufs[k][0]] + stream[k];
    ParseIgnoresFraming(bufs[k][0], stream[k], []);
  }

  lemma SendsFragment(ps: seq<Packet>, tags: seq<nat>, ms: seq<Message>, k: nat)
    requires k < |ps| == |tags| && tags[k] < |ms|
    requires Count(tags, k, tags[k]) < |Fragments(ms[tags[k]])|
             && ps[k] == Fragments(ms[tags[k]])[Count(tags, k, tags[k])]
    ensures SendsNext(ps, tags, AllFragments(ms), k)
  {
    hide Count, Fragments;
  }

  lemma ReceivedInterleaving(bufs: seq<Buffer>, stream: seq<Report>, tags: seq<nat>, ms: seq<Message>)
    requires Arrives(bufs, stream) && Interleaves(stream, tags, AllReports(ms)) && Sendable(ms)
    ensures |Received(bufs)| == |bufs| && Interleaves(Received(bufs), tags, AllFragments(ms))
  {
    hide Parse, Fragments, Count, Received, SendsNext;
    assert forall i | 0 <= i < |ms| :: |AllReports(ms)[i]| == |AllFragments(ms)[i]|;
    hide AllReports, AllFragments, Reports;
    forall k | 0 <= k < |bufs|
      ensures Parse(bufs[k]).Some?
    {
      ArrivesAsFragment(bufs, stream, tags, ms, k);
    }
    ReceivedAll(bufs);
    forall k | 0 <= k < |bufs|
      ensures SendsNext(Received(bufs), tags, AllFragments(ms), k)
    {
      ArrivesAsFragment(bufs, stream, tags, ms, k);
      SendsFragment(Received(bufs), tags, ms, k);
    }
  }

  /** End-to-end delivery under concurrency. Take any messages on distinct channels, each
      with bit 7 of its command set and at most 7609 payload bytes, and any
      order-preserving interleaving of their reports, each behind a report-ID byte. From
      an empty table every report parses; each message is returned at its own last report,
      intact, and nothing is returned at any other report; and the table ends up empty. */
  lemma InterleavedDelivery(bufs: seq<Buffer>, stream: seq<Report>, tags: seq<nat>, ms: seq<Message>)
    requires Arrives(bufs, stream) && Interleaves(stream, tags, AllReports(ms)) && Sendable(ms)
    ensures |Received(bufs)| == |bufs| == |tags|
    ensures forall k | 0 <= k < |bufs| :: tags[k] < |ms| && Output(map[], Received(bufs), k) == Due(tags, ms, k)
    ensures forall i | 0 <= i < |ms| :: MessagesOn(Deliveries(map[], Received(bufs)), ms[i].cid) == [ms[i]]
    ensures After(map[], Received(bufs)) == map[]
  {
    ReceivedInterleaving(bufs, stream, tags, ms);
    hide Interleaves, Arrives, Received, After, Output, Count, Fragments, Step, Due;
    var ps := Received(bufs);
    forall k | 0 <= k < |bufs|
      ensures |tags| == |bufs| && tags[k] < |ms| && Output(map[], ps, k) == Due(tags, ms, k)
    {
      InterleavedOutput(ps, tags, ms, k);
    }
    forall i | 0 <= i < |ms|
      ensures MessagesOn(Deliveries(map[], ps), ms[i].cid) == [ms[i]]
    {
      DeliveredOnce(ps, tags, ms, i);
    }
    forall c: uint32
      ensures c !in After(map[], ps)
    {
      NothingLeft(ps, tags, ms, c);
    }
  }
}
