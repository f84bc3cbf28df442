/** Whole runs of the reassembler: composition, independence of channels, and what a
    run over the wire can and cannot deliver. */
module CtapHidRuns {
  import opened Bytes
  import opened CtapHidPacket
  import opened CtapHidMessage
  import opened CtapHidReassembler

  /** The channel table after a run. */
  function After(s: Channels, ps: seq<Packet>): (r: Channels)
    requires ValidChannels(s)
    ensures ValidChannels(r)
  {
    if ps == [] then s else Step(After(s, ps[..|ps| - 1]), ps[|ps| - 1]).channels
  }

  /** What the `i`-th packet of a run returns. */
  function Output(s: Channels, ps: seq<Packet>, i: nat): Option<Message>
    requires ValidChannels(s) && i < |ps|
  {
    Step(After(s, ps[..i]), ps[i]).output
  }

  function Listed<T>(o: Option<T>): seq<T> { if o.Some? then [o.value] else [] }

  /** Every message a run returns, in order. */
  function Deliveries(s: Channels, ps: seq<Packet>): seq<Message>
    requires ValidChannels(s)
  {
    if ps == [] then []
    else Deliveries(s, ps[..|ps| - 1]) + Listed(Output(s, ps, |ps| - 1))
  }

  lemma EmptyRun(s: Channels)
    requires ValidChannels(s)
    ensures After(s, []) == s && Deliveries(s, []) == []
  {
  }

  lemma RunSnoc(s: Channels, q: seq<Packet>, p: Packet)
    requires ValidChannels(s)
    ensures After(s, q + [p]) == Step(After(s, q), p).channels
    ensures Deliveries(s, q + [p]) == Deliveries(s, q) + Listed(Step(After(s, q), p).output)
  {
    hide Step;
    assert (q + [p])[..|q + [p]| - 1] == q;
  }

  lemma {:induction false} AfterConcat(s: Channels, a: seq<Packet>, b: seq<Packet>)
    requires ValidChannels(s)
    ensures After(s, a + b) == After(After(s, a), b)
  {
    hide Step;
    if b == [] {
      assert a + b == a;
    } else {
      var c, p := b[..|b| - 1], b[|b| - 1];
      AfterConcat(s, a, c);
      assert a + b == (a + c) + [p];
      RunSnoc(s, a + c, p);
    }
  }

  lemma {:induction false} RunConcat(s: Channels, a: seq<Packet>, b: seq<Packet>)
    requires ValidChannels(s)
    ensures After(s, a + b) == After(After(s, a), b)
    ensures Deliveries(s, a + b) == Deliveries(s, a) + Deliveries(After(s, a), b)
  {
    hide Step, After, Output;
    AfterConcat(s, a, b);
    if b == [] {
      assert a + b == a;
    } else {
      hide Deliveries;
      var c, p := b[..|b| - 1], b[|b| - 1];
      RunConcat(s, a, c);
      assert b == c + [p] && a + b == (a + c) + [p];
      RunSnoc(s, a + c, p);
      RunSnoc(After(s, a), c, p);
      ConcatAssociative(Deliveries(s, a), Deliveries(After(s, a), c), Listed(Step(After(s, a + c), p).output));
    }
  }

  // ---- Independence of channels -----------------------------------------------------

  function On(ps: seq<Packet>, c: uint32): seq<Packet> {
    if ps == [] then []
    else
      var p := ps[|ps| - 1];
      On(ps[..|ps| - 1], c) + if p.cid == c then [p] else []
  }

  lemma OnSnoc(q: seq<Packet>, p: Packet, c: uint32)
    ensures On(q + [p], c) == On(q, c) + if p.cid == c then [p] else []
  {
    assert (q + [p])[..|q|] == q;
  }

  function MessagesOn(ms: seq<Message>, c: uint32): seq<Message> {
    if ms == [] then []
    else
      var m := ms[|ms| - 1];
      MessagesOn(ms[..|ms| - 1], c) + if m.cid == c then [m] else []
  }

  /** The channel table restricted to one channel. */
  function Only(s: Channels, c: uint32): Channels { map k | k in s && k == c :: s[k] }

  lemma StepIsLocal(s: Channels, p: Packet, c: uint32)
    requires ValidChannels(s)
    ensures p.cid == c ==> Step(Only(s, c), p) == StepResult(Only(Step(s, p).channels, c), Step(s, p).output)
    ensures p.cid != c ==> Only(Step(s, p).channels, c) == Only(s, c)
    ensures Step(s, p).output.Some? ==> Step(s, p).output.value.cid == p.cid
  {
    var r := Step(s, p).channels;
    assert p.cid != c ==> (c in s <==> c in r);
    if p.cid == c && c in s {
      assert Only(s, c)[c] == s[c];
    }
  }

  /** Non-interference: on every channel, a run does to the table and delivers exactly
      what it would with the packets of all other channels taken away. */
  lemma {:induction false} NonInterference(s: Channels, ps: seq<Packet>, c: uint32)
    requires ValidChannels(s)
    ensures After(Only(s, c), On(ps, c)) == Only(After(s, ps), c)
    ensures Deliveries(Only(s, c), On(ps, c)) == MessagesOn(Deliveries(s, ps), c)
  {
    hide Step;
    if ps == [] {
    } else {
      var q, p := ps[..|ps| - 1], ps[|ps| - 1];
      var o, ds := Step(After(s, q), p).output, Deliveries(s, q);
      NonInterference(s, q, c);
      StepIsLocal(After(s, q), p, c);
      if o.Some? {
        assert (ds + [o.value])[..|ds|] == ds;
        assert MessagesOn(ds + [o.value], c) == MessagesOn(ds, c) + if p.cid == c then [o.value] else [];
      } else {
        assert ds + Listed(o) == ds;
      }
      if p.cid == c {
        RunSnoc(Only(s, c), On(q, c), p);
      } else {
        assert On(ps, c) == On(q, c);
      }
    }
  }

  lemma ChannelEmpties(ps: seq<Packet>, c: uint32)
    requires After(map[], On(ps, c)) == map[]
    ensures c !in After(map[], ps)
  {
    hide Step, After, Deliveries, On, MessagesOn;
    NonInterference(map[], ps, c);
    assert Only(map[], c) == map[];
    assert c in After(map[], ps) <==> c in Only(After(map[], ps), c);
  }

  // ---- Runs fed by the parser -------------------------------------------------------

  /** The packets a sequence of raw buffers yields; buffers that do not parse are dropped. */
  function Received(bufs: seq<Buffer>): seq<Packet> {
    if bufs == [] then [] else Received(bufs[..|bufs| - 1]) + Listed(Parse(bufs[|bufs| - 1]))
  }

  /** Holds on every channel table a run over the wire can reach: the counter is exact,
      not merely right modulo 256, and never passes 0x80. */
  predicate WireChannels(s: Channels) {
    forall c | c in s :: ValidEntry(s[c]) && s[c].nextSeq == Taken(s[c]) <= 0x80 && TypeBit(s[c].cmd)
  }

  predicate DeliverableOnWire(m: Message) { TypeBit(m.cmd) && |m.payload| <= WIRE_LIMIT }

  lemma WireStep(s: Channels, p: Packet)
    requires WireChannels(s) && WireForm(p)
    ensures WireChannels(Step(s, p).channels) && !Overflows(s, p)
    ensures Step(s, p).output.Some? ==> DeliverableOnWire(Step(s, p).output.value)
  {
  }

  /** Over the wire, whatever bytes arrive: the `u8` counter never overflows, so a debug
      build never panics in `handle_packet`, and every delivered message has bit 7 of its
      command set and at most 7609 payload bytes, whatever byte count was claimed. */
  lemma {:induction false} WireRun(s: Channels, bufs: seq<Buffer>)
    requires WireChannels(s)
    ensures WireChannels(After(s, Received(bufs)))
    ensures forall i | 0 <= i < |Received(bufs)| :: !Overflows(After(s, Received(bufs)[..i]), Received(bufs)[i])
    ensures forall m | m in Deliveries(s, Received(bufs)) :: DeliverableOnWire(m)
  {
    WireForms(bufs);
    WirePackets(s, Received(bufs));
  }

  lemma {:induction false} WireForms(bufs: seq<Buffer>)
    ensures forall p | p in Received(bufs) :: WireForm(p)
  {
    if bufs == [] {
    } else {
      WireForms(bufs[..|bufs| - 1]);
    }
  }

  lemma {:induction false} WirePackets(s: Channels, ps: seq<Packet>)
    requires WireChannels(s)
    requires forall p | p in ps :: WireForm(p)
    ensures WireChannels(After(s, ps))
    ensures forall i | 0 <= i < |ps| :: !Overflows(After(s, ps[..i]), ps[i])
    ensures forall m | m in Deliveries(s, ps) :: DeliverableOnWire(m)
  {
    hide Step, Overflows, WireForm, DeliverableOnWire;
    if ps == [] {
    } else {
      var q, p := ps[..|ps| - 1], ps[|ps| - 1];
      WirePackets(s, q);
      WireStep(After(s, q), p);
      forall i | 0 <= i < |ps| ensures !Overflows(After(s, ps[..i]), ps[i]) {
        if i < |q| {
          assert ps[..i] == q[..i] && ps[i] == q[i];
        } else {
          assert ps[..i] == q;
        }
      }
    }
  }
}
