/** Loss, repetition and reordering of one message's packets: exactly when a delivery can be
    trusted. */
module CtapHidLoss {
  import opened Bytes
  import opened CtapHidPacket
  import opened CtapHidMessage
  import opened CtapHidReassembler
  import opened CtapHidRuns
  import opened CtapHidHistory

  predicate PacketsOf(m: Message, ps: seq<Packet>) { forall t | 0 <= t < |ps| :: ps[t] in Fragments(m) }

  lemma StartOf(m: Message, p: Packet)
    requires p in Fragments(m) && p.Init?
    ensures p == InitFragment(m)
  {
    hide Fit, Fragments;
    var i :| 0 <= i < |Fragments(m)| && Fragments(m)[i] == p;
    FragmentAt(m, i);
  }

  lemma ContOf(m: Message, p: Packet) returns (j: nat)
    requires p in Fragments(m) && p.Cont?
    ensures Capacity(j) < |m.payload| && p == ContFragment(m, j)
  {
    hide Fit, Fragments;
    var i :| 0 <= i < |Fragments(m)| && Fragments(m)[i] == p;
    FragmentAt(m, i);
    j := i - 1;
  }

  /** A multi-packet init and nothing but continuations after it, all on one channel. */
  lemma {:induction false} LatestOfWord(start: Packet, ks: seq<Packet>)
    requires Starts(start) && AllCont(ks) && forall t | 0 <= t < |ks| :: ks[t].cid == start.cid
    ensures Latest([start] + ks, start.cid) == Attempt(start, ks)
  {
    var w, n := [start] + ks, |ks|;
    if ks == [] {
      assert w == [start] && w[..0] == [];
    } else {
      LatestOfWord(start, ks[..n - 1]);
      assert w[..n] == [start] + ks[..n - 1] && w[n] == ks[n - 1] && ks == ks[..n - 1] + [ks[n - 1]];
    }
  }

  /** The packet that completes such a word delivers what it gathered. */
  lemma WordDelivers(start: Packet, ks: seq<Packet>)
    requires Starts(start) && AllCont(ks) && forall t | 0 <= t < |ks| :: ks[t].cid == start.cid
    requires ks != [] && Complete(Attempt(start, ks))
    ensures Output(map[], [start] + ks, |ks|) == Some(Assembled(Attempt(start, ks)))
  {
    hide Latest, Output;
    LatestOfWord(start, ks);
    var w := [start] + ks;
    assert w[..|ks| + 1] == w && w[|ks|] == ks[|ks| - 1];
    DeliveredExactlyWhen(w, |ks|, Assembled(Attempt(start, ks)));
  }

  // ---- Loss ----------------------------------------------------------------------------------------

  lemma CompleteTakesAll(m: Message, a: Attempt)
    requires |m.payload| <= COUNT_LIMIT && WellFormed(a) && Complete(a) && a.start == InitFragment(m)
    ensures |a.conts| + 1 >= |Fragments(m)|
  {
    hide Fit, Fragments, InSequence;
  }

  /** A delivery takes as many packets as the byte count asks for: fewer packets of a message
      than were sent, in whatever order and however often repeated, deliver nothing. */
  lemma TooFewPackets(m: Message, w: seq<Packet>, i: nat)
    requires |m.payload| <= COUNT_LIMIT && PacketsOf(m, w)
    requires i < |w| < |Fragments(m)|
    ensures Output(map[], w, i) == None
  {
    hide Step, Fit, Latest, InSequence, ContBytes, Output;
    if Output(map[], w, i).Some? {
      DeliveredExactlyWhen(w, i, Output(map[], w, i).value);
      var a := Latest(w[..i + 1], w[i].cid);
      LatestOnChannel(w[..i + 1], w[i].cid);
      if w[i].Cont? {
        hide Fragments, Complete, InitFragment;
        assert a.start in Fragments(m);
        StartOf(m, a.start);
        CompleteTakesAll(m, a);
      } else {
        StartOf(m, w[i]);
      }
    }
  }

  /** `w` is what is left of `ps` after losing packets: those at the positions `kept`. */
  predicate Subsequence(w: seq<Packet>, ps: seq<Packet>, kept: seq<nat>) {
    && |kept| == |w|
    && (forall t | 0 <= t < |kept| :: kept[t] < |ps| && w[t] == ps[kept[t]])
    && (forall t, u | 0 <= t < u < |kept| :: kept[t] < kept[u])
  }

  lemma {:induction false} LossDeliversNothing(m: Message, w: seq<Packet>, kept: seq<nat>)
    requires |m.payload| <= COUNT_LIMIT && Subsequence(w, Fragments(m), kept) && |w| < |Fragments(m)|
    ensures Deliveries(map[], w) == []
  {
    hide Step, Fragments, After, Output;
    if w == [] {
    } else {
      var n := |w| - 1;
      LossDeliversNothing(m, w[..n], kept[..n]);
      assert PacketsOf(m, w);
      TooFewPackets(m, w, n);
    }
  }

  /** The first packets of a message too long for the byte count: as many as the truncated
      count asks for. */
  function TruncatedPrefix(m: Message): (ps: seq<Packet>)
    requires |m.payload| > COUNT_LIMIT
    ensures 1 <= |ps| < |Fragments(m)| && ps == Fragments(m)[..|ps|]
  {
    Fragments(m)[..1 + ContCount(|m.payload| % 0x1_0000)]
  }

  lemma TruncatedDelivers(m: Message)
    requires |m.payload| > COUNT_LIMIT
    ensures var ps := TruncatedPrefix(m);
            var o := Output(map[], ps, |ps| - 1);
            o.Some? && |o.value.payload| <= COUNT_LIMIT
  {
    hide Fit, Latest, ContBytes, Step, After, Output;
    var ps, count := TruncatedPrefix(m), |m.payload| % 0x1_0000;
    var n := |ps| - 1;
    FragmentAt(m, 0);
    if count <= INIT_DATA {
      DeliveredExactlyWhen(ps, n, Message(m.cid, m.cmd, ps[0].data[..count]));
    } else {
      forall t | 0 <= t < n ensures ps[1..][t].Cont? && ps[1..][t].seqNo == t % 0x100 && ps[1..][t].cid == m.cid {
        FragmentAt(m, t + 1);
      }
      assert ps == [ps[0]] + ps[1..];
      WordDelivers(ps[0], ps[1..]);
    }
  }

  ghost predicate LossSafe(m: Message) {
    forall w, kept | Subsequence(w, Fragments(m), kept) && |w| < |Fragments(m)| :: Deliveries(map[], w) == []
  }

  /** Loss safety, and its exact limit: every proper subsequence of a message's packets
      delivers nothing exactly when the byte count holds the message's length. Beyond that
      the truncated count is reached before all packets have arrived. */
  lemma LossIsSafe(m: Message)
    ensures LossSafe(m) <==> |m.payload| <= COUNT_LIMIT
  {
    hide Fragments, Output;
    if |m.payload| <= COUNT_LIMIT {
      forall w, kept | Subsequence(w, Fragments(m), kept) && |w| < |Fragments(m)|
        ensures Deliveries(map[], w) == []
      {
        LossDeliversNothing(m, w, kept);
      }
    } else {
      var ps := TruncatedPrefix(m);
      TruncatedDelivers(m);
      var kept := seq(|ps|, t => t);
      assert Subsequence(ps, Fragments(m), kept);
      assert Deliveries(map[], ps) == Deliveries(map[], ps[..|ps| - 1]) + Listed(Output(map[], ps, |ps| - 1));
    }
  }

  // ---- Repetition and reordering ---------------------------------------------------------------------

  /** Sequence numbers of one message are distinct up to here. */
  const DISTINCT_LIMIT := INIT_DATA + 256 * CONT_DATA

  /** Continuation `j` carries what the payload has in the place of continuation `k`. */
  predicate Agrees(m: Message, k: nat, j: nat)
    requires Capacity(j) < |m.payload|
  {
    forall x: nat | x < CONT_DATA && Capacity(k) + x < |m.payload| ::
      ContFragment(m, j).rest[x] == m.payload[Capacity(k) + x]
  }

  /** Continuations that share a sequence number are interchangeable. */
  ghost predicate Interchangeable(m: Message) {
    forall k: nat, j: nat | Capacity(k) < |m.payload| && Capacity(j) < |m.payload| && k % 0x100 == j % 0x100 ::
      Agrees(m, k, j)
  }

  lemma ShortIsInterchangeable(m: Message)
    requires |m.payload| <= DISTINCT_LIMIT
    ensures Interchangeable(m)
  {
    forall k: nat, j: nat | Capacity(k) < |m.payload| && Capacity(j) < |m.payload| && k % 0x100 == j % 0x100
      ensures Agrees(m, k, j)
    {
      assert k < 0x100 && j < 0x100;
      OwnData(m, k);
    }
  }

  lemma OwnData(m: Message, k: nat)
    requires Capacity(k) < |m.payload|
    ensures Agrees(m, k, k)
  {
  }

  lemma {:induction false} ContByte(ks: seq<Packet>, t: nat, x: nat)
    requires AllCont(ks) && t < |ks| && x < CONT_DATA
    ensures ContBytes(ks)[CONT_DATA * t + x] == ks[t].rest[x]
  {
    if t == |ks| - 1 {
    } else {
      ContByte(ks[..|ks| - 1], t, x);
    }
  }

  lemma GatheredByte(m: Message, a: Attempt, b: nat)
    requires |m.payload| <= COUNT_LIMIT && Interchangeable(m)
    requires WellFormed(a) && a.Attempt? && a.start == InitFragment(m) && PacketsOf(m, a.conts) && InSequence(a.conts)
    requires b < |m.payload| <= Capacity(|a.conts|)
    ensures Gathered(a)[b] == m.payload[b]
  {
    hide ContBytes, Fragments;
    if b >= INIT_DATA {
      var t, x := (b - INIT_DATA) / CONT_DATA, (b - INIT_DATA) % CONT_DATA;
      ContByte(a.conts, t, x);
      var j := ContOf(m, a.conts[t]);
      assert Agrees(m, t, j);
    }
  }

  lemma OnlyItself(m: Message, w: seq<Packet>, i: nat)
    requires |m.payload| <= COUNT_LIMIT && Interchangeable(m) && PacketsOf(m, w)
    requires i < |w| && Output(map[], w, i).Some?
    ensures Output(map[], w, i) == Some(m)
  {
    hide Step, Fit, Fragments, Latest, InSequence, ContBytes, Output, Interchangeable, Gathered;
    var d := Output(map[], w, i).value;
    DeliveredExactlyWhen(w, i, d);
    if w[i].Cont? {
      var v := w[..i + 1];
      var a := Latest(v, w[i].cid);
      LatestOnChannel(v, w[i].cid);
      assert a.start in Fragments(m) && PacketsOf(m, a.conts);
      StartOf(m, a.start);
      forall b | 0 <= b < |m.payload| ensures Gathered(a)[b] == m.payload[b] {
        GatheredByte(m, a, b);
      }
      assert d.payload == m.payload;
    } else {
      StartOf(m, w[i]);
      FitWhole(m.payload, INIT_DATA);
    }
  }

  /** The packets of a message with continuation `j` sent once more in the place of `k`. */
  function Replaced(m: Message, k: nat, j: nat): seq<Packet>
    requires Capacity(k) < |m.payload| && Capacity(j) < |m.payload|
  {
    Fragments(m)[k + 1 := Fragments(m)[j + 1]]
  }

  lemma ReplacedPackets(m: Message, k: nat, j: nat)
    requires Capacity(k) < |m.payload| && Capacity(j) < |m.payload|
    ensures PacketsOf(m, Replaced(m, k, j))
  {
    hide Fragments;
    assert k + 1 < |Fragments(m)| && j + 1 < |Fragments(m)|;
  }

  lemma ReplacedShape(m: Message, k: nat, j: nat)
    requires Capacity(k) < |m.payload| <= COUNT_LIMIT && Capacity(j) < |m.payload| && k % 0x100 == j % 0x100
    ensures var w := Replaced(m, k, j);
            && w != [] && w == [InitFragment(m)] + w[1..] && AllCont(w[1..]) && Complete(Attempt(w[0], w[1..]))
            && (forall t | 0 <= t < |w[1..]| :: w[1..][t].cid == m.cid)
            && k < |w[1..]| && w[1..][k] == ContFragment(m, j)
  {
    hide Fit, Fragments;
    var w := Replaced(m, k, j);
    FragmentAt(m, 0);
    FragmentAt(m, j + 1);
    forall t | 0 <= t < |w[1..]| ensures w[1..][t].Cont? && w[1..][t].seqNo == t % 0x100 && w[1..][t].cid == m.cid {
      FragmentAt(m, t + 1);
    }
  }

  lemma ReplacedDelivers(m: Message, k: nat, j: nat, x: nat)
    requires Capacity(k) < |m.payload| <= COUNT_LIMIT && Capacity(j) < |m.payload| && k % 0x100 == j % 0x100
    requires x < CONT_DATA && Capacity(k) + x < |m.payload| && ContFragment(m, j).rest[x] != m.payload[Capacity(k) + x]
    ensures PacketsOf(m, Replaced(m, k, j))
    ensures var w := Replaced(m, k, j);
            w != [] && Output(map[], w, |w| - 1).Some? && Output(map[], w, |w| - 1) != Some(m)
  {
    hide Fit, ContBytes, Output, Replaced, InSequence, PacketsOf;
    ReplacedPackets(m, k, j);
    ReplacedShape(m, k, j);
    var ks := Replaced(m, k, j)[1..];
    var a := Attempt(InitFragment(m), ks);
    WordDelivers(InitFragment(m), ks);
    ContByte(ks, k, x);
    assert Gathered(a)[Capacity(k) + x] != m.payload[Capacity(k) + x];
    assert Assembled(a).payload[Capacity(k) + x] == Gathered(a)[Capacity(k) + x];
  }

  /** Nothing but `m` ever comes out of packets of `m`. */
  ghost predicate OnlyOriginal(m: Message) {
    forall w, i: nat | PacketsOf(m, w) && i < |w| && Output(map[], w, i).Some? :: Output(map[], w, i) == Some(m)
  }

  /** However the packets of one message are lost, repeated and reordered on the way, a
      delivery is that message and nothing else: exactly when the byte count holds its
      length and continuations that share a sequence number are interchangeable. Up to
      15161 bytes no two share one. */
  lemma ReorderingIsSafe(m: Message)
    ensures OnlyOriginal(m) <==> |m.payload| <= COUNT_LIMIT && Interchangeable(m)
    ensures |m.payload| <= DISTINCT_LIMIT ==> OnlyOriginal(m)
  {
    hide Fragments, Output, Fit;
    if |m.payload| > COUNT_LIMIT {
      TruncatedDelivers(m);
      assert PacketsOf(m, TruncatedPrefix(m));
    } else if Interchangeable(m) {
      forall w, i: nat | PacketsOf(m, w) && i < |w| && Output(map[], w, i).Some?
        ensures Output(map[], w, i) == Some(m)
      {
        OnlyItself(m, w, i);
      }
    } else {
      var k: nat, j: nat :| Capacity(k) < |m.payload| && Capacity(j) < |m.payload| && k % 0x100 == j % 0x100
        && !Agrees(m, k, j);
      var x: nat :| x < CONT_DATA && Capacity(k) + x < |m.payload|
        && ContFragment(m, j).rest[x] != m.payload[Capacity(k) + x];
      ReplacedDelivers(m, k, j, x);
    }
    if |m.payload| <= DISTINCT_LIMIT {
      ShortIsInterchangeable(m);
    }
  }
}
