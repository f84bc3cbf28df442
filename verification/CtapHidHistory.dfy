/** What the reassembler remembers and delivers, read off the packets alone. */
module CtapHidHistory {
  import opened Bytes
  import opened CtapHidPacket
  import opened CtapHidMessage
  import opened CtapHidReassembler
  import opened CtapHidRuns

  /** A multi-packet init and the continuations that followed it on its channel. */
  datatype Attempt = Nothing | Attempt(start: Packet, conts: seq<Packet>)

  predicate AllCont(ks: seq<Packet>) { forall t | 0 <= t < |ks| :: ks[t].Cont? }

  predicate WellFormed(a: Attempt) { a.Attempt? ==> Starts(a.start) && AllCont(a.conts) }

  function Extended(a: Attempt, p: Packet): (r: Attempt)
    requires WellFormed(a)
    ensures WellFormed(r)
  {
    if Starts(p) then Attempt(p, [])
    else if p.Cont? && a.Attempt? then Attempt(a.start, a.conts + [p])
    else a
  }

  /** The latest attempt on channel `c`. */
  function Latest(ps: seq<Packet>, c: uint32): (a: Attempt)
    ensures WellFormed(a)
  {
    if ps == [] then Nothing
    else
      var a, p := Latest(ps[..|ps| - 1], c), ps[|ps| - 1];
      if p.cid == c then Extended(a, p) else a
  }

  function ContBytes(ks: seq<Packet>): (d: Buffer)
    requires AllCont(ks)
    ensures |d| == CONT_DATA * |ks|
  {
    if ks == [] then [] else ContBytes(ks[..|ks| - 1]) + ks[|ks| - 1].rest
  }

  lemma ContBytesSnoc(q: seq<Packet>, k: Packet)
    requires AllCont(q) && k.Cont?
    ensures AllCont(q + [k]) && ContBytes(q + [k]) == ContBytes(q) + k.rest
  {
    assert (q + [k])[..|q|] == q;
  }

  predicate InSequence(ks: seq<Packet>)
    requires AllCont(ks)
  {
    forall t | 0 <= t < |ks| :: ks[t].seqNo == t % 0x100
  }

  /** All the data of an attempt, padding included. */
  function Gathered(a: Attempt): (d: Buffer)
    requires WellFormed(a) && a.Attempt?
    ensures |d| == Capacity(|a.conts|)
  {
    a.start.data + ContBytes(a.conts)
  }

  /** The attempt is unbroken so far and still short of its byte count. */
  predicate Pending(a: Attempt)
    requires WellFormed(a)
  {
    a.Attempt? && InSequence(a.conts) && Capacity(|a.conts|) < a.start.bcnt
  }

  /** The attempt is unbroken and its last continuation is the first to reach the byte count. */
  predicate Complete(a: Attempt)
    requires WellFormed(a)
  {
    a.Attempt? && InSequence(a.conts) && Capacity(|a.conts| - 1) < a.start.bcnt <= Capacity(|a.conts|)
  }

  function Entry(s: Channels, c: uint32): Option<Incomplete> { if c in s then Some(s[c]) else None }

  function Remembered(a: Attempt): Option<Incomplete>
    requires WellFormed(a)
  {
    if Pending(a) then Some(Incomplete(a.start.cmd, a.start.bcnt, Gathered(a), |a.conts| % 0x100)) else None
  }

  // ---- One step, entry by entry -----------------------------------------------------

  predicate ValidOption(o: Option<Incomplete>) { o.Some? ==> ValidEntry(o.value) }

  function NextEntry(o: Option<Incomplete>, p: Packet): Option<Incomplete>
    requires ValidOption(o)
  {
    if Starts(p) then Some(Incomplete(p.cmd, p.bcnt, p.data, 0))
    else if p.Init? || o.None? then o
    else if p.seqNo != o.value.nextSeq then None
    else
      var e := Extend(o.value, p.rest);
      if |e.payload| >= e.bcnt then None else Some(e)
  }

  lemma StepByEntry(s: Channels, p: Packet, c: uint32)
    requires ValidChannels(s)
    ensures Entry(Step(s, p).channels, c) == if p.cid == c then NextEntry(Entry(s, c), p) else Entry(s, c)
  {
  }

  lemma ExtendedData(a: Attempt, p: Packet)
    requires WellFormed(a) && a.Attempt? && p.Cont?
    ensures Gathered(Extended(a, p)) == Gathered(a) + p.rest
    ensures InSequence(Extended(a, p).conts) <==> InSequence(a.conts) && p.seqNo == |a.conts| % 0x100
  {
    var ks := a.conts + [p];
    ContBytesSnoc(a.conts, p);
    ConcatAssociative(a.start.data, ContBytes(a.conts), p.rest);
    assert InSequence(ks) ==> ks[|a.conts|].seqNo == |a.conts| % 0x100;
    assert InSequence(ks) ==> forall t | 0 <= t < |a.conts| :: a.conts[t] == ks[t];
  }

  lemma RememberedNext(a: Attempt, p: Packet)
    requires WellFormed(a)
    ensures ValidOption(Remembered(a))
    ensures NextEntry(Remembered(a), p) == Remembered(Extended(a, p))
  {
    hide InSequence, ContBytes;
    if p.Cont? && a.Attempt? {
      ExtendedData(a, p);
      hide Gathered;
      if Pending(a) && p.seqNo == |a.conts| % 0x100 {
        var e := Extend(Remembered(a).value, p.rest);
        assert |e.payload| < e.bcnt ==> p.rest[..CONT_DATA] == p.rest;
      }
    } else if Starts(p) {
      EmptyAttempt(p);
    }
  }

  lemma EmptyAttempt(p: Packet)
    requires Starts(p)
    ensures Gathered(Attempt(p, [])) == p.data && InSequence([])
  {
    assert p.data + [] == p.data;
  }

  // ---- Whole histories --------------------------------------------------------------

  /** From an empty table, the entry a run leaves on `c` is exactly its pending attempt. */
  lemma {:induction false} EntryIsAttempt(ps: seq<Packet>, c: uint32)
    ensures Entry(After(map[], ps), c) == Remembered(Latest(ps, c))
  {
    if ps == [] {
    } else {
      hide Step, Remembered, NextEntry, Extended;
      var q, p := ps[..|ps| - 1], ps[|ps| - 1];
      EntryIsAttempt(q, c);
      RememberedNext(Latest(q, c), p);
      StepByEntry(After(map[], q), p, c);
    }
  }

  /** The message an attempt amounts to once complete. */
  function Assembled(a: Attempt): Message
    requires WellFormed(a) && Complete(a)
  {
    Message(a.start.cid, a.start.cmd, Gathered(a)[..a.start.bcnt])
  }

  /** When a continuation completes an attempt, and what the reassembler then hands over. */
  lemma AttemptCompletes(a: Attempt, p: Packet)
    requires WellFormed(a) && p.Cont?
    ensures Complete(Extended(a, p)) <==>
              Pending(a) && p.seqNo == |a.conts| % 0x100 && a.start.bcnt <= Capacity(|a.conts| + 1)
    ensures ValidOption(Remembered(a))
    ensures Complete(Extended(a, p)) ==>
              Assembled(Extended(a, p)).payload == Extend(Remembered(a).value, p.rest).payload
  {
    hide InSequence, ContBytes;
    RememberedNext(a, p);
    if a.Attempt? {
      ExtendedData(a, p);
      hide Gathered;
      if Pending(a) {
        var n := Min(a.start.bcnt - |Gathered(a)|, CONT_DATA);
        assert Gathered(a) + p.rest[..n] == (Gathered(a) + p.rest)[..|Gathered(a)| + n];
      }
    }
  }

  /** The exact history of a delivery, on every run from an empty table. The `i`-th packet
      returns `m` exactly when it is a single-packet init that carries `m`, or when it is a
      continuation that completes the latest attempt on its channel: the continuations since
      the latest multi-packet init there are numbered 0, 1, 2, ... (modulo 256) and this one
      is the first to reach the byte count. */
  lemma DeliveredExactlyWhen(ps: seq<Packet>, i: nat, m: Message)
    requires i < |ps|
    ensures Output(map[], ps, i) == Some(m) <==>
              (FitsInOne(ps[i]) && m == Message(ps[i].cid, ps[i].cmd, ps[i].data[..ps[i].bcnt]))
              || (ps[i].Cont? && var a := Latest(ps[..i + 1], ps[i].cid); Complete(a) && m == Assembled(a))
  {
    var q, p := ps[..i], ps[i];
    var a := Latest(q, p.cid);
    EntryIsAttempt(q, p.cid);
    LatestOnChannel(q, p.cid);
    assert ps[..i + 1][..i] == q && Latest(ps[..i + 1], p.cid) == Extended(a, p);
    hide Latest, After, Gathered, InSequence, Complete;
    if p.Cont? {
      AttemptCompletes(a, p);
    }
  }

  lemma {:induction false} LatestOnChannel(ps: seq<Packet>, c: uint32)
    ensures var a := Latest(ps, c); a.Attempt? ==>
              a.start.cid == c && a.start in ps && |a.conts| < |ps| && forall t | 0 <= t < |a.conts| :: a.conts[t] in ps
  {
    if ps == [] {
    } else {
      LatestOnChannel(ps[..|ps| - 1], c);
    }
  }

  // ---- What `Latest` is, in terms of positions ---------------------------------------

  /** The latest packet on `c` that opened a multi-packet message, or -1. */
  function LastStart(ps: seq<Packet>, c: uint32): (j: int)
    ensures -1 <= j < |ps|
    ensures j >= 0 ==> Starts(ps[j]) && ps[j].cid == c
    ensures forall t | j < t < |ps| :: !(Starts(ps[t]) && ps[t].cid == c)
  {
    if ps == [] then -1
    else if Starts(ps[|ps| - 1]) && ps[|ps| - 1].cid == c then |ps| - 1
    else LastStart(ps[..|ps| - 1], c)
  }

  function ContsOn(ps: seq<Packet>, c: uint32): seq<Packet> {
    if ps == [] then []
    else
      var p := ps[|ps| - 1];
      ContsOn(ps[..|ps| - 1], c) + if p.Cont? && p.cid == c then [p] else []
  }

  /** The latest attempt is the last multi-packet init on `c` with every continuation on
      `c` after it. */
  lemma {:induction false} LatestMeans(ps: seq<Packet>, c: uint32)
    ensures var j := LastStart(ps, c);
            Latest(ps, c) == if j < 0 then Nothing else Attempt(ps[j], ContsOn(ps[j + 1..], c))
  {
    if ps == [] {
    } else {
      var q, p := ps[..|ps| - 1], ps[|ps| - 1];
      LatestMeans(q, c);
      if Starts(p) && p.cid == c {
        assert ps[|q| + 1..] == [];
      } else if LastStart(q, c) >= 0 {
        hide ContsOn;
        assert ps == q + [p];
        LaterConts(q, p, c, LastStart(q, c));
      }
    }
  }

  lemma LaterConts(q: seq<Packet>, p: Packet, c: uint32, j: nat)
    requires j < |q|
    ensures (q + [p])[j] == q[j]
    ensures ContsOn((q + [p])[j + 1..], c) == ContsOn(q[j + 1..], c) + if p.Cont? && p.cid == c then [p] else []
  {
    hide ContsOn;
    ContsOnSnoc(q[j + 1..], p, c);
    assert (q + [p])[j + 1..] == q[j + 1..] + [p];
  }

  lemma ContsOnSnoc(q: seq<Packet>, p: Packet, c: uint32)
    ensures ContsOn(q + [p], c) == ContsOn(q, c) + if p.Cont? && p.cid == c then [p] else []
  {
    assert (q + [p])[..|q|] == q;
  }
}
