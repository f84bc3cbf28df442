/** Splitting a CTAP HID message into packets (`src/ctap_hid.rs`). */
module CtapHidMessage {
  import opened Bytes
  import opened CtapHidPacket

  datatype Message = Message(cid: uint32, cmd: byte, payload: Buffer)

  /** Sequence numbers stay below 0x80, so continuations stay continuations on the wire. */
  const WIRE_LIMIT := INIT_DATA + 128 * CONT_DATA
  /** The `u8` sequence counter is never incremented past 255. */
  const COUNTER_LIMIT := INIT_DATA + 255 * CONT_DATA
  /** The `u16` byte count is not truncated. */
  const COUNT_LIMIT := 0xffff

  /** How many payload bytes an init packet and `k` continuations can carry. */
  function Capacity(k: int): int { INIT_DATA + CONT_DATA * k }

  function ContCount(len: nat): (n: nat)
    ensures len <= Capacity(n)
    ensures n > 0 ==> Capacity(n - 1) < len
  {
    if len <= INIT_DATA then 0 else (len - INIT_DATA + CONT_DATA - 1) / CONT_DATA
  }

  function InitFragment(m: Message): Packet {
    Init(m.cid, m.cmd, |m.payload| % 0x1_0000, Fit(m.payload, INIT_DATA))
  }

  function ContFragment(m: Message, k: nat): Packet
    requires Capacity(k) <= |m.payload|
  {
    Cont(m.cid, k % 0x100, Fit(m.payload[Capacity(k)..], CONT_DATA))
  }

  function Fragments(m: Message): (ps: seq<Packet>)
    ensures |ps| == 1 + ContCount(|m.payload|)
  {
    [InitFragment(m)] + seq(ContCount(|m.payload|), k requires 0 <= k < ContCount(|m.payload|) => ContFragment(m, k))
  }

  lemma FragmentAt(m: Message, i: nat)
    requires i < |Fragments(m)|
    ensures i == 0 ==> Fragments(m)[i] == InitFragment(m)
    ensures i > 0 ==> Capacity(i - 1) < |m.payload| && Fragments(m)[i] == ContFragment(m, i - 1)
  {
  }

  function Reports(m: Message): (rs: seq<Report>)
    ensures |rs| == |Fragments(m)|
  {
    seq(|Fragments(m)|, k requires 0 <= k < |Fragments(m)| => Serialize(Fragments(m)[k]))
  }

  /** A zeroed array of `n` bytes with a slice of the payload copied into its front. */
  method FillFront(src: Buffer, n: nat) returns (data: Buffer)
    requires |src| <= n
    ensures data == Fit(src, n)
  {
    var a := new byte[n](_ => 0);
    CopyFromSlice(a, 0, src);
    data := a[..];
  }

  lemma FirstFragment(m: Message, data: InitData)
    requires data == Fit(m.payload[..Min(|m.payload|, INIT_DATA)], INIT_DATA)
    ensures Fragments(m)[..1] == [Init(m.cid, m.cmd, |m.payload| % 0x1_0000, data)]
  {
    assert data == Fit(m.payload, INIT_DATA);
  }

  lemma NextFragment(m: Message, n: nat, len: nat, data: ContData)
    requires 1 <= n && len == Min(|m.payload| - Capacity(n - 1), CONT_DATA) > 0
    requires data == Fit(m.payload[Capacity(n - 1)..Capacity(n - 1) + len], CONT_DATA)
    ensures n < |Fragments(m)|
    ensures Fragments(m)[..n + 1] == Fragments(m)[..n] + [Cont(m.cid, (n - 1) % 0x100, data)]
    ensures Capacity(n - 1) + len == Min(|m.payload|, Capacity(n))
  {
    assert data == Fit(m.payload[Capacity(n - 1)..], CONT_DATA);
  }

  /** The counter after continuation `n - 1`, and where a debug build stops. */
  lemma NextSequenceNumber(build: Build, n: nat)
    requires n >= 1
    ensures var r := IncrementByte(build, (n - 1) % 0x100);
            && (r.Panic? <==> build.Debug? && n % 0x100 == 0)
            && (r.Returns? ==> r.value == n % 0x100)
  {
  }

  /** `CtapHidMessage::to_packets`. Without overflow checks it always returns; with
      them it panics exactly when the payload outgrows the sequence counter. */
  method ToPackets(m: Message, build: Build) returns (r: Outcome<seq<Packet>>)
    ensures r.Panic? <==> build.Debug? && |m.payload| > COUNTER_LIMIT
    ensures r.Returns? ==> r.value == Fragments(m)
  {
    hide Fragments, Fit, IncrementByte;
    var payload := m.payload;
    var initLen := Min(|payload|, INIT_DATA);
    var initData := FillFront(payload[..initLen], INIT_DATA);
    FirstFragment(m, initData);
    var packets := [Init(m.cid, m.cmd, |payload| % 0x1_0000, initData)];

    var offset := initLen;
    var seqNo: byte := 0;
    ghost var n := 1;
    while offset < |payload|
      invariant 1 <= n <= |Fragments(m)|
      invariant offset == Min(|payload|, Capacity(n - 1))
      invariant packets == Fragments(m)[..n]
      invariant seqNo == (n - 1) % 0x100
      invariant build.Debug? ==> n <= 0x100
      decreases |payload| - offset
    {
      var contLen := Min(|payload| - offset, CONT_DATA);
      var contData := FillFront(payload[offset..offset + contLen], CONT_DATA);
      NextFragment(m, n, contLen, contData);
      packets := packets + [Cont(m.cid, seqNo, contData)];
      offset := offset + contLen;
      NextSequenceNumber(build, n);
      var next := IncrementByte(build, seqNo);
      if next.Panic? {
        return Panic;
      }
      seqNo := next.value;
      n := n + 1;
    }
    return Returns(packets);
  }

  /** Exactly when every fragment keeps its kind on the wire. */
  lemma FragmentsInWireForm(m: Message)
    ensures (forall p | p in Fragments(m) :: WireForm(p)) <==> TypeBit(m.cmd) && |m.payload| <= WIRE_LIMIT
  {
    var ps := Fragments(m);
    assert ps[0] in ps && ps[0] == InitFragment(m);
    if |m.payload| > WIRE_LIMIT {
      assert ps[129] in ps && ps[129] == ContFragment(m, 128);
    }
  }

  lemma FitGrows(p: Buffer, k: nat)
    requires Capacity(k) <= |p|
    ensures Fit(p, Capacity(k)) + Fit(p[Capacity(k)..], CONT_DATA) == Fit(p, Capacity(k + 1))
  {
  }

  lemma FitWhole(p: Buffer, n: nat)
    requires |p| <= n
    ensures Fit(p, n)[..|p|] == p
  {
  }
}
