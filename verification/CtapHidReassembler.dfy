/** The per-channel reassembly state machine (`src/ctap_hid.rs`). */
module CtapHidReassembler {
  import opened Bytes
  import opened CtapHidPacket
  import opened CtapHidMessage

  datatype Incomplete = Incomplete(cmd: byte, bcnt: nat, payload: Buffer, nextSeq: byte)
  type Channels = map<uint32, Incomplete>

  /** What one packet does: the new channel table and at most one finished message. */
  datatype StepResult = StepResult(channels: Channels, output: Option<Message>)

  /** How many continuations an entry has taken. */
  function Taken(e: Incomplete): nat { |e.payload| / CONT_DATA }

  /** Every packet so far was full, the counter agrees with them, and data is still missing. */
  predicate ValidEntry(e: Incomplete) {
    && |e.payload| == Capacity(Taken(e))
    && e.nextSeq == Taken(e) % 0x100
    && |e.payload| < e.bcnt <= COUNT_LIMIT
  }

  predicate ValidChannels(s: Channels) {
    forall c | c in s :: ValidEntry(s[c])
  }

  predicate FitsInOne(p: Packet) { p.Init? && p.bcnt <= INIT_DATA }

  predicate Starts(p: Packet) { p.Init? && p.bcnt > INIT_DATA }

  /** The `next_seq += 1` of `handle_packet` would exceed a `u8`. */
  predicate Overflows(s: Channels, p: Packet) {
    p.Cont? && p.cid in s && p.seqNo == s[p.cid].nextSeq == 255
  }

  /** An entry after one more continuation in sequence. */
  function Extend(e: Incomplete, rest: ContData): (r: Incomplete)
    requires ValidEntry(e)
    ensures |r.payload| < r.bcnt ==> ValidEntry(r) && Taken(r) == Taken(e) + 1
  {
    var copied := Min(e.bcnt - |e.payload|, CONT_DATA);
    e.(payload := e.payload + rest[..copied], nextSeq := (e.nextSeq + 1) % 0x100)
  }

  function Step(s: Channels, p: Packet): (r: StepResult)
    requires ValidChannels(s)
    ensures ValidChannels(r.channels)
  {
    match p
    case Init(cid, cmd, bcnt, data) =>
      if bcnt <= INIT_DATA then StepResult(s, Some(Message(cid, cmd, data[..bcnt])))
      else StepResult(s[cid := Incomplete(cmd, bcnt, data, 0)], None)
    case Cont(cid, seqNo, rest) =>
      if cid !in s then StepResult(s, None)
      else if seqNo != s[cid].nextSeq then StepResult(s - {cid}, None)
      else
        var e := Extend(s[cid], rest);
        if |e.payload| >= e.bcnt then StepResult(s - {cid}, Some(Message(cid, e.cmd, e.payload)))
        else StepResult(s[cid := e], None)
  }

  class CtapHidReassembler {
    var channels: map<uint32, Incomplete>

    ghost predicate Valid()
      reads this
    {
      ValidChannels(channels)
    }

    constructor ()
      ensures Valid() && channels == map[]
    {
      channels := map[];
    }

    /** `CtapHidReassembler::handle_packet`. Whatever the build, it returns what `Step`
        says; it panics only in a debug build and only when the counter overflows. The
        subtraction `bcnt - payload.len()` never goes below zero. */
    method HandlePacket(p: Packet, build: Build) returns (r: Outcome<Option<Message>>)
      requires Valid()
      modifies this
      ensures r.Panic? <==> build.Debug? && Overflows(old(channels), p)
      ensures r.Returns? ==> StepResult(channels, r.value) == Step(old(channels), p) && Valid()
    {
      match p
      case Init(cid, cmd, bcnt, data) =>
        if bcnt <= |data| {
          return Returns(Some(Message(cid, cmd, data[..bcnt])));
        }
        channels := channels[cid := Incomplete(cmd, bcnt, data, 0)];
        return Returns(None);
      case Cont(cid, seqNo, rest) =>
        if cid !in channels {
          return Returns(None);
        }
        var msg := channels[cid];
        if seqNo != msg.nextSeq {
          channels := channels - {cid};
          return Returns(None);
        }
        var remaining: nat := msg.bcnt - |msg.payload|;
        var copyLen := Min(remaining, |rest|);
        msg := msg.(payload := msg.payload + rest[..copyLen]);
        channels := channels[cid := msg];
        var next := IncrementByte(build, msg.nextSeq);
        if next.Panic? {
          return Panic;
        }
        msg := msg.(nextSeq := next.value);
        channels := channels[cid := msg];
        assert msg == Extend(old(channels)[cid], rest);
        if |msg.payload| >= msg.bcnt {
          channels := channels - {cid};
          assert channels == old(channels) - {cid};
          return Returns(Some(Message(cid, msg.cmd, msg.payload)));
        }
        assert channels == old(channels)[cid := msg];
        return Returns(None);
    }
  }
}
