/** CTAP HID packets and their 64-byte report form (`src/ctap_hid.rs`). */
module CtapHidPacket {
  import opened Bytes

  const REPORT_SIZE := 64
  const INIT_DATA := 57
  const CONT_DATA := 59

  type InitData = d: Buffer | |d| == INIT_DATA witness Zeros(INIT_DATA)
  type ContData = d: Buffer | |d| == CONT_DATA witness Zeros(CONT_DATA)
  type Report = b: Buffer | |b| == REPORT_SIZE witness Zeros(REPORT_SIZE)

  datatype Packet =
    | Init(cid: uint32, cmd: byte, bcnt: uint16, data: InitData)
    | Cont(cid: uint32, seqNo: byte, rest: ContData)

  /** Bit 7 of the command byte tells the two kinds of report apart. */
  predicate TypeBit(b: byte) { b >= 0x80 }

  predicate WireForm(p: Packet) {
    match p
    case Init(_, cmd, _, _) => TypeBit(cmd)
    case Cont(_, seqNo, _) => !TypeBit(seqNo)
  }

  /** The part of a raw buffer that is read once a report ID has been dropped. */
  function StripReportId(buf: Buffer): Buffer {
    if |buf| == 65 then buf[1..]
    else if |buf| > 64 && buf[0] == 0 then buf[1..]
    else buf
  }

  function ParseStripped(buf: Buffer): Option<Packet> {
    if |buf| < 5 then None
    else if TypeBit(buf[4]) then
      if |buf| < 7 then None
      else Some(Init(FromBigEndian32(buf[0..4]), buf[4], FromBigEndian16(buf[5..7]), Fit(buf[7..], INIT_DATA)))
    else Some(Cont(FromBigEndian32(buf[0..4]), buf[4], Fit(buf[5..], CONT_DATA)))
  }

  function Parse(buf: Buffer): Option<Packet> { ParseStripped(StripReportId(buf)) }

  function Serialize(p: Packet): Report {
    match p
    case Init(cid, cmd, bcnt, data) => BigEndian32(cid) + [cmd] + BigEndian16(bcnt) + data
    case Cont(cid, seqNo, rest) => BigEndian32(cid) + [seqNo] + rest
  }

  /** `CtapHidPacket::parse`, filling a zeroed data array in place. */
  method ParseBuffer(input: Buffer) returns (r: Option<Packet>)
    ensures r == Parse(input)
  {
    hide FromBigEndian16, FromBigEndian32;
    var buf := input;
    if |buf| == 65 {
      buf := buf[1..];
    } else if |buf| > 0 && buf[0] == 0 && |buf| > 64 {
      buf := buf[1..];
    }
    if |buf| < 5 {
      return None;
    }
    var cid := FromBigEndian32(buf[0..4]);
    var firstByte := buf[4];
    if TypeBit(firstByte) {
      if |buf| < 7 {
        return None;
      }
      var data := new byte[INIT_DATA](_ => 0);
      var available := buf[7..];
      var copyLen := Min(|available|, INIT_DATA);
      CopyFromSlice(data, 0, available[..copyLen]);
      assert data[..] == Fit(available, INIT_DATA);
      return Some(Init(cid, firstByte, FromBigEndian16(buf[5..7]), data[..]));
    } else {
      var data := new byte[CONT_DATA](_ => 0);
      var available := buf[5..];
      var copyLen := Min(|available|, CONT_DATA);
      CopyFromSlice(data, 0, available[..copyLen]);
      assert data[..] == Fit(available, CONT_DATA);
      return Some(Cont(cid, firstByte, data[..]));
    }
  }

  /** `CtapHidPacket::serialize`, filling a zeroed 64-byte array in place. */
  method SerializePacket(p: Packet) returns (buf: array<byte>)
    ensures fresh(buf) && buf[..] == Serialize(p)
  {
    buf := new byte[REPORT_SIZE](_ => 0);
    CopyFromSlice(buf, 0, BigEndian32(p.cid));
    assert buf[..4] == BigEndian32(p.cid);
    match p
    case Init(_, cmd, bcnt, data) =>
      buf[4] := cmd;
      assert buf[..5] == BigEndian32(p.cid) + [cmd];
      CopyFromSlice(buf, 5, BigEndian16(bcnt));
      assert buf[..7] == BigEndian32(p.cid) + [cmd] + BigEndian16(bcnt);
      CopyFromSlice(buf, 7, data);
    case Cont(_, seqNo, rest) =>
      buf[4] := seqNo;
      assert buf[..5] == BigEndian32(p.cid) + [seqNo];
      CopyFromSlice(buf, 5, rest);
  }

  /** The number that bytes `i` to `i + 3` make, most significant first. */
  function Number32(b: Buffer, i: nat): int
    requires i + 4 <= |b|
  {
    (b[i] as int) * 0x100_0000 + (b[i + 1] as int) * 0x1_0000 + (b[i + 2] as int) * 0x100 + b[i + 3] as int
  }

  /** Every byte of a report is where section 11.2.4 of CTAP 2.1 puts it: the channel in bytes 0
      to 3, the command or sequence number in byte 4, and then the byte count and 57 bytes of
      data, or 59 bytes of data. */
  lemma ReportLayout(p: Packet)
    ensures var b := Serialize(p);
            && Number32(b, 0) == p.cid
            && (p.Init? ==> b[4] == p.cmd && (b[5] as int) * 0x100 + b[6] as int == p.bcnt && b[7..] == p.data)
            && (p.Cont? ==> b[4] == p.seqNo && b[5..] == p.rest)
  {
    var b, cid := Serialize(p), BigEndian32(p.cid);
    BigEndianBytes(if p.Init? then p.bcnt else 0, p.cid);
    hide BigEndian16, BigEndian32;
    assert b[0] == cid[0] && b[1] == cid[1] && b[2] == cid[2] && b[3] == cid[3];
    if p.Init? {
      var bcnt := BigEndian16(p.bcnt);
      assert b[5] == bcnt[0] && b[6] == bcnt[1];
    }
  }

  /** A packet survives the wire exactly when its first byte says what it is. */
  lemma ParseSerialize(p: Packet)
    ensures Parse(Serialize(p)) == Some(p) <==> WireForm(p)
    ensures Parse(Serialize(p)).Some?
  {
    var b := Serialize(p);
    BigEndian32RoundTrip(p.cid, b[0..4]);
    assert b[0..4] == BigEndian32(p.cid);
    match p
    case Init(_, cmd, bcnt, data) =>
      BigEndian16RoundTrip(bcnt, b[5..7]);
      assert b[5..7] == BigEndian16(bcnt);
      assert b[7..] == data;
      assert Fit(b[7..], INIT_DATA) == data;
    case Cont(_, seqNo, rest) =>
      assert b[5..] == rest;
      assert Fit(b[5..], CONT_DATA) == rest;
  }

  /** Every 64-byte report is accepted and is the serialisation of what it parses to. */
  lemma SerializeParse(b: Report)
    ensures Parse(b).Some? && Serialize(Parse(b).value) == b
  {
    BigEndian32RoundTrip(0, b[0..4]);
    if TypeBit(b[4]) {
      BigEndian16RoundTrip(0, b[5..7]);
      assert Fit(b[7..], INIT_DATA) == b[7..];
      assert b == b[0..4] + [b[4]] + b[5..7] + b[7..];
    } else {
      assert Fit(b[5..], CONT_DATA) == b[5..];
      assert b == b[0..4] + [b[4]] + b[5..];
    }
  }

  /** A report ID in front of a 64-byte report, whatever its value, changes nothing;
      neither do the zeros a host leaves off the end of a short report. */
  lemma ParseIgnoresFraming(id: byte, b: Report, short: Buffer)
    ensures Parse([id] + b) == Parse(b)
    ensures |short| <= REPORT_SIZE && Parse(short).Some? ==> Parse(Fit(short, REPORT_SIZE)) == Parse(short)
  {
    assert ([id] + b)[1..] == b;
    if |short| <= REPORT_SIZE && Parse(short).Some? {
      var full := Fit(short, REPORT_SIZE);
      assert full[0..4] == short[0..4];
      if TypeBit(short[4]) {
        assert full[5..7] == short[5..7];
        assert Fit(full[7..], INIT_DATA) == Fit(short[7..], INIT_DATA);
      } else {
        assert Fit(full[5..], CONT_DATA) == Fit(short[5..], CONT_DATA);
      }
    }
  }

  /** Only packets in wire form ever come out of the parser. */
  lemma ParsedIsWireForm(buf: Buffer)
    ensures Parse(buf).Some? ==> WireForm(Parse(buf).value)
  {
  }
}
