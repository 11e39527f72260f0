/** The HEVC decoder configuration record (ISO/IEC 14496-15, section 8.3.3.1)
    as the RTMP H265 configuration codec reads and writes it.

    This module holds the value-level meaning of the two operations of
    h265conf.go: `Decode` is what `(*Conf).Unmarshal` does to its receiver and
    what it returns, `Marshalled` is what `(Conf).Marshal` returns. The
    imperative versions in module H265Conf are proved equal to them. */
module RecordFormat {

  newtype byte = x: int | 0 <= x < 256

  datatype Option<+T> = None | Some(value: T)

  /** One error per check of the decoder. */
  datatype Error =
    | TooShort               // fewer than 23 bytes
    | IncompleteArrayHeader  // fewer than 3 bytes left for an array header and its NALU count
    | IncompleteNaluLength   // fewer than 2 bytes left for a NALU length
    | IncompleteNaluData     // fewer bytes left than the NALU length declares
    | MissingParameterSet    // the walk ended with VPS, SPS or PPS unset

  predicate IsBoundsError(e: Error) {
    e == IncompleteArrayHeader || e == IncompleteNaluLength || e == IncompleteNaluData
  }

  /** Smallest accepted record: the 22-byte fixed header and the array count. */
  const MinRecordSize: nat := 23
  /** Offset of numOfArrays; decoding of the arrays starts right after it. */
  const ArrayCountOffset: nat := 22

  const VpsType: byte := 32
  const SpsType: byte := 33
  const PpsType: byte := 34

  /** NAL unit type of an array header byte: its low six bits (`& 0x3F`). */
  function NaluType(arrayHeader: byte): byte {
    arrayHeader % 64
  }

  /** The three fields of a `Conf`; `None` is a nil slice, `Some([])` an empty non-nil one. */
  datatype ParameterSets = ParameterSets(vps: Option<seq<byte>>, sps: Option<seq<byte>>, pps: Option<seq<byte>>)
  {
    predicate Complete() {
      vps.Some? && sps.Some? && pps.Some?
    }
  }

  /** The zero value `Conf{}`. */
  const Unset := ParameterSets(None, None, None)

  /** A field that was set before is still set, to the same bytes, after. */
  predicate Grows(before: ParameterSets, after: ParameterSets) {
    && (before.vps.Some? ==> after.vps == before.vps)
    && (before.sps.Some? ==> after.sps == before.sps)
    && (before.pps.Some? ==> after.pps == before.pps)
  }

  /** A big-endian 16-bit field. */
  function BE16(hi: byte, lo: byte): (n: nat)
    ensures n < 0x1_0000
  {
    hi as nat * 256 + lo as nat
  }

  /** `byte(n >> 8)` and `byte(n)`: the two bytes of a length field, truncated to 16 bits. */
  function Hi(n: nat): byte {
    ((n / 256) % 256) as byte
  }

  function Lo(n: nat): byte {
    (n % 256) as byte
  }

  /** The effect of one NALU on the receiver: the first VPS, SPS and PPS win,
      everything else leaves the fields alone. */
  function Store(s: ParameterSets, naluType: byte, data: seq<byte>): (r: ParameterSets)
    ensures Grows(s, r)
  {
    if naluType == VpsType && s.vps.None? then s.(vps := Some(data))
    else if naluType == SpsType && s.sps.None? then s.(sps := Some(data))
    else if naluType == PpsType && s.pps.None? then s.(pps := Some(data))
    else s
  }

  /** Where the walk stands: the receiver's fields, the cursor, and the error
      that stopped it, if any. */
  datatype Progress = Progress(sets: ParameterSets, pos: nat, err: Option<Error>)

  /** The inner loop of Unmarshal: `count` NALUs of one array, starting at `pos`. */
  function WalkNalus(buf: seq<byte>, pos: nat, naluType: byte, count: nat, s: ParameterSets): (r: Progress)
    requires pos <= |buf|
    ensures pos <= r.pos <= |buf|
    ensures r.err.None? || r.err == Some(IncompleteNaluLength) || r.err == Some(IncompleteNaluData)
    ensures Grows(s, r.sets)
    decreases count
  {
    if count == 0 then Progress(s, pos, None)
    else if pos + 2 > |buf| then Progress(s, pos, Some(IncompleteNaluLength))
    else
      var len := BE16(buf[pos], buf[pos + 1]);
      if pos + 2 + len > |buf| then Progress(s, pos + 2, Some(IncompleteNaluData))
      else WalkNalus(buf, pos + 2 + len, naluType, count - 1, Store(s, naluType, buf[pos + 2 .. pos + 2 + len]))
  }

  /** The outer loop of Unmarshal: `count` arrays, starting at `pos`. */
  function WalkArrays(buf: seq<byte>, pos: nat, count: nat, s: ParameterSets): (r: Progress)
    requires pos <= |buf|
    ensures pos <= r.pos <= |buf|
    ensures r.err.None? || IsBoundsError(r.err.value)
    ensures Grows(s, r.sets)
    decreases count
  {
    if count == 0 then Progress(s, pos, None)
    else if pos + 3 > |buf| then Progress(s, pos, Some(IncompleteArrayHeader))
    else
      var p := WalkNalus(buf, pos + 3, NaluType(buf[pos]), BE16(buf[pos + 1], buf[pos + 2]), s);
      if p.err.Some? then p else WalkArrays(buf, p.pos, count - 1, p.sets)
  }

  /** What Unmarshal leaves in the receiver and what it returns. */
  datatype Outcome = Outcome(sets: ParameterSets, err: Option<Error>)

  /** The final check of Unmarshal, after the walk. */
  function Finish(p: Progress): Outcome {
    if p.err.Some? then Outcome(p.sets, p.err)
    else if !p.sets.Complete() then Outcome(p.sets, Some(MissingParameterSet))
    else Outcome(p.sets, None)
  }

  /** `(*Conf).Unmarshal(buf)` on a receiver whose fields are `prior`. */
  function Decode(buf: seq<byte>, prior: ParameterSets): (r: Outcome)
    ensures r.err == Some(TooShort) <==> |buf| < MinRecordSize
    ensures r.err.None? ==> r.sets.Complete()
    ensures r.err == Some(MissingParameterSet) ==> !r.sets.Complete()
    ensures Grows(prior, r.sets)
  {
    if |buf| < MinRecordSize then Outcome(prior, Some(TooShort))
    else Finish(WalkArrays(buf, MinRecordSize, buf[ArrayCountOffset] as nat, prior))
  }

  function Zeros(n: nat): (z: seq<byte>)
    ensures |z| == n && forall i :: 0 <= i < n ==> z[i] == 0
  {
    seq(n, _ => 0)
  }

  /** Bytes 1..4 of the header: SPS[1..4] when the SPS has at least five bytes,
      zero when it has fewer than four. (Four bytes make Marshal fail.) */
  function ProfileBytes(sps: seq<byte>): seq<byte>
    requires |sps| != 4
  {
    if |sps| >= 5 then sps[1..5] else Zeros(4)
  }

  /** The 23-byte header Marshal writes. */
  function RecordHeader(sps: seq<byte>): seq<byte>
    requires |sps| != 4
  {
    [1] + ProfileBytes(sps) + Zeros(7) + [0xF0] + Zeros(9) + [3]
  }

  /** One array as Marshal writes it: header byte, NALU count 1, length, payload. */
  function ArrayBytes(arrayHeader: byte, payload: seq<byte>): seq<byte> {
    [arrayHeader, 0, 1, Hi(|payload|), Lo(|payload|)] + payload
  }

  /** What `(Conf).Marshal()` returns; `None` stands for the index-out-of-range
      panic on a four-byte SPS. The byte layout is MarshalledLayout. */
  function Marshalled(vps: seq<byte>, sps: seq<byte>, pps: seq<byte>): (r: Option<seq<byte>>)
    ensures r.None? <==> |sps| == 4
    ensures r.Some? ==> |r.value| == 38 + |vps| + |sps| + |pps|
  {
    if |sps| == 4 then None
    else Some(RecordHeader(sps) + ArrayBytes(0x20, vps) + ArrayBytes(0x21, sps) + ArrayBytes(0x22, pps))
  }
}
