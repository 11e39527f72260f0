/** The RTMP H265 configuration of h265conf.go: a `Conf` holding the VPS, SPS
    and PPS, decoded in place from a configuration record and encoded back. */
module H265Conf {
  import opened RecordFormat

  /** `len` of a field: a nil slice has length zero. */
  function Payload(field: Option<seq<byte>>): seq<byte> {
    if field.Some? then field.value else []
  }

  /** `copy(buf[at:], src)` where `buf[at:]` has room for all of `src`. */
  method CopyInto(buf: array<byte>, at: nat, src: seq<byte>)
    requires at + |src| <= buf.Length
    modifies buf
    ensures buf[..at + |src|] == old(buf[..at]) + src
    ensures buf[at + |src|..] == old(buf[at + |src|..])
  {
    forall i | 0 <= i < |src| {
      buf[at + i] := src[i];
    }
    assert buf[at..at + |src|] == src;
    assert buf[..at + |src|] == buf[..at] + buf[at..at + |src|];
  }

  /** Writes one parameter-set array at `pos` (the three blocks of Marshal):
      array header byte, NALU count 1, the payload length truncated to 16 bits,
      then the payload. */
  method WriteArray(buf: array<byte>, pos: nat, arrayHeader: byte, payload: seq<byte>) returns (next: nat)
    requires pos + 5 + |payload| <= buf.Length
    modifies buf
    ensures next == pos + 5 + |payload|
    ensures buf[..next] == old(buf[..pos]) + ArrayBytes(arrayHeader, payload)
    ensures buf[next..] == old(buf[next..])
  {
    buf[pos] := arrayHeader;
    buf[pos + 1] := 0;
    buf[pos + 2] := 1;
    buf[pos + 3] := Hi(|payload|);
    buf[pos + 4] := Lo(|payload|);
    assert buf[..pos + 5] == old(buf[..pos]) + [arrayHeader, 0, 1, Hi(|payload|), Lo(|payload|)];
    CopyInto(buf, pos + 5, payload);
    next := pos + 5 + |payload|;
  }

  class Conf {
    var vps: Option<seq<byte>>
    var sps: Option<seq<byte>>
    var pps: Option<seq<byte>>

    function Sets(): ParameterSets
      reads this
    {
      ParameterSets(vps, sps, pps)
    }

    /** The zero value `Conf{}`: all three fields nil. */
    constructor ()
      ensures Sets() == Unset
    {
      vps, sps, pps := None, None, None;
    }

    /** Walks the record in `buf`, keeping in the receiver the first VPS, SPS
        and PPS it meets. Fields already set, on entry or earlier in the walk,
        are never overwritten, and fields set before an error stay set. */
    method Unmarshal(buf: seq<byte>) returns (err: Option<Error>)
      modifies this
      ensures Outcome(Sets(), err) == Decode(buf, old(Sets()))
    {
      if |buf| < 23 {
        return Some(TooShort);
      }
      var pos: nat := 22;
      var numOfArrays := buf[pos] as nat;
      pos := pos + 1;

      ghost var walk := WalkArrays(buf, pos, numOfArrays, old(Sets()));
      var i := 0;
      while i < numOfArrays
        invariant i <= numOfArrays && pos <= |buf|
        invariant walk == WalkArrays(buf, pos, numOfArrays - i, Sets())
      {
        if pos + 3 > |buf| {
          assert walk == Progress(Sets(), pos, Some(IncompleteArrayHeader));
          return Some(IncompleteArrayHeader);
        }
        ghost var arrayStart := pos;
        var naluType := buf[pos] % 64;  // buf[pos] & 0x3F
        pos := pos + 1;
        var numNalus := BE16(buf[pos], buf[pos + 1]);
        pos := pos + 2;
        assert naluType == NaluType(buf[arrayStart]);
        pos, err := ReadNalus(buf, pos, naluType, numNalus);
        if err.Some? {
          assert walk == Progress(Sets(), pos, err);
          return err;
        }
        assert walk == WalkArrays(buf, pos, numOfArrays - i - 1, Sets());
        i := i + 1;
      }

      if vps.None? || sps.None? || pps.None? {
        return Some(MissingParameterSet);
      }
      return None;
    }

    /** The inner loop of Unmarshal: reads the `numNalus` NALUs of one array
        from `start`, keeping each in the receiver through the `switch`. */
    method ReadNalus(buf: seq<byte>, start: nat, naluType: byte, numNalus: nat) returns (pos: nat, err: Option<Error>)
      requires start <= |buf|
      modifies this
      ensures Progress(Sets(), pos, err) == WalkNalus(buf, start, naluType, numNalus, old(Sets()))
    {
      pos := start;
      ghost var nalus := WalkNalus(buf, pos, naluType, numNalus, Sets());
      var j := 0;
      while j < numNalus
        invariant j <= numNalus && pos <= |buf|
        invariant nalus == WalkNalus(buf, pos, naluType, numNalus - j, Sets())
      {
        if pos + 2 > |buf| {
          assert nalus == Progress(Sets(), pos, Some(IncompleteNaluLength));
          return pos, Some(IncompleteNaluLength);
        }
        ghost var naluStart, before := pos, Sets();
        var naluLen := BE16(buf[pos], buf[pos + 1]);
        pos := pos + 2;
        if pos + naluLen > |buf| {
          assert nalus == Progress(Sets(), pos, Some(IncompleteNaluData));
          return pos, Some(IncompleteNaluData);
        }
        var naluData := buf[pos .. pos + naluLen];
        pos := pos + naluLen;
        Keep(naluType, naluData);
        assert WalkNalus(buf, naluStart, naluType, numNalus - j, before)
          == WalkNalus(buf, pos, naluType, numNalus - j - 1, Sets());
        j := j + 1;
      }
      return pos, None;
    }

    /** The `switch` on the NAL unit type: a VPS, SPS or PPS is kept only if
        its field is still nil; any other type is skipped. */
    method Keep(naluType: byte, naluData: seq<byte>)
      modifies this
      ensures Sets() == Store(old(Sets()), naluType, naluData)
    {
      if naluType == VpsType {
        if vps.None? {
          vps := Some(naluData);
        }
      } else if naluType == SpsType {
        if sps.None? {
          sps := Some(naluData);
        }
      } else if naluType == PpsType {
        if pps.None? {
          pps := Some(naluData);
        }
      }
    }

    /** Builds the canonical record: the 23-byte header, then one VPS, one SPS
        and one PPS array of one NALU each. `None` is the runtime panic on an
        SPS of exactly four bytes (the guard admits it, SPS[4] does not exist). */
    method Marshal() returns (r: Option<seq<byte>>)
      ensures r == Marshalled(Payload(vps), Payload(sps), Payload(pps))
    {
      var v, s, p := Payload(vps), Payload(sps), Payload(pps);
      var bufSize := 23 + 3 + 3 * 5 + |v| + |s| + |p|;
      var buf := new byte[bufSize](_ => 0);

      buf[0] := 1;
      if |s| >= 4 {
        if |s| == 4 {
          return None;
        }
        buf[1] := s[1];
        buf[2] := s[2];
        buf[3] := s[3];
        buf[4] := s[4];
      }
      buf[12] := 0xF0;
      buf[22] := 3;
      ghost var header := buf[..23];
      assert header == RecordHeader(s);

      // 0x20 | 32, 0x20 | 33 and 0x20 | 34: no array_completeness bit
      var pos := WriteArray(buf, 23, 0x20, v);
      pos := WriteArray(buf, pos, 0x21, s);
      pos := WriteArray(buf, pos, 0x22, p);
      return Some(buf[..pos]);
    }
  }
}
