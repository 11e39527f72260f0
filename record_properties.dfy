/** What the codec of h265conf.go guarantees, stated over the value-level
    model of module RecordFormat (and hence, through the contracts of
    `Conf.Unmarshal` and `Conf.Marshal`, over the imperative code). */
module RecordProperties {
  import opened RecordFormat

  // ---------------------------------------------------------------------
  // The record as a list of NAL units, and first-occurrence selection
  // ---------------------------------------------------------------------

  /** A NAL unit of some array: the array's NAL unit type and the payload. */
  datatype Nalu = Nalu(naluType: byte, data: seq<byte>)

  /** The NAL units read before the walk ended, where it ended, and why. */
  datatype Parsed = Parsed(nalus: seq<Nalu>, pos: nat, err: Option<Error>)

  /** The NAL units of one array, in buffer order. */
  function ParseNalus(buf: seq<byte>, pos: nat, naluType: byte, count: nat): (r: Parsed)
    requires pos <= |buf|
    ensures pos <= r.pos <= |buf|
    decreases count
  {
    if count == 0 then Parsed([], pos, None)
    else if pos + 2 > |buf| then Parsed([], pos, Some(IncompleteNaluLength))
    else
      var len := BE16(buf[pos], buf[pos + 1]);
      if pos + 2 + len > |buf| then Parsed([], pos + 2, Some(IncompleteNaluData))
      else
        var rest := ParseNalus(buf, pos + 2 + len, naluType, count - 1);
        Parsed([Nalu(naluType, buf[pos + 2 .. pos + 2 + len])] + rest.nalus, rest.pos, rest.err)
  }

  /** The NAL units of `count` arrays, in buffer order. */
  function ParseArrays(buf: seq<byte>, pos: nat, count: nat): (r: Parsed)
    requires pos <= |buf|
    ensures pos <= r.pos <= |buf|
    decreases count
  {
    if count == 0 then Parsed([], pos, None)
    else if pos + 3 > |buf| then Parsed([], pos, Some(IncompleteArrayHeader))
    else
      var first := ParseNalus(buf, pos + 3, NaluType(buf[pos]), BE16(buf[pos + 1], buf[pos + 2]));
      if first.err.Some? then first
      else
        var rest := ParseArrays(buf, first.pos, count - 1);
        Parsed(first.nalus + rest.nalus, rest.pos, rest.err)
  }

  /** All NAL units of a record of at least 23 bytes. */
  function ParseRecord(buf: seq<byte>): Parsed
    requires |buf| >= MinRecordSize
  {
    ParseArrays(buf, MinRecordSize, buf[ArrayCountOffset] as nat)
  }

  /** The payload of the first NAL unit of type `t`, if any. */
  function FirstOfType(nalus: seq<Nalu>, t: byte): Option<seq<byte>>
  {
    if nalus == [] then None
    else if nalus[0].naluType == t then Some(nalus[0].data)
    else FirstOfType(nalus[1..], t)
  }

  /** A field already set keeps its value; an unset one takes `found`. */
  function KeepOrTake(field: Option<seq<byte>>, found: Option<seq<byte>>): Option<seq<byte>>
  {
    if field.Some? then field else found
  }

  /** The receiver after storing each of `nalus` in turn. */
  function Absorb(s: ParameterSets, nalus: seq<Nalu>): ParameterSets
    decreases |nalus|
  {
    if nalus == [] then s else Absorb(Store(s, nalus[0].naluType, nalus[0].data), nalus[1..])
  }

  lemma {:induction false} AbsorbAppend(s: ParameterSets, a: seq<Nalu>, b: seq<Nalu>)
    ensures Absorb(s, a + b) == Absorb(Absorb(s, a), b)
    decreases |a|
  {
    if a == [] {
      assert a + b == b;
    } else {
      assert (a + b)[0] == a[0] && (a + b)[1..] == a[1..] + b;
      AbsorbAppend(Store(s, a[0].naluType, a[0].data), a[1..], b);
    }
  }

  /** Storing a list of NAL units keeps what was set and otherwise takes the
      first VPS, SPS and PPS of the list. */
  lemma {:induction false} AbsorbSelectsFirst(s: ParameterSets, nalus: seq<Nalu>)
    ensures Absorb(s, nalus) == ParameterSets(
      KeepOrTake(s.vps, FirstOfType(nalus, VpsType)),
      KeepOrTake(s.sps, FirstOfType(nalus, SpsType)),
      KeepOrTake(s.pps, FirstOfType(nalus, PpsType)))
    decreases |nalus|
  {
    if nalus != [] {
      AbsorbSelectsFirst(Store(s, nalus[0].naluType, nalus[0].data), nalus[1..]);
    }
  }

  /** The inner loop stores exactly the NAL units of its array, in order. */
  lemma {:induction false} WalkNalusAbsorbs(buf: seq<byte>, pos: nat, naluType: byte, count: nat, s: ParameterSets)
    requires pos <= |buf|
    ensures var p := ParseNalus(buf, pos, naluType, count);
      WalkNalus(buf, pos, naluType, count, s) == Progress(Absorb(s, p.nalus), p.pos, p.err)
    decreases count
  {
    if count > 0 && pos + 2 <= |buf| {
      var len := BE16(buf[pos], buf[pos + 1]);
      if pos + 2 + len <= |buf| {
        var data := buf[pos + 2 .. pos + 2 + len];
        var rest := ParseNalus(buf, pos + 2 + len, naluType, count - 1);
        WalkNalusAbsorbs(buf, pos + 2 + len, naluType, count - 1, Store(s, naluType, data));
        assert ([Nalu(naluType, data)] + rest.nalus)[1..] == rest.nalus;
      }
    }
  }

  /** The outer loop stores exactly the NAL units of the arrays, in order. */
  lemma {:induction false} WalkArraysAbsorbs(buf: seq<byte>, pos: nat, count: nat, s: ParameterSets)
    requires pos <= |buf|
    ensures var p := ParseArrays(buf, pos, count);
      WalkArrays(buf, pos, count, s) == Progress(Absorb(s, p.nalus), p.pos, p.err)
    decreases count
  {
    if count > 0 && pos + 3 <= |buf| {
      var t, n := NaluType(buf[pos]), BE16(buf[pos + 1], buf[pos + 2]);
      WalkNalusAbsorbs(buf, pos + 3, t, n, s);
      var first := ParseNalus(buf, pos + 3, t, n);
      if first.err.None? {
        var rest := ParseArrays(buf, first.pos, count - 1);
        WalkArraysAbsorbs(buf, first.pos, count - 1, Absorb(s, first.nalus));
        AbsorbAppend(s, first.nalus, rest.nalus);
      }
    }
  }

  /** Unmarshal keeps the fields the receiver already had and otherwise the
      first VPS (32), SPS (33) and PPS (34) in buffer order, across all
      arrays; later duplicates and other types are skipped without error. It
      fails with the first bounds error of the walk, and otherwise succeeds
      exactly when all three fields end up set, empty payloads included. */
  lemma FirstOccurrenceWins(buf: seq<byte>, prior: ParameterSets)
    requires |buf| >= MinRecordSize
    ensures var p := ParseRecord(buf);
      var sets := ParameterSets(
        KeepOrTake(prior.vps, FirstOfType(p.nalus, VpsType)),
        KeepOrTake(prior.sps, FirstOfType(p.nalus, SpsType)),
        KeepOrTake(prior.pps, FirstOfType(p.nalus, PpsType)));
      Decode(buf, prior) ==
        if p.err.Some? then Outcome(sets, p.err)
        else if sets.Complete() then Outcome(sets, None)
        else Outcome(sets, Some(MissingParameterSet))
  {
    WalkArraysAbsorbs(buf, MinRecordSize, buf[ArrayCountOffset] as nat, prior);
    AbsorbSelectsFirst(prior, ParseRecord(buf).nalus);
  }

  /** On a fresh `Conf`, Unmarshal succeeds if and only if the walk meets no
      bounds error and the record holds a VPS, an SPS and a PPS; the fields
      are then the first of each. */
  lemma FreshUnmarshalSucceedsIff(buf: seq<byte>)
    requires |buf| >= MinRecordSize
    ensures var p := ParseRecord(buf);
      var vps, sps, pps := FirstOfType(p.nalus, VpsType), FirstOfType(p.nalus, SpsType), FirstOfType(p.nalus, PpsType);
      && (Decode(buf, Unset).err.None? <==> p.err.None? && vps.Some? && sps.Some? && pps.Some?)
      && Decode(buf, Unset).sets == ParameterSets(vps, sps, pps)
  {
    FirstOccurrenceWins(buf, Unset);
  }

  // ---------------------------------------------------------------------
  // Which bytes the walk reads
  // ---------------------------------------------------------------------

  predicate AgreeOn(b1: seq<byte>, b2: seq<byte>, lo: nat, hi: nat) {
    hi <= |b1| && hi <= |b2| && forall k :: lo <= k < hi ==> b1[k] == b2[k]
  }

  /** The inner loop reads only the bytes it walks over, plus the buffer
      length when it stops on an error. */
  lemma {:induction false} WalkNalusLocal(b1: seq<byte>, b2: seq<byte>, pos: nat, naluType: byte, count: nat, s: ParameterSets)
    requires pos <= |b1| && pos <= |b2|
    requires var r := WalkNalus(b1, pos, naluType, count, s);
      AgreeOn(b1, b2, pos, r.pos) && (r.err.None? || |b1| == |b2|)
    ensures WalkNalus(b2, pos, naluType, count, s) == WalkNalus(b1, pos, naluType, count, s)
    decreases count
  {
    if count > 0 && pos + 2 <= |b1| {
      var len := BE16(b1[pos], b1[pos + 1]);
      if pos + 2 + len <= |b1| {
        var data := b1[pos + 2 .. pos + 2 + len];
        var next := pos + 2 + len;
        assert b2[pos + 2 .. next] == data;
        WalkNalusLocal(b1, b2, next, naluType, count - 1, Store(s, naluType, data));
      }
    }
  }

  /** The outer loop reads only the bytes it walks over, plus the buffer
      length when it stops on an error. */
  lemma {:induction false} WalkArraysLocal(b1: seq<byte>, b2: seq<byte>, pos: nat, count: nat, s: ParameterSets)
    requires pos <= |b1| && pos <= |b2|
    requires var r := WalkArrays(b1, pos, count, s);
      AgreeOn(b1, b2, pos, r.pos) && (r.err.None? || |b1| == |b2|)
    ensures WalkArrays(b2, pos, count, s) == WalkArrays(b1, pos, count, s)
    decreases count
  {
    if count > 0 && pos + 3 <= |b1| {
      var t, n := NaluType(b1[pos]), BE16(b1[pos + 1], b1[pos + 2]);
      var p := WalkNalus(b1, pos + 3, t, n, s);
      WalkNalusLocal(b1, b2, pos + 3, t, n, s);
      if p.err.None? {
        WalkArraysLocal(b1, b2, p.pos, count - 1, p.sets);
      }
    }
  }

  /** Bytes 0..21 of the record never affect the result of Unmarshal. */
  lemma HeaderIgnored(b1: seq<byte>, b2: seq<byte>, prior: ParameterSets)
    requires |b1| == |b2| && forall k :: ArrayCountOffset <= k < |b1| ==> b1[k] == b2[k]
    ensures Decode(b1, prior) == Decode(b2, prior)
  {
    if |b1| >= MinRecordSize {
      WalkArraysLocal(b1, b2, MinRecordSize, b1[ArrayCountOffset] as nat, prior);
    }
  }

  /** Bytes after the last array are ignored: appending anything to a record
      whose walk ends without a bounds error changes nothing. */
  lemma TrailingBytesIgnored(buf: seq<byte>, extra: seq<byte>, prior: ParameterSets)
    requires |buf| >= MinRecordSize
    requires Decode(buf, prior).err.None? || Decode(buf, prior).err == Some(MissingParameterSet)
    ensures Decode(buf + extra, prior) == Decode(buf, prior)
  {
    assert (buf + extra)[ArrayCountOffset] == buf[ArrayCountOffset];
    WalkArraysLocal(buf, buf + extra, MinRecordSize, buf[ArrayCountOffset] as nat, prior);
  }

  // ---------------------------------------------------------------------
  // Each bounds error names the check that failed
  // ---------------------------------------------------------------------

  /** The NALU loop fails with "incomplete NALU length" only where fewer than
      two bytes are left, and with "incomplete NALU data" only right after a
      length field that declares more bytes than are left. */
  lemma {:induction false} WalkNalusErrorsNameTheirCheck(buf: seq<byte>, pos: nat, naluType: byte, count: nat, s: ParameterSets)
    requires pos <= |buf|
    ensures var r := WalkNalus(buf, pos, naluType, count, s);
      && (r.err == Some(IncompleteNaluLength) ==> r.pos + 2 > |buf|)
      && (r.err == Some(IncompleteNaluData) ==>
            pos + 2 <= r.pos && r.pos + BE16(buf[r.pos - 2], buf[r.pos - 1]) > |buf|)
    decreases count
  {
    if count > 0 && pos + 2 <= |buf| {
      var len := BE16(buf[pos], buf[pos + 1]);
      if pos + 2 + len <= |buf| {
        WalkNalusErrorsNameTheirCheck(buf, pos + 2 + len, naluType, count - 1, Store(s, naluType, buf[pos + 2 .. pos + 2 + len]));
      }
    }
  }

  /** The array loop fails with "incomplete array header" only where fewer
      than three bytes are left, and with the two NALU errors only where
      their own checks fail. */
  lemma {:induction false} WalkArraysErrorsNameTheirCheck(buf: seq<byte>, pos: nat, count: nat, s: ParameterSets)
    requires pos <= |buf|
    ensures var r := WalkArrays(buf, pos, count, s);
      && (r.err == Some(IncompleteArrayHeader) ==> r.pos + 3 > |buf|)
      && (r.err == Some(IncompleteNaluLength) ==> r.pos + 2 > |buf|)
      && (r.err == Some(IncompleteNaluData) ==>
            pos + 2 <= r.pos && r.pos + BE16(buf[r.pos - 2], buf[r.pos - 1]) > |buf|)
    decreases count
  {
    if count > 0 && pos + 3 <= |buf| {
      var t, n := NaluType(buf[pos]), BE16(buf[pos + 1], buf[pos + 2]);
      var p := WalkNalus(buf, pos + 3, t, n, s);
      if p.err.Some? {
        assert WalkArrays(buf, pos, count, s) == p;
        WalkNalusErrorsNameTheirCheck(buf, pos + 3, t, n, s);
      } else {
        assert WalkArrays(buf, pos, count, s) == WalkArrays(buf, p.pos, count - 1, p.sets);
        WalkArraysErrorsNameTheirCheck(buf, p.pos, count - 1, p.sets);
      }
    }
  }

  // ---------------------------------------------------------------------
  // The top two bits of an array header
  // ---------------------------------------------------------------------

  /** `k` is the offset of the header byte of one of the `count` arrays that
      start at `pos`. */
  predicate ArrayHeaderAt(buf: seq<byte>, pos: nat, count: nat, k: nat)
    requires pos <= |buf|
    decreases count
  {
    && count > 0 && pos <= k < |buf|
    && (k == pos ||
        (pos + 3 <= |buf| &&
         var first := ParseNalus(buf, pos + 3, NaluType(buf[pos]), BE16(buf[pos + 1], buf[pos + 2]));
         first.err.None? && ArrayHeaderAt(buf, first.pos, count - 1, k)))
  }

  lemma {:induction false} TopBitsIgnoredFrom(buf: seq<byte>, pos: nat, count: nat, k: nat, b: byte, s: ParameterSets)
    requires pos <= |buf| && ArrayHeaderAt(buf, pos, count, k)
    requires NaluType(b) == NaluType(buf[k])
    ensures WalkArrays(buf[k := b], pos, count, s) == WalkArrays(buf, pos, count, s)
    decreases count
  {
    var edited := buf[k := b];
    if pos + 3 > |buf| {
      return;
    }
    var t, n := NaluType(buf[pos]), BE16(buf[pos + 1], buf[pos + 2]);
    var p := WalkNalus(buf, pos + 3, t, n, s);
    assert NaluType(edited[pos]) == t && BE16(edited[pos + 1], edited[pos + 2]) == n;
    assert WalkNalus(edited, pos + 3, t, n, s) == p by {
      WalkNalusAbsorbs(buf, pos + 3, t, n, s);
      WalkNalusLocal(buf, edited, pos + 3, t, n, s);
    }
    if p.err.None? {
      assert p.pos == ParseNalus(buf, pos + 3, t, n).pos by {
        WalkNalusAbsorbs(buf, pos + 3, t, n, s);
      }
      if k == pos {
        WalkArraysLocal(buf, edited, p.pos, count - 1, p.sets);
      } else {
        TopBitsIgnoredFrom(buf, p.pos, count - 1, k, b, p.sets);
      }
    }
  }

  /** The NAL unit type of an array is its header byte `& 0x3F`: the top two
      bits of any array header never influence Unmarshal. */
  lemma TypeMaskIgnored(buf: seq<byte>, k: nat, b: byte, prior: ParameterSets)
    requires |buf| >= MinRecordSize && ArrayHeaderAt(buf, MinRecordSize, buf[ArrayCountOffset] as nat, k)
    requires b % 64 == buf[k] % 64
    ensures Decode(buf[k := b], prior) == Decode(buf, prior)
  {
    TopBitsIgnoredFrom(buf, MinRecordSize, buf[ArrayCountOffset] as nat, k, b, prior);
  }

  // ---------------------------------------------------------------------
  // Marshal: layout, length fields, round trip, truncation
  // ---------------------------------------------------------------------

  /** A length field holds the length modulo 2^16. */
  lemma LengthFieldWraps(n: nat)
    ensures BE16(Hi(n), Lo(n)) == n % 0x1_0000
  {
    var q, r := n / 256, n % 256;
    var hi, lo := q / 256, q % 256;
    assert n == 256 * q + r;
    assert 256 * q == 0x1_0000 * hi + 256 * lo;
    assert 0 <= 256 * lo + r < 0x1_0000;
  }

  lemma MarshalledPieces(vps: seq<byte>, sps: seq<byte>, pps: seq<byte>)
    requires |sps| != 4
    ensures var b, v, s := Marshalled(vps, sps, pps).value, |vps|, |sps|;
      && b[..MinRecordSize] == RecordHeader(sps)
      && b[23..28 + v] == ArrayBytes(0x20, vps)
      && b[28 + v..33 + v + s] == ArrayBytes(0x21, sps)
      && b[33 + v + s..] == ArrayBytes(0x22, pps)
  {
    var h, a1, a2, a3 := RecordHeader(sps), ArrayBytes(0x20, vps), ArrayBytes(0x21, sps), ArrayBytes(0x22, pps);
    var b := h + a1 + a2 + a3;
    assert b[..23] == h;
    assert b[23..28 + |vps|] == a1;
    assert b[28 + |vps|..33 + |vps| + |sps|] == a2;
    assert b[33 + |vps| + |sps|..] == a3;
  }

  /** The byte layout of Marshal's output. */
  lemma MarshalledLayout(vps: seq<byte>, sps: seq<byte>, pps: seq<byte>)
    requires |sps| != 4
    ensures var b := Marshalled(vps, sps, pps).value;
      var v, s, p := |vps|, |sps|, |pps|;
      && |b| == 38 + v + s + p
      && b[0] == 1 && b[12] == 0xF0 && b[22] == 3
      && (s >= 5 ==> b[1..5] == sps[1..5])
      && (s < 4 ==> b[1..5] == [0, 0, 0, 0])
      && b[5..12] == Zeros(7) && b[13..22] == Zeros(9)
      && b[23..28] == [0x20, 0, 1, Hi(v), Lo(v)] && b[28..28 + v] == vps
      && b[28 + v..33 + v] == [0x21, 0, 1, Hi(s), Lo(s)] && b[33 + v..33 + v + s] == sps
      && b[33 + v + s..38 + v + s] == [0x22, 0, 1, Hi(p), Lo(p)] && b[38 + v + s..] == pps
  {
    var b, v, s := Marshalled(vps, sps, pps).value, |vps|, |sps|;
    MarshalledPieces(vps, sps, pps);
    var h := RecordHeader(sps);
    assert b[1..5] == h[1..5] == ProfileBytes(sps);
    assert b[5..12] == h[5..12] && b[13..22] == h[13..22];
    assert b[23..28] == ArrayBytes(0x20, vps)[..5] && b[28..28 + v] == ArrayBytes(0x20, vps)[5..];
    assert b[28 + v..33 + v] == ArrayBytes(0x21, sps)[..5] && b[33 + v..33 + v + s] == ArrayBytes(0x21, sps)[5..];
    assert b[33 + v + s..38 + v + s] == ArrayBytes(0x22, pps)[..5] && b[38 + v + s..] == ArrayBytes(0x22, pps)[5..];
  }

  /** Walking over one array as Marshal writes it, with a payload under
      65536 bytes, stores its payload. */
  lemma WalkOverArray(buf: seq<byte>, pos: nat, header: byte, payload: seq<byte>, next: nat, count: nat, s: ParameterSets)
    requires next == pos + 5 + |payload| <= |buf| && |payload| < 0x1_0000
    requires buf[pos..next] == ArrayBytes(header, payload)
    ensures WalkArrays(buf, pos, count + 1, s) == WalkArrays(buf, next, count, Store(s, NaluType(header), payload))
  {
    var a := ArrayBytes(header, payload);
    assert buf[pos] == a[0] && buf[pos + 1] == a[1] && buf[pos + 2] == a[2];
    assert buf[pos + 3] == a[3] && buf[pos + 4] == a[4];
    LengthFieldWraps(|payload|);
    assert buf[pos + 5..next] == a[5..] == payload;
    var stored := Store(s, NaluType(header), payload);
    assert WalkNalus(buf, pos + 3, NaluType(header), 1, s) == WalkNalus(buf, next, NaluType(header), 0, stored);
  }

  /** Walking over the three arrays of a marshalled record. */
  lemma WalkOverThreeArrays(b: seq<byte>, vps: seq<byte>, sps: seq<byte>, pps: seq<byte>, s: ParameterSets)
    requires |vps| < 0x1_0000 && |sps| < 0x1_0000 && |pps| < 0x1_0000
    requires |b| == 38 + |vps| + |sps| + |pps|
    requires b[23..28 + |vps|] == ArrayBytes(0x20, vps)
    requires b[28 + |vps|..33 + |vps| + |sps|] == ArrayBytes(0x21, sps)
    requires b[33 + |vps| + |sps|..] == ArrayBytes(0x22, pps)
    ensures WalkArrays(b, MinRecordSize, 3, s)
         == Progress(Store(Store(Store(s, VpsType, vps), SpsType, sps), PpsType, pps), |b|, None)
  {
    var p1, p2 := 28 + |vps|, 33 + |vps| + |sps|;
    var s1 := Store(s, VpsType, vps);
    var s2 := Store(s1, SpsType, sps);
    var s3 := Store(s2, PpsType, pps);
    assert NaluType(0x20) == VpsType && NaluType(0x21) == SpsType && NaluType(0x22) == PpsType;
    assert WalkArrays(b, 23, 3, s) == WalkArrays(b, p1, 2, s1) by {
      WalkOverArray(b, 23, 0x20, vps, p1, 2, s);
    }
    assert WalkArrays(b, p1, 2, s1) == WalkArrays(b, p2, 1, s2) by {
      WalkOverArray(b, p1, 0x21, sps, p2, 1, s1);
    }
    assert WalkArrays(b, p2, 1, s2) == WalkArrays(b, |b|, 0, s3) by {
      assert b[p2..|b|] == b[p2..];
      WalkOverArray(b, p2, 0x22, pps, |b|, 0, s2);
    }
  }

  /** Round trip: Unmarshal on a fresh `Conf` recovers exactly what Marshal
      encoded, when every payload fits a 16-bit length and the SPS is not
      four bytes long. */
  lemma RoundTrip(vps: seq<byte>, sps: seq<byte>, pps: seq<byte>)
    requires |vps| < 0x1_0000 && |sps| < 0x1_0000 && |pps| < 0x1_0000 && |sps| != 4
    ensures Marshalled(vps, sps, pps).Some?
    ensures Decode(Marshalled(vps, sps, pps).value, Unset) == Outcome(ParameterSets(Some(vps), Some(sps), Some(pps)), None)
  {
    var b := Marshalled(vps, sps, pps).value;
    MarshalledPieces(vps, sps, pps);
    assert b[22] == RecordHeader(sps)[22] == 3;
    WalkOverThreeArrays(b, vps, sps, pps, Unset);
  }

  /** The error for a record cut `offset` bytes into an array. */
  function TruncationError(offset: nat): Error {
    if offset < 3 then IncompleteArrayHeader
    else if offset < 5 then IncompleteNaluLength
    else IncompleteNaluData
  }

  /** How far into its array the `k`-th byte of a marshalled record lies. */
  function ArrayOffset(k: nat, vpsLen: nat, spsLen: nat): nat
    requires k >= MinRecordSize
  {
    if k < 28 + vpsLen then k - 23
    else if k < 33 + vpsLen + spsLen then k - 28 - vpsLen
    else k - 33 - vpsLen - spsLen
  }

  /** The array header and NALU count of an array the buffer holds at least
      three bytes of. */
  lemma CutArrayHeader(buf: seq<byte>, pos: nat, header: byte, payload: seq<byte>)
    requires pos + 3 <= |buf| < pos + 5 + |payload|
    requires buf[pos..] == ArrayBytes(header, payload)[..|buf| - pos]
    ensures BE16(buf[pos + 1], buf[pos + 2]) == 1
  {
    var a := ArrayBytes(header, payload);
    assert buf[pos + 1] == buf[pos..][1] == a[1];
    assert buf[pos + 2] == buf[pos..][2] == a[2];
  }

  /** A cut inside the NALU length field. */
  lemma CutInLength(buf: seq<byte>, pos: nat, header: byte, payload: seq<byte>, count: nat, s: ParameterSets)
    requires pos + 3 <= |buf| < pos + 5
    requires buf[pos..] == ArrayBytes(header, payload)[..|buf| - pos]
    ensures WalkArrays(buf, pos, count + 1, s).err == Some(IncompleteNaluLength)
  {
    CutArrayHeader(buf, pos, header, payload);
    var w := WalkNalus(buf, pos + 3, NaluType(buf[pos]), 1, s);
    assert w == Progress(s, pos + 3, Some(IncompleteNaluLength));
    assert WalkArrays(buf, pos, count + 1, s) == w;
  }

  /** A cut inside the payload. */
  lemma CutInPayload(buf: seq<byte>, pos: nat, header: byte, payload: seq<byte>, count: nat, s: ParameterSets)
    requires |payload| < 0x1_0000 && pos + 5 <= |buf| < pos + 5 + |payload|
    requires buf[pos..] == ArrayBytes(header, payload)[..|buf| - pos]
    ensures WalkArrays(buf, pos, count + 1, s).err == Some(IncompleteNaluData)
  {
    CutArrayHeader(buf, pos, header, payload);
    assert BE16(buf[pos + 3], buf[pos + 4]) == |payload| by {
      var a := ArrayBytes(header, payload);
      assert buf[pos + 3] == buf[pos..][3] == a[3];
      assert buf[pos + 4] == buf[pos..][4] == a[4];
      LengthFieldWraps(|payload|);
    }
    var w := WalkNalus(buf, pos + 3, NaluType(buf[pos]), 1, s);
    assert w == Progress(s, pos + 5, Some(IncompleteNaluData));
    assert WalkArrays(buf, pos, count + 1, s) == w;
  }

  /** Walking into an array that the buffer cuts short fails with the error
      of the field the cut falls in. */
  lemma WalkIntoCutArray(buf: seq<byte>, pos: nat, header: byte, payload: seq<byte>, count: nat, s: ParameterSets)
    requires |payload| < 0x1_0000 && pos <= |buf| < pos + 5 + |payload|
    requires buf[pos..] == ArrayBytes(header, payload)[..|buf| - pos]
    ensures WalkArrays(buf, pos, count + 1, s).err == Some(TruncationError(|buf| - pos))
  {
    if |buf| - pos >= 5 {
      CutInPayload(buf, pos, header, payload, count, s);
    } else if |buf| - pos >= 3 {
      CutInLength(buf, pos, header, payload, count, s);
    }
  }

  lemma SliceOfPrefix(b: seq<byte>, k: nat, i: nat, j: nat)
    requires i <= j <= k <= |b|
    ensures b[..k][i..j] == b[i..j]
  {
  }

  /** A record cut inside the array that runs from `start` to `next`. */
  lemma CutInArray(b: seq<byte>, start: nat, header: byte, payload: seq<byte>, next: nat, k: nat, count: nat, s: ParameterSets)
    requires |payload| < 0x1_0000 && next == start + 5 + |payload| <= |b|
    requires b[start..next] == ArrayBytes(header, payload)
    requires start <= k < next
    ensures WalkArrays(b[..k], start, count + 1, s).err == Some(TruncationError(k - start))
  {
    var t := b[..k];
    assert t[start..] == ArrayBytes(header, payload)[..k - start] by {
      assert t[start..] == b[start..k] == b[start..next][..k - start];
    }
    WalkIntoCutArray(t, start, header, payload, count, s);
  }

  /** A record cut after the array that runs from `start` to `next` walks
      over that array. */
  lemma CutAfterArray(b: seq<byte>, start: nat, header: byte, payload: seq<byte>, next: nat, k: nat, count: nat, s: ParameterSets)
    requires |payload| < 0x1_0000 && next == start + 5 + |payload| <= k <= |b|
    requires b[start..next] == ArrayBytes(header, payload)
    ensures WalkArrays(b[..k], start, count + 1, s) == WalkArrays(b[..k], next, count, Store(s, NaluType(header), payload))
  {
    SliceOfPrefix(b, k, start, next);
    WalkOverArray(b[..k], start, header, payload, next, count, s);
  }

  /** Cutting a record of three arrays shaped as Marshal writes them. */
  lemma CutRecordFails(b: seq<byte>, vps: seq<byte>, sps: seq<byte>, pps: seq<byte>, k: nat, prior: ParameterSets)
    requires |vps| < 0x1_0000 && |sps| < 0x1_0000 && |pps| < 0x1_0000
    requires |b| == 38 + |vps| + |sps| + |pps|
    requires b[23..28 + |vps|] == ArrayBytes(0x20, vps)
    requires b[28 + |vps|..33 + |vps| + |sps|] == ArrayBytes(0x21, sps)
    requires b[33 + |vps| + |sps|..] == ArrayBytes(0x22, pps)
    requires MinRecordSize <= k < |b|
    ensures WalkArrays(b[..k], MinRecordSize, 3, prior).err == Some(TruncationError(ArrayOffset(k, |vps|, |sps|)))
  {
    var p1, p2 := 28 + |vps|, 33 + |vps| + |sps|;
    var s1 := Store(prior, VpsType, vps);
    var s2 := Store(s1, SpsType, sps);
    assert NaluType(0x20) == VpsType && NaluType(0x21) == SpsType;
    if k < p1 {
      CutInArray(b, 23, 0x20, vps, p1, k, 2, prior);
    } else if k < p2 {
      CutAfterArray(b, 23, 0x20, vps, p1, k, 2, prior);
      CutInArray(b, p1, 0x21, sps, p2, k, 1, s1);
    } else {
      CutAfterArray(b, 23, 0x20, vps, p1, k, 2, prior);
      CutAfterArray(b, p1, 0x21, sps, p2, k, 1, s1);
      assert b[p2..|b|] == b[p2..];
      CutInArray(b, p2, 0x22, pps, |b|, k, 0, s2);
    }
  }

  /** No proper prefix of a marshalled record decodes when every payload is
      under 65536 bytes and the SPS is not of four bytes: each cut fails with
      the error of the field it falls in. (A longer payload's length field
      wraps, and a prefix can then decode.) */
  lemma TruncatedRecordFails(vps: seq<byte>, sps: seq<byte>, pps: seq<byte>, k: nat, prior: ParameterSets)
    requires |vps| < 0x1_0000 && |sps| < 0x1_0000 && |pps| < 0x1_0000 && |sps| != 4
    requires k < 38 + |vps| + |sps| + |pps|
    ensures Marshalled(vps, sps, pps).Some?
    ensures Decode(Marshalled(vps, sps, pps).value[..k], prior).err
         == Some(if k < MinRecordSize then TooShort else TruncationError(ArrayOffset(k, |vps|, |sps|)))
  {
    var b := Marshalled(vps, sps, pps).value;
    if k >= MinRecordSize {
      MarshalledPieces(vps, sps, pps);
      assert b[22] == RecordHeader(sps)[22] == 3;
      assert b[..k][22] == 3;
      CutRecordFails(b, vps, sps, pps, k, prior);
    }
  }
}
