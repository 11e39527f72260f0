# HEVC decoder configuration record codec (RTMP H265 configuration)

This project models the RTMP H265 configuration of `source/rtmp/h265conf/h265conf.go`
in Dafny. A `Conf` holds the three HEVC parameter sets (VPS, SPS, PPS). It reads
and writes them as an HEVC decoder configuration record, the structure defined
in section 8.3.3.1 of ISO/IEC 14496-15:

- `(*Conf).Unmarshal(buf)` walks the record.
  - It rejects buffers of fewer than 23 bytes.
  - It skips the 22-byte fixed header and reads the array count at offset 22.
  - For every array, it reads a header byte and a big-endian 16-bit NALU
    count. The NAL unit type is the low six bits of the header byte.
  - For every NALU, it reads a big-endian 16-bit length and then the payload.
  - It keeps the first VPS (type 32), SPS (33) and PPS (34) in the receiver.
  - Each bounds check has its own error. The call fails if a field is still
    nil at the end.
- `(Conf).Marshal()` builds a fixed-shape record: a 23-byte header, then one
  VPS, one SPS and one PPS array, each holding a single NALU.

The project has three modules.

- `RecordFormat` (record_format.dfy) holds the meaning of both operations as
  functions. `Decode(buf, prior)` gives the receiver's fields and the error
  after `Unmarshal` on a receiver whose fields were `prior`. `WalkArrays` and
  `WalkNalus` are the two loops. `Marshalled(vps, sps, pps)` gives Marshal's
  bytes. Bytes are the integers 0..255, and each field is an
  `Option<seq<byte>>`: `None` is a nil slice and `Some([])` is an empty
  non-nil one.
- `H265Conf` (h265conf.dfy) is the imperative code.
  - `class Conf` has the three fields.
  - `Unmarshal` advances a cursor through the array loop and updates the
    fields in place. The NALU loop is the method `ReadNalus`, and the `switch`
    is the method `Keep`.
  - `Marshal` fills a freshly allocated array byte by byte and with copies.
  - Each method is proved equal to its function in `RecordFormat`.
- `RecordProperties` (record_properties.dfy) proves what the codec promises.
  It describes the record a second way, as the list of NAL units it contains
  with the first of each type selected, and proves that `Decode` agrees with
  that description. It also proves:
  - which bytes the walk reads;
  - that the top two bits of an array header are ignored;
  - Marshal's byte layout;
  - the round trip;
  - the exact error for every proper prefix of a marshalled record whose
    payloads are each under 65536 bytes and whose SPS is not of four bytes.

Behaviour reproduced as the code has it:

- The array header bytes Marshal writes are `0x20 | 32`, `0x20 | 33` and
  `0x20 | 34`, that is 0x20, 0x21 and 0x22. They carry no array-completeness
  bit.
- Marshal copies SPS[1..4] into header bytes 1..4, not SPS[0..3]. The guard is
  `len(SPS) >= 4`, so an SPS of exactly four bytes indexes out of range. The
  model gives `None` for that panic.
- A field counts as set when it is non-nil. An empty payload sets its field,
  so a record that Marshal built from a nil field still decodes successfully.
- Length fields hold the length modulo 2^16, while the payload is copied in
  full.
- Unmarshal writes the receiver in place. Fields set before an error stay set,
  and a field that is already non-nil is never overwritten.

## Model

| member | source | states |
|---|---|---|
| RecordFormat.BE16 | source/rtmp/h265conf/h265conf.go:45 | a two-byte big-endian count or length is below 65536 |
| RecordFormat.Store | source/rtmp/h265conf/h265conf.go:55-71 | storing one NALU never changes a field that is already set |
| RecordFormat.WalkNalus | source/rtmp/h265conf/h265conf.go:40-72 | the NALU loop's cursor never moves back or past the buffer; the loop only fails with "incomplete NALU length" or "incomplete NALU data"; set fields stay set |
| RecordFormat.WalkArrays | source/rtmp/h265conf/h265conf.go:29-73 | the array loop's cursor stays within the buffer; it only fails with one of the three bounds errors; set fields stay set |
| RecordFormat.Decode | source/rtmp/h265conf/h265conf.go:16-80 | the size error occurs exactly for buffers under 23 bytes; success means all three fields are set; the missing-parameter-set error means one is unset; fields set on entry keep their bytes. Its helpers: `NaluType` is `& 0x3F` (line 34), `Finish` is the final nil check (lines 75-79) |
| RecordFormat.Marshalled | source/rtmp/h265conf/h265conf.go:83-145 | Marshal fails (index out of range) exactly when the SPS has four bytes; otherwise its output has 38 + \|VPS\| + \|SPS\| + \|PPS\| bytes. Its helpers: `ProfileBytes` is the `len(SPS) >= 4` guard and SPS[1..4] copy (lines 96-101), `RecordHeader` the 23 header bytes (lines 93-105), `ArrayBytes` one array block (lines 110-118), `Hi` and `Lo` are `byte(n >> 8)` and `byte(n)` (lines 115-116) |
| H265Conf.CopyInto | source/rtmp/h265conf/h265conf.go:118 | `copy` puts the source bytes at the offset and leaves every other byte alone |
| H265Conf.WriteArray | source/rtmp/h265conf/h265conf.go:109-119 | one array block appends header byte, count 1, the truncated 16-bit length and the payload after the bytes before it, and leaves the rest of the buffer alone |
| H265Conf.Conf.constructor | source/rtmp/h265conf/h265conf.go:9-13 | a new `Conf` has all three fields nil |
| H265Conf.Conf.Unmarshal | source/rtmp/h265conf/h265conf.go:16-80 | the returned error and the receiver's new fields are exactly those of `Decode` on the old fields |
| H265Conf.Conf.ReadNalus | source/rtmp/h265conf/h265conf.go:40-72 | the NALU loop leaves the cursor, the error and the fields exactly as `WalkNalus` says |
| H265Conf.Conf.Keep | source/rtmp/h265conf/h265conf.go:55-71 | the `switch` updates the fields exactly as `Store` does |
| H265Conf.Conf.Marshal | source/rtmp/h265conf/h265conf.go:83-145 | the method returns exactly `Marshalled` of the three payloads, a nil field counting as empty (`Payload` is `len` of a possibly nil slice, lines 84-86) |
| RecordProperties.ParseNalus | source/rtmp/h265conf/h265conf.go:40-53 | the NALUs of one array, read independently of the receiver, end within the buffer |
| RecordProperties.ParseArrays | source/rtmp/h265conf/h265conf.go:29-53 | the NALUs of all arrays, read independently of the receiver, end within the buffer |
| RecordProperties.AbsorbSelectsFirst | source/rtmp/h265conf/h265conf.go:55-71 | storing a list of NALUs one by one keeps each set field and otherwise takes the first payload of that type |
| RecordProperties.WalkNalusAbsorbs | source/rtmp/h265conf/h265conf.go:40-72 | the NALU loop stores exactly the NALUs of its array, in buffer order, and stops where and how the plain parse stops |
| RecordProperties.WalkArraysAbsorbs | source/rtmp/h265conf/h265conf.go:29-73 | the array loop stores exactly the NALUs of its arrays, in buffer order, and stops where and how the plain parse stops |
| RecordProperties.FirstOccurrenceWins | source/rtmp/h265conf/h265conf.go:55-79 | on any receiver, each field keeps its old value if set and otherwise becomes the first payload of its type; later duplicates and other types are skipped; the error is the first bounds error, else "missing" exactly when a field is unset |
| RecordProperties.FreshUnmarshalSucceedsIff | source/rtmp/h265conf/h265conf.go:75-79 | on a fresh `Conf`, Unmarshal succeeds if and only if no bounds error occurs and a VPS, SPS and PPS (possibly empty) occur; the fields are then the first of each |
| RecordProperties.WalkNalusLocal | source/rtmp/h265conf/h265conf.go:40-53 | the NALU loop depends only on the bytes it walks over (and on the buffer length when it fails) |
| RecordProperties.WalkArraysLocal | source/rtmp/h265conf/h265conf.go:29-38 | the array loop depends only on the bytes it walks over (and on the buffer length when it fails) |
| RecordProperties.HeaderIgnored | source/rtmp/h265conf/h265conf.go:21-26 | two buffers that differ only in bytes 0..21 decode alike |
| RecordProperties.TrailingBytesIgnored | source/rtmp/h265conf/h265conf.go:73-79 | bytes appended after the last array change nothing, unless the walk had hit a bounds error |
| RecordProperties.WalkNalusErrorsNameTheirCheck | source/rtmp/h265conf/h265conf.go:40-53 | in any buffer, the NALU loop fails with "incomplete NALU length" only where fewer than two bytes are left, and with "incomplete NALU data" only right after a length field declaring more bytes than are left |
| RecordProperties.WalkArraysErrorsNameTheirCheck | source/rtmp/h265conf/h265conf.go:29-53 | in any buffer, "incomplete array header" occurs only where fewer than three bytes are left, and each NALU error only where its own check fails |
| RecordProperties.TopBitsIgnoredFrom | source/rtmp/h265conf/h265conf.go:34 | replacing an array header byte by one with the same low six bits leaves the array loop unchanged |
| RecordProperties.TypeMaskIgnored | source/rtmp/h265conf/h265conf.go:34 | the top two bits of any array header byte never affect Unmarshal |
| RecordProperties.LengthFieldWraps | source/rtmp/h265conf/h265conf.go:115-116 | the length field Marshal writes reads back as the length modulo 65536 |
| RecordProperties.MarshalledPieces | source/rtmp/h265conf/h265conf.go:93-144 | Marshal's output is the 23-byte header followed by the VPS, SPS and PPS array blocks at their offsets |
| RecordProperties.MarshalledLayout | source/rtmp/h265conf/h265conf.go:89-144 | the full byte layout: length, bytes 0, 12 and 22, SPS[1..4] or zeros in bytes 1..4, zero filler, and the three arrays with header bytes 0x20, 0x21, 0x22, count 1, truncated length and payload |
| RecordProperties.WalkOverArray | source/rtmp/h265conf/h265conf.go:109-119 | for a payload under 65536 bytes, decoding an array block as Marshal writes it stores its payload under its type and moves past it |
| RecordProperties.WalkOverThreeArrays | source/rtmp/h265conf/h265conf.go:107-144 | for payloads under 65536 bytes, decoding Marshal's three arrays stores VPS, SPS and PPS in that order and ends at the end of the buffer without error |
| RecordProperties.RoundTrip | source/rtmp/h265conf/h265conf.go:107-144 | for payloads under 65536 bytes and an SPS not of four bytes, Unmarshal on a fresh `Conf` of Marshal's output succeeds with exactly the three payloads |
| RecordProperties.CutInLength | source/rtmp/h265conf/h265conf.go:41-43 | an array cut inside its NALU length field fails with "incomplete NALU length" |
| RecordProperties.CutInPayload | source/rtmp/h265conf/h265conf.go:48-50 | for a payload under 65536 bytes, an array cut inside its payload fails with "incomplete NALU data" |
| RecordProperties.WalkIntoCutArray | source/rtmp/h265conf/h265conf.go:30-50 | for a payload under 65536 bytes, an array cut short fails with the error of the field the cut falls in |
| RecordProperties.CutRecordFails | source/rtmp/h265conf/h265conf.go:29-50 | for payloads under 65536 bytes, a record of Marshal's three arrays cut after the header fails with the error of the field the cut falls in |
| RecordProperties.TruncatedRecordFails | source/rtmp/h265conf/h265conf.go:17-50 | for payloads under 65536 bytes and an SPS not of four bytes, every proper prefix of Marshal's output fails to decode: with the size error below 23 bytes, otherwise with the error of the array field the cut falls in |

## Left out

- source/export.go is not part of this model. It is a C-callable lifecycle wrapper: a global server instance under a mutex, C string conversion, a goroutine, and calls into a server package that is not part of this model either.
- The error values are an `Error` datatype with one constructor per `fmt.Errorf` call. The message texts are not modelled.
- The contents of the VPS, SPS and PPS and of the skipped header fields are opaque bytes. Nothing interprets them, as in the code.
- H265Conf.Conf.Marshal: Go allocates 41 + lengths bytes and returns a slice of the first 38 + lengths. The model allocates the same array and returns the prefix as a value, so the slice's spare capacity and its aliasing of the array are not modelled.
- H265Conf.Conf.Unmarshal: `make` plus `copy` gives each stored field its own copy of the NALU bytes. Fields here are immutable sequences, so there is no aliasing with `buf` to model.
- H265Conf.Conf.Marshal: Go's `Marshal` also returns an `error` that is always nil; the model drops it, and its `Option` result is `None` only for the panic below.
- H265Conf.Conf.Marshal: the index-out-of-range panic on a four-byte SPS is modelled as a `None` result, not as a crash of the program.
- Behaviour kept as the code has it, where a reader might expect otherwise (the completeness bit of section 8.3.3.1 of ISO/IEC 14496-15, and the code's own comments at h265conf.go:110, 122 and 134, suggest a different array header byte):
  - header bytes 1..4 are SPS[1..4], not SPS[0..3];
  - the array header bytes have no completeness bit;
  - an empty non-nil field counts as set;
  - a four-byte SPS makes Marshal panic;
  - an error leaves the fields set so far in the receiver.
