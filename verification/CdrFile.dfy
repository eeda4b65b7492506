/** The CDR file of section 6.1.1 of TS 32.297: what `Encoding` writes and what `Decoding` reads back. */
module CdrFile {
  import opened Octets
  import opened CdrBits

  type Address = s: seq<byte> | |s| == 20 witness seq(20, _ => 0)

  datatype FileHeader = FileHeader(
    fileLength: uint32, headerLength: uint32,
    highRelease: byte, highVersion: byte, lowRelease: byte, lowVersion: byte,
    opening: TimeStamp, lastAppended: TimeStamp,
    numberOfCdrs: uint32, sequenceNumber: uint32, closureReason: byte,
    address: Address, lostCdrs: byte,
    lengthOfFilter: uint16, filter: seq<byte>,
    lengthOfExtension: uint16, extension: seq<byte>,
    highReleaseExtension: byte, lowReleaseExtension: byte)

  datatype CdrHeader = CdrHeader(
    length: uint16, release: byte, version: byte, format: byte, tsNumber: byte, releaseExtension: byte)

  datatype Cdr = Cdr(hdr: CdrHeader, bytes: seq<byte>)

  datatype File = File(hdr: FileHeader, cdrs: seq<Cdr>)

  const OUT_OF_RANGE := GoPanic("slice bounds out of range")

  function Uint16(s: seq<byte>): (x: uint16)
    requires |s| == 2
  {
    NumberBound(s);
    PowersOf256();
    Number(s)
  }

  function Uint32(s: seq<byte>): (x: uint32)
    requires |s| == 4
  {
    NumberBound(s);
    PowersOf256();
    Number(s)
  }

  // ---------------------------------------------------------------- writing

  function ExtensionOctet(release: byte, extension: byte): (s: seq<byte>) {
    if release == 7 then [extension] else []
  }

  /** The fields of the file header in the order they are written. */
  function HeaderPieces(h: FileHeader): (es: seq<seq<byte>>)
    ensures |es| == 17
  {
    [BigEndian(h.fileLength, 4), BigEndian(h.headerLength, 4),
     [Octet(h.highRelease, h.highVersion)], [Octet(h.lowRelease, h.lowVersion)],
     BigEndian(Pack(h.opening), 4), BigEndian(Pack(h.lastAppended), 4),
     BigEndian(h.numberOfCdrs, 4), BigEndian(h.sequenceNumber, 4),
     [h.closureReason], h.address, [h.lostCdrs],
     BigEndian(h.lengthOfFilter, 2), h.filter, BigEndian(h.lengthOfExtension, 2), h.extension,
     ExtensionOctet(h.highRelease, h.highReleaseExtension), ExtensionOctet(h.lowRelease, h.lowReleaseExtension)]
  }

  function EncodeHeader(h: FileHeader): (s: seq<byte>) {
    Flatten(HeaderPieces(h), 17)
  }

  function CdrHeaderBytes(h: CdrHeader): (s: seq<byte>) {
    BigEndian(h.length, 2) + [Octet(h.release, h.version), Octet(h.format, h.tsNumber)]
    + ExtensionOctet(h.release, h.releaseExtension)
  }

  function EncodeCdr(c: Cdr): (s: seq<byte>) {
    CdrHeaderBytes(c.hdr) + c.bytes
  }

  function EncodedCdrs(cs: seq<Cdr>): (es: seq<seq<byte>>) {
    seq(|cs|, i requires 0 <= i < |cs| => EncodeCdr(cs[i]))
  }

  function Encode(f: File): (s: seq<byte>) {
    EncodeHeader(f.hdr) + Flatten(EncodedCdrs(f.cdrs), |f.cdrs|)
  }

  // ---------------------------------------------------------------- reading

  function DecodeHeader(data: seq<byte>): (r: Result<(FileHeader, nat)>) {
    var bounds := VariableBounds(data);
    if bounds.Err? then Err(bounds.error)
    else Extended(data, bounds.value.1, HeaderFields(data, bounds.value.0, bounds.value.1))
  }

  /**
   * Where the routeing filter and the private extension end. The indices are uint16 in the source and wrap; every
   * slice is checked as Go would.
   */
  function VariableBounds(data: seq<byte>): (r: Result<(nat, nat)>)
    ensures r.Ok? ==> 50 <= r.value.0 && r.value.0 + 2 <= r.value.1 <= |data| && r.value.1 < 0x1_0000
  {
    if |data| < 50 then Err(OUT_OF_RANGE)
    else
      var xy := (50 + Uint16(data[48..50])) % 0x1_0000;
      var hi := (xy + 2) % 0x1_0000;
      if !(50 <= xy <= hi <= |data|) then Err(OUT_OF_RANGE)
      else
        var n := (hi + Uint16(data[xy..hi])) % 0x1_0000;
        if !(hi <= n <= |data|) then Err(OUT_OF_RANGE) else Ok((xy, n))
  }

  /** The header's fields up to the private extension, which ends at `n`. */
  function HeaderFields(data: seq<byte>, xy: nat, n: nat): (h: FileHeader)
    requires 50 <= xy && xy + 2 <= n <= |data|
  {
    FileHeader(Uint32(data[0..4]), Uint32(data[4..8]), data[8] / 32, data[8] % 32, data[9] / 32, data[9] % 32,
               Unpack(Uint32(data[10..14])), Unpack(Uint32(data[14..18])), Uint32(data[18..22]), Uint32(data[22..26]),
               data[26], data[27..47], data[47], Uint16(data[48..50]), data[50..xy], Uint16(data[xy..xy + 2]),
               data[xy + 2..n], 0, 0)
  }

  /** The two release extensions; the low one is looked for one octet on, whether or not the high one is there. */
  function Extended(data: seq<byte>, n: uint16, h: FileHeader): (r: Result<(FileHeader, nat)>) {
    var high, low := h.highRelease == 7, h.lowRelease == 7;
    if high && n >= |data| then Err(OUT_OF_RANGE)
    else if low && (n + 1) % 0x1_0000 >= |data| then Err(OUT_OF_RANGE)
    else Ok((h.(highReleaseExtension := if high then data[n] else 0,
    lowReleaseExtension := if low then data[(n + 1) % 0x1_0000] else 0),
    n + (if high then 1 else 0) + (if low then 1 else 0)))
  }

  /** Offsets into the records are uint32 and wrap. */
  function Inc(x: nat, d: nat): (y: uint32)
    ensures x + d < 0x1_0000_0000 ==> y == x + d
  {
    (x + d) % 0x1_0000_0000
  }

  /** One record from `tail`, and the offset after it. */
  function DecodeCdr(data: seq<byte>, tail: nat): (r: Result<(Cdr, nat)>) {
    var t2, t3, t4 := Inc(tail, 2), Inc(tail, 3), Inc(tail, 4);
    if !(tail <= t2 < |data|) || t3 >= |data| then Err(OUT_OF_RANGE)
    else
      var h := CdrHeader(Uint16(data[tail..t2]), data[t2] / 32, data[t2] % 32, data[t3] / 32, data[t3] % 32, 0);
      if h.release != 7 then DecodeBody(data, h, t4)
      else if t4 >= |data| then Err(OUT_OF_RANGE)
      else DecodeBody(data, h.(releaseExtension := data[t4]), Inc(tail, 5))
  }

  function DecodeBody(data: seq<byte>, h: CdrHeader, lo: nat): (r: Result<(Cdr, nat)>) {
    var up := Inc(lo, h.length);
    if !(lo <= up <= |data|) then Err(OUT_OF_RANGE) else Ok((Cdr(h, data[lo..up]), up))
  }

  /** The first `k` records from `tail`. */
  function DecodeCdrs(data: seq<byte>, tail: nat, k: nat): (r: Result<(seq<Cdr>, nat)>)
    ensures r.Ok? ==> |r.value.0| == k
  {
    Repeat(CdrReader(data), tail, k)
  }

  function CdrReader(data: seq<byte>): nat -> Result<(Cdr, nat)> {
    t => DecodeCdr(data, t)
  }

  /** The file read from `data` and the offset reached. */
  function Decode(data: seq<byte>): (r: Result<(File, nat)>) {
    var h := DecodeHeader(data);
    if h.Err? then Err(h.error)
    else
      var cs := DecodeCdrs(data, h.value.1, h.value.0.numberOfCdrs);
      if cs.Err? then Err(cs.error) else Ok((File(h.value.0, cs.value.0), cs.value.1))
  }

  // ---------------------------------------------------------------- what survives

  /** Bit fields fit, the length is the record's, and there is an extension only where one is written. */
  predicate FaithfulCdr(c: Cdr) {
    && c.hdr.release < 8 && c.hdr.version < 32 && c.hdr.format < 8 && c.hdr.tsNumber < 32
    && c.hdr.length == |c.bytes|
    && (c.hdr.release != 7 ==> c.hdr.releaseExtension == 0)
  }

  /** Where the octets after the private extension begin. */
  function HeaderEnd(h: FileHeader): nat {
    52 + h.lengthOfFilter + h.lengthOfExtension
  }

  predicate FaithfulHeader(h: FileHeader) {
    && h.highRelease < 8 && h.highVersion < 32 && h.lowRelease < 8 && h.lowVersion < 32
    && InRange(h.opening) && InRange(h.lastAppended)
    && h.lengthOfFilter == |h.filter| && h.lengthOfExtension == |h.extension|
    && HeaderEnd(h) < 0x1_0000
    && (h.highRelease != 7 ==> h.highReleaseExtension == 0)
    && (h.lowRelease != 7 ==> h.lowReleaseExtension == 0)
  }

  /**
   * With a low release of 7 the reader takes as its extension the octet after the one at the header's end. That is
   * the right octet when a high extension precedes it; otherwise it is the first octet of the first record, and past
   * index 65535 the first octet of the file.
   */
  predicate LowExtensionSurvives(f: File) {
    var h := f.hdr;
    h.lowRelease == 7 ==>
      if HeaderEnd(h) == 0xffff then h.lowReleaseExtension == h.fileLength / 0x100_0000
      else h.highRelease == 7 || (f.cdrs != [] && h.lowReleaseExtension == f.cdrs[0].hdr.length / 256)
  }

  predicate Faithful(f: File) {
    && FaithfulHeader(f.hdr)
    && f.hdr.numberOfCdrs == |f.cdrs|
    && (forall i :: 0 <= i < |f.cdrs| ==> FaithfulCdr(f.cdrs[i]))
    && LowExtensionSurvives(f)
  }

  // ---------------------------------------------------------------- one record

  /** A record's octets, part by part. */
  predicate CdrLies(data: seq<byte>, tail: nat, c: Cdr, end: nat) {
    var x := |ExtensionOctet(c.hdr.release, c.hdr.releaseExtension)|;
    && tail + 4 + x <= end <= |data|
    && data[tail..tail + 2] == BigEndian(c.hdr.length, 2)
    && data[tail + 2] == Octet(c.hdr.release, c.hdr.version)
    && data[tail + 3] == Octet(c.hdr.format, c.hdr.tsNumber)
    && (x == 1 ==> data[tail + 4] == c.hdr.releaseExtension)
    && data[tail + 4 + x..end] == c.bytes
  }

  lemma CdrLayout(data: seq<byte>, tail: nat, c: Cdr, end: nat)
    requires tail <= end <= |data|
    ensures data[tail..end] == EncodeCdr(c) <==> CdrLies(data, tail, c, end)
  {
    var h := c.hdr;
    FourParts(data, tail, BigEndian(h.length, 2), Octet(h.release, h.version), Octet(h.format, h.tsNumber),
              ExtensionOctet(h.release, h.releaseExtension), c.bytes, end);
  }

  lemma FourParts(data: seq<byte>, lo: nat, a: seq<byte>, b: byte, c: byte, x: seq<byte>, z: seq<byte>, hi: nat)
    requires lo <= hi <= |data| && |a| == 2 && |x| <= 1
    ensures data[lo..hi] == a + [b, c] + x + z <==>
              && lo + 4 + |x| <= hi && data[lo..lo + 2] == a && data[lo + 2] == b && data[lo + 3] == c
              && (|x| == 1 ==> data[lo + 4] == x[0]) && data[lo + 4 + |x|..hi] == z
  {
    var s := a + [b, c] + x + z;
    if data[lo..hi] == s {
      assert forall i :: lo <= i < hi ==> data[i] == s[i - lo];
    }
  }

  /** The reader's view of a record that lies within bounds, with no index wrapping. */
  lemma CdrReads(data: seq<byte>, tail: nat, c: Cdr, end: nat)
    requires tail + 4 + (if c.hdr.release == 7 then 1 else 0) + |c.bytes| == end <= |data| && end < 0x1_0000_0000
    requires Uint16(data[tail..tail + 2]) == c.hdr.length == |c.bytes|
    requires data[tail + 2] / 32 == c.hdr.release && data[tail + 2] % 32 == c.hdr.version
    requires data[tail + 3] / 32 == c.hdr.format && data[tail + 3] % 32 == c.hdr.tsNumber
    requires c.hdr.releaseExtension == if c.hdr.release == 7 then data[tail + 4] else 0
    requires data[end - |c.bytes|..end] == c.bytes
    ensures DecodeCdr(data, tail) == Ok((c, end))
  {
  }

  lemma CdrRoundTrip(c: Cdr, data: seq<byte>, tail: nat, end: nat)
    requires FaithfulCdr(c) && tail <= end <= |data| < 0x1_0000_0000 && data[tail..end] == EncodeCdr(c)
    ensures DecodeCdr(data, tail) == Ok((c, end))
  {
    CdrLayout(data, tail, c, end);
    LengthRoundTrip(c.hdr.length);
    OctetRoundTrip(c.hdr.release, c.hdr.version);
    OctetRoundTrip(c.hdr.format, c.hdr.tsNumber);
    CdrReads(data, tail, c, end);
  }

  lemma LengthRoundTrip(x: uint16)
    ensures Uint16(BigEndian(x, 2)) == x
  {
    PowersOf256();
    NumberOfBigEndian(x, 2);
  }

  lemma CdrReadLies(data: seq<byte>, tail: nat)
    requires |data| < 0x1_0000_0000 && DecodeCdr(data, tail).Ok?
    ensures var (c, end) := DecodeCdr(data, tail).value;
            tail <= end && CdrLies(data, tail, c, end)
  {
    var (c, end) := DecodeCdr(data, tail).value;
    CdrFieldsRead(data, tail, c, end);
    LengthIsCanonical(data[tail..tail + 2]);
    OctetIsCanonical(data[tail + 2]);
    OctetIsCanonical(data[tail + 3]);
  }

  /** No index wraps, so the fields are read one after the other. */
  lemma CdrFieldsRead(data: seq<byte>, tail: nat, c: Cdr, end: nat)
    requires |data| < 0x1_0000_0000 && DecodeCdr(data, tail) == Ok((c, end))
    ensures var x := if c.hdr.release == 7 then 1 else 0;
            && tail + 4 + x <= end <= |data| && data[tail + 4 + x..end] == c.bytes
            && (x == 1 ==> data[tail + 4] == c.hdr.releaseExtension)
    ensures c.hdr.length == Uint16(data[tail..tail + 2])
    ensures c.hdr.release == data[tail + 2] / 32 && c.hdr.version == data[tail + 2] % 32
    ensures c.hdr.format == data[tail + 3] / 32 && c.hdr.tsNumber == data[tail + 3] % 32
  {
  }

  /** Whatever is read is faithful, and is what lies between the two offsets. */
  lemma CdrIsCanonical(data: seq<byte>, tail: nat)
    requires DecodeCdr(data, tail).Ok?
    ensures FaithfulCdr(DecodeCdr(data, tail).value.0)
    ensures |data| < 0x1_0000_0000 ==>
              var (c, end) := DecodeCdr(data, tail).value;
              tail <= end <= |data| && data[tail..end] == EncodeCdr(c)
  {
    if |data| < 0x1_0000_0000 {
      var (c, end) := DecodeCdr(data, tail).value;
      CdrReadLies(data, tail);
      CdrLayout(data, tail, c, end);
    }
  }

  /** Reading at an offset finds exactly the faithful records whose octets lie there. */
  lemma CdrIsRead(data: seq<byte>, tail: nat, c: Cdr, end: nat)
    requires |data| < 0x1_0000_0000
    ensures DecodeCdr(data, tail) == Ok((c, end)) <==> FaithfulCdr(c) && Between(data, tail, EncodeCdr(c), end)
  {
    if DecodeCdr(data, tail) == Ok((c, end)) {
      CdrIsCanonical(data, tail);
    } else if FaithfulCdr(c) && Between(data, tail, EncodeCdr(c), end) {
      CdrRoundTrip(c, data, tail, end);
    }
  }

  // ---------------------------------------------------------------- all records

  lemma CdrsRead(cs: seq<Cdr>, data: seq<byte>, offs: seq<nat>)
    requires forall i :: 0 <= i < |cs| ==> FaithfulCdr(cs[i])
    requires |offs| == |cs| + 1 && AllBetween(data, EncodedCdrs(cs), offs, |cs|) && |data| < 0x1_0000_0000
    ensures DecodeCdrs(data, offs[0], |cs|) == Ok((cs, offs[|cs|]))
  {
    var step := CdrReader(data);
    forall k | 0 <= k < |cs| ensures step(offs[k]) == Ok((cs[k], offs[k + 1])) {
      assert EncodedCdrs(cs)[k] == EncodeCdr(cs[k]);
      CdrRoundTrip(cs[k], data, offs[k], offs[k + 1]);
    }
    RepeatFollows(step, offs, cs, |cs|);
    assert cs[..|cs|] == cs;
  }

  lemma CdrsRoundTrip(cs: seq<Cdr>, data: seq<byte>, base: nat)
    requires forall i :: 0 <= i < |cs| ==> FaithfulCdr(cs[i])
    requires HoldsPieces(data, base, EncodedCdrs(cs)) && |data| < 0x1_0000_0000
    ensures DecodeCdrs(data, base, |cs|) == Ok((cs, |data|))
  {
    var es := EncodedCdrs(cs);
    var offs := PiecesFill(data, base, es);
    CdrsRead(cs, data, offs);
  }

  lemma CdrsAreCanonical(data: seq<byte>, tail: nat, k: nat)
    requires DecodeCdrs(data, tail, k).Ok?
    ensures forall i :: 0 <= i < k ==> FaithfulCdr(DecodeCdrs(data, tail, k).value.0[i])
    ensures tail <= |data| < 0x1_0000_0000 ==>
              var (cs, end) := DecodeCdrs(data, tail, k).value;
              Between(data, tail, Flatten(EncodedCdrs(cs), k), end)
  {
    var step := CdrReader(data);
    var offs := RepeatTraced(step, tail, k);
    var cs := DecodeCdrs(data, tail, k).value.0;
    forall i | 0 <= i < k
      ensures FaithfulCdr(cs[i])
      ensures |data| < 0x1_0000_0000 ==> Between(data, offs[i], EncodeCdr(cs[i]), offs[i + 1])
    {
      assert step(offs[i]) == Ok((cs[i], offs[i + 1]));
      CdrIsCanonical(data, offs[i]);
    }
    if tail <= |data| < 0x1_0000_0000 {
      PiecesLie(data, EncodedCdrs(cs), offs, k);
    }
  }

  // ---------------------------------------------------------------- the file header

  /** Where the pieces of the header begin and end. */
  function HeaderOffsets(h: FileHeader): (offs: seq<nat>)
    ensures |offs| == 18
  {
    var xy := 50 + |h.filter|;
    var n := xy + 2 + |h.extension|;
    var n1 := n + if h.highRelease == 7 then 1 else 0;
    [0, 4, 8, 9, 10, 14, 18, 22, 26, 27, 47, 48, 50, xy, xy + 2, n, n1, n1 + if h.lowRelease == 7 then 1 else 0]
  }

  lemma HeaderOffsetsAdd(h: FileHeader)
    ensures OffsetsOf(HeaderPieces(h), HeaderOffsets(h))
  {
    var es, offs := HeaderPieces(h), HeaderOffsets(h);
    forall k | 0 <= k < 17 ensures offs[k] + |es[k]| == offs[k + 1] {
      if k < 12 {
        FixedOffsetsAdd(h, k);
      } else {
        VariableOffsetsAdd(h, k);
      }
    }
  }

  lemma FixedOffsetsAdd(h: FileHeader, k: nat)
    requires k < 12
    ensures HeaderOffsets(h)[k] + |HeaderPieces(h)[k]| == HeaderOffsets(h)[k + 1]
  {
    if k < 4 {
      assert |HeaderPieces(h)[k]| == if k < 2 then 4 else 1;
    } else if k < 8 {
      assert |HeaderPieces(h)[k]| == 4;
    }
  }

  lemma VariableOffsetsAdd(h: FileHeader, k: nat)
    requires 12 <= k < 17
    ensures HeaderOffsets(h)[k] + |HeaderPieces(h)[k]| == HeaderOffsets(h)[k + 1]
  {
  }

  /** The part with fixed offsets, octet by octet and word by word. */
  predicate FixedLies(data: seq<byte>, h: FileHeader) {
    && |data| >= 50
    && data[0..4] == BigEndian(h.fileLength, 4) && data[4..8] == BigEndian(h.headerLength, 4)
    && data[8..9] == [Octet(h.highRelease, h.highVersion)] && data[9..10] == [Octet(h.lowRelease, h.lowVersion)]
    && data[10..14] == BigEndian(Pack(h.opening), 4) && data[14..18] == BigEndian(Pack(h.lastAppended), 4)
    && data[18..22] == BigEndian(h.numberOfCdrs, 4) && data[22..26] == BigEndian(h.sequenceNumber, 4)
    && data[26..27] == [h.closureReason] && data[27..47] == h.address && data[47..48] == [h.lostCdrs]
    && data[48..50] == BigEndian(h.lengthOfFilter, 2)
  }

  predicate VariableLies(data: seq<byte>, h: FileHeader) {
    var xy := 50 + |h.filter|;
    var n := xy + 2 + |h.extension|;
    var n1 := n + if h.highRelease == 7 then 1 else 0;
    var n2 := n1 + if h.lowRelease == 7 then 1 else 0;
    && n2 <= |data|
    && data[50..xy] == h.filter
    && data[xy..xy + 2] == BigEndian(h.lengthOfExtension, 2) && data[xy + 2..n] == h.extension
    && data[n..n1] == ExtensionOctet(h.highRelease, h.highReleaseExtension)
    && data[n1..n2] == ExtensionOctet(h.lowRelease, h.lowReleaseExtension)
  }

  /** The header's octets lie field by field, and the fields' lengths add up. */
  lemma HeaderLies(data: seq<byte>, h: FileHeader)
    ensures IsPrefix(EncodeHeader(h), data) <==> FixedLies(data, h) && VariableLies(data, h)
    ensures |EncodeHeader(h)| == HeaderOffsets(h)[17]
  {
    var es, offs := HeaderPieces(h), HeaderOffsets(h);
    HeaderOffsetsAdd(h);
    PiecesLie(data, es, offs, 17);
    BetweenPrefix(EncodeHeader(h), data);
    if AllBetween(data, es, offs, 17) {
      FixedFromPieces(data, h);
      VariableFromPieces(data, h);
    } else if FixedLies(data, h) && VariableLies(data, h) {
      PiecesFromFields(data, h);
    }
  }

  lemma FixedFromPieces(data: seq<byte>, h: FileHeader)
    requires AllBetween(data, HeaderPieces(h), HeaderOffsets(h), 17)
    ensures FixedLies(data, h)
  {
    var es, offs := HeaderPieces(h), HeaderOffsets(h);
    assert Between(data, offs[0], es[0], offs[1]) && Between(data, offs[1], es[1], offs[2]);
    assert Between(data, offs[2], es[2], offs[3]) && Between(data, offs[3], es[3], offs[4]);
    assert Between(data, offs[4], es[4], offs[5]) && Between(data, offs[5], es[5], offs[6]);
    assert Between(data, offs[6], es[6], offs[7]) && Between(data, offs[7], es[7], offs[8]);
    assert Between(data, offs[8], es[8], offs[9]) && Between(data, offs[9], es[9], offs[10]);
    assert Between(data, offs[10], es[10], offs[11]) && Between(data, offs[11], es[11], offs[12]);
  }

  lemma VariableFromPieces(data: seq<byte>, h: FileHeader)
    requires AllBetween(data, HeaderPieces(h), HeaderOffsets(h), 17)
    ensures VariableLies(data, h)
  {
    var es, offs := HeaderPieces(h), HeaderOffsets(h);
    assert Between(data, offs[12], es[12], offs[13]) && Between(data, offs[13], es[13], offs[14]);
    assert Between(data, offs[14], es[14], offs[15]) && Between(data, offs[15], es[15], offs[16]);
    assert Between(data, offs[16], es[16], offs[17]);
  }

  lemma PiecesFromFields(data: seq<byte>, h: FileHeader)
    requires FixedLies(data, h) && VariableLies(data, h)
    ensures AllBetween(data, HeaderPieces(h), HeaderOffsets(h), 17)
  {
    var es, offs := HeaderPieces(h), HeaderOffsets(h);
    forall k | 0 <= k < 17 ensures Between(data, offs[k], es[k], offs[k + 1]) {
      if k < 12 {
        PieceFromFixed(data, h, k);
      } else {
        PieceFromVariable(data, h, k);
      }
    }
  }

  lemma PieceFromFixed(data: seq<byte>, h: FileHeader, k: nat)
    requires FixedLies(data, h) && k < 12
    ensures Between(data, HeaderOffsets(h)[k], HeaderPieces(h)[k], HeaderOffsets(h)[k + 1])
  {
  }

  lemma PieceFromVariable(data: seq<byte>, h: FileHeader, k: nat)
    requires VariableLies(data, h) && 12 <= k < 17
    ensures Between(data, HeaderOffsets(h)[k], HeaderPieces(h)[k], HeaderOffsets(h)[k + 1])
  {
    if k < 15 {
      PieceBeforeExtensions(data, h, k);
    } else {
      PieceOfExtensions(data, h, k);
    }
  }

  lemma PieceBeforeExtensions(data: seq<byte>, h: FileHeader, k: nat)
    requires VariableLies(data, h) && 12 <= k < 15
    ensures Between(data, HeaderOffsets(h)[k], HeaderPieces(h)[k], HeaderOffsets(h)[k + 1])
  {
  }

  lemma PieceOfExtensions(data: seq<byte>, h: FileHeader, k: nat)
    requires VariableLies(data, h) && 15 <= k < 17
    ensures Between(data, HeaderOffsets(h)[k], HeaderPieces(h)[k], HeaderOffsets(h)[k + 1])
  {
  }

  lemma BetweenPrefix(s: seq<byte>, data: seq<byte>)
    ensures IsPrefix(s, data) <==> Between(data, 0, s, |s|)
  {
    if Between(data, 0, s, |s|) {
      assert forall i :: 0 <= i < |s| ==> data[i] == data[0..|s|][i];
    }
  }

  lemma WordRoundTrip(x: uint32)
    ensures Uint32(BigEndian(x, 4)) == x
  {
    PowersOf256();
    NumberOfBigEndian(x, 4);
  }

  /** What the reader takes from the fixed part. */
  predicate FixedRead(data: seq<byte>, h: FileHeader) {
    && |data| >= 50
    && data[8] / 32 == h.highRelease && data[8] % 32 == h.highVersion
    && data[9] / 32 == h.lowRelease && data[9] % 32 == h.lowVersion
    && Uint32(data[0..4]) == h.fileLength && Uint32(data[4..8]) == h.headerLength
    && Unpack(Uint32(data[10..14])) == h.opening && Unpack(Uint32(data[14..18])) == h.lastAppended
    && Uint32(data[18..22]) == h.numberOfCdrs && Uint32(data[22..26]) == h.sequenceNumber
    && data[26] == h.closureReason && data[27..47] == h.address && data[47] == h.lostCdrs
    && Uint16(data[48..50]) == h.lengthOfFilter
  }

  /** What it takes from the part that follows, up to the release extensions. */
  predicate VariableRead(data: seq<byte>, h: FileHeader) {
    var xy, n := 50 + h.lengthOfFilter, HeaderEnd(h);
    && n <= |data| && n < 0x1_0000
    && data[50..xy] == h.filter && Uint16(data[xy..xy + 2]) == h.lengthOfExtension && data[xy + 2..n] == h.extension
  }

  lemma FixedReads(data: seq<byte>, h: FileHeader)
    requires FaithfulHeader(h) && FixedLies(data, h)
    ensures FixedRead(data, h)
  {
    WordRoundTrip(h.fileLength);
    WordRoundTrip(h.headerLength);
    WordRoundTrip(Pack(h.opening));
    WordRoundTrip(Pack(h.lastAppended));
    WordRoundTrip(h.numberOfCdrs);
    WordRoundTrip(h.sequenceNumber);
    LengthRoundTrip(h.lengthOfFilter);
    TimeStampRoundTrip(h.opening);
    TimeStampRoundTrip(h.lastAppended);
    OctetRoundTrip(h.highRelease, h.highVersion);
    OctetRoundTrip(h.lowRelease, h.lowVersion);
    assert data[8..9][0] == data[8] && data[9..10][0] == data[9];
    assert data[26..27][0] == data[26] && data[47..48][0] == data[47];
  }

  lemma VariableReads(data: seq<byte>, h: FileHeader)
    requires FaithfulHeader(h) && VariableLies(data, h)
    ensures VariableRead(data, h)
  {
    LengthRoundTrip(h.lengthOfExtension);
  }

  lemma BoundsFound(data: seq<byte>, xy: nat, n: nat)
    requires 50 <= xy && xy + 2 <= n <= |data| && n < 0x1_0000
    ensures VariableBounds(data) == Ok((xy, n)) <==>
            xy == 50 + Uint16(data[48..50]) && n == xy + 2 + Uint16(data[xy..xy + 2])
  {
  }

  lemma HeaderReads(data: seq<byte>, h: FileHeader)
    requires FixedRead(data, h) && VariableRead(data, h)
    ensures DecodeHeader(data) == Extended(data, HeaderEnd(h), h.(highReleaseExtension := 0, lowReleaseExtension := 0))
  {
    var xy, n := 50 + h.lengthOfFilter, HeaderEnd(h);
    BoundsFound(data, xy, n);
    assert HeaderFields(data, xy, n) == h.(highReleaseExtension := 0, lowReleaseExtension := 0);
  }

  /** Conversely, what was read lies there. */
  lemma HeaderIsRead(data: seq<byte>)
    requires DecodeHeader(data).Ok?
    ensures var h := DecodeHeader(data).value.0;
            && FixedRead(data, h) && VariableRead(data, h)
            && DecodeHeader(data) ==
               Extended(data, HeaderEnd(h), h.(highReleaseExtension := 0, lowReleaseExtension := 0))
  {
    var (xy, n) := VariableBounds(data).value;
    BoundsFound(data, xy, n);
    FieldsRead(data, HeaderFields(data, xy, n), xy, n);
  }

  lemma FieldsRead(data: seq<byte>, f: FileHeader, xy: nat, n: nat)
    requires 50 <= xy && xy + 2 <= n <= |data| && n < 0x1_0000 && f == HeaderFields(data, xy, n)
    requires xy == 50 + f.lengthOfFilter && n == xy + 2 + f.lengthOfExtension
    ensures n == HeaderEnd(f)
    ensures forall x, y :: var h := f.(highReleaseExtension := x, lowReleaseExtension := y);
                           FixedRead(data, h) && VariableRead(data, h)
  {
  }

  lemma WordIsCanonical(s: seq<byte>)
    requires |s| == 4
    ensures BigEndian(Uint32(s), 4) == s
  {
    BigEndianOfNumber(s);
  }

  lemma LengthIsCanonical(s: seq<byte>)
    requires |s| == 2
    ensures BigEndian(Uint16(s), 2) == s
  {
    BigEndianOfNumber(s);
  }

  lemma FixedIsCanonical(data: seq<byte>, h: FileHeader)
    requires FixedRead(data, h)
    ensures FixedLies(data, h)
    ensures h.highRelease < 8 && h.highVersion < 32 && h.lowRelease < 8 && h.lowVersion < 32
    ensures InRange(h.opening) && InRange(h.lastAppended)
  {
    WordIsCanonical(data[0..4]);
    WordIsCanonical(data[4..8]);
    WordIsCanonical(data[10..14]);
    WordIsCanonical(data[14..18]);
    WordIsCanonical(data[18..22]);
    WordIsCanonical(data[22..26]);
    LengthIsCanonical(data[48..50]);
    TimeStampIsCanonical(Uint32(data[10..14]));
    TimeStampIsCanonical(Uint32(data[14..18]));
    OctetIsCanonical(data[8]);
    OctetIsCanonical(data[9]);
  }

  // ---------------------------------------------------------------- whole files

  /** Where the low extension is written. */
  function LowExtensionAt(h: FileHeader): nat {
    HeaderEnd(h) + if h.highRelease == 7 then 1 else 0
  }

  /** Where the reader looks for it. */
  function LowExtensionSought(h: FileHeader): nat {
    (HeaderEnd(h) + 1) % 0x1_0000
  }

  lemma ExtensionsRead(data: seq<byte>, h: FileHeader)
    requires FaithfulHeader(h) && VariableLies(data, h)
    ensures Extended(data, HeaderEnd(h), h.(highReleaseExtension := 0, lowReleaseExtension := 0)) ==
            if h.lowRelease != 7 then Ok((h, HeaderOffsets(h)[17]))
            else if LowExtensionSought(h) >= |data| then Err(OUT_OF_RANGE)
            else Ok((h.(lowReleaseExtension := data[LowExtensionSought(h)]), HeaderOffsets(h)[17]))
  {
    var n := HeaderEnd(h);
    if h.highRelease == 7 {
      assert data[n..n + 1][0] == data[n];
    }
  }

  lemma EncodeLies(f: File)
    ensures FixedLies(Encode(f), f.hdr) && VariableLies(Encode(f), f.hdr)
    ensures HoldsPieces(Encode(f), HeaderOffsets(f.hdr)[17], EncodedCdrs(f.cdrs))
  {
    HeaderLies(Encode(f), f.hdr);
  }

  lemma HeaderSize(f: File)
    ensures var end := HeaderOffsets(f.hdr)[17];
            52 <= end <= |Encode(f)| && end == |EncodeHeader(f.hdr)|
            && (f.hdr.lowRelease == 7 ==> end == 53 + |f.hdr.filter| + |f.hdr.extension|
                                                 + if f.hdr.highRelease == 7 then 1 else 0)
    ensures f.hdr.lowRelease == 7 ==> Encode(f)[HeaderOffsets(f.hdr)[17] - 1] == f.hdr.lowReleaseExtension
    ensures Encode(f)[0] == f.hdr.fileLength / 0x100_0000
  {
    HeaderLies(Encode(f), f.hdr);
    var data, end := Encode(f), HeaderOffsets(f.hdr)[17];
    assert f.hdr.lowRelease == 7 ==> data[end - 1..end][0] == data[end - 1];
    assert data[0..4][0] == data[0];
    LeadingOctet(f.hdr.fileLength);
  }

  lemma FirstOctetOfCdrs(cs: seq<Cdr>)
    requires cs != []
    ensures Flatten(EncodedCdrs(cs), |cs|) != []
    ensures Flatten(EncodedCdrs(cs), |cs|)[0] == cs[0].hdr.length / 256
  {
    LeadingOctetOfCdr(cs[0]);
    FlattenGrows(EncodedCdrs(cs), 1, |cs|);
    assert Flatten(EncodedCdrs(cs), 1) == Flatten(EncodedCdrs(cs), 0) + EncodeCdr(cs[0]) == EncodeCdr(cs[0]);
  }

  lemma LeadingOctet(x: uint32)
    ensures BigEndian(x, 4)[0] == x / 0x100_0000
  {
    assert BigEndian(x, 4) == BigEndian(x / 256, 3) + [x % 256];
    assert BigEndian(x / 256, 3) == BigEndian(x / 256 / 256, 2) + [x / 256 % 256];
  }

  lemma LeadingOctetOfCdr(c: Cdr)
    ensures |EncodeCdr(c)| >= 4 && EncodeCdr(c)[0] == c.hdr.length / 256
  {
    assert BigEndian(c.hdr.length, 2) == BigEndian(c.hdr.length / 256, 1) + [c.hdr.length % 256];
  }

  lemma OctetAfterHeader(f: File)
    ensures var data, end := Encode(f), HeaderOffsets(f.hdr)[17];
            if f.cdrs == [] then |data| == end else |data| > end && data[end] == f.cdrs[0].hdr.length / 256
  {
    HeaderSize(f);
    if f.cdrs != [] {
      FirstOctetOfCdrs(f.cdrs);
    }
  }

  /** The octet the reader takes for the low extension is the right one just in the cases named. */
  lemma LowExtensionFound(f: File)
    requires FaithfulHeader(f.hdr) && f.hdr.lowRelease == 7
    ensures var data, p := Encode(f), LowExtensionSought(f.hdr);
            p < |data| && data[p] == f.hdr.lowReleaseExtension <==> LowExtensionSurvives(f)
  {
    HeaderSize(f);
    OctetAfterHeader(f);
    LowExtensionCases(f, Encode(f), HeaderOffsets(f.hdr)[17]);
  }

  lemma LowExtensionCases(f: File, data: seq<byte>, end: nat)
    requires f.hdr.lowRelease == 7 && HeaderEnd(f.hdr) < 0x1_0000
    requires end == HeaderEnd(f.hdr) + (if f.hdr.highRelease == 7 then 2 else 1) <= |data|
    requires data[0] == f.hdr.fileLength / 0x100_0000 && data[end - 1] == f.hdr.lowReleaseExtension
    requires if f.cdrs == [] then |data| == end else |data| > end && data[end] == f.cdrs[0].hdr.length / 256
    ensures var p := LowExtensionSought(f.hdr);
            p < |data| && data[p] == f.hdr.lowReleaseExtension <==> LowExtensionSurvives(f)
  {
  }

  /** Everything read is faithful, whatever the input, but for the low extension's place. */
  lemma DecodedIsFaithful(data: seq<byte>)
    requires Decode(data).Ok?
    ensures var f := Decode(data).value.0;
            && FaithfulHeader(f.hdr) && f.hdr.numberOfCdrs == |f.cdrs|
            && forall i :: 0 <= i < |f.cdrs| ==> FaithfulCdr(f.cdrs[i])
  {
    HeaderIsRead(data);
    var (h, start) := DecodeHeader(data).value;
    FixedIsCanonical(data, h);
    CdrsAreCanonical(data, start, h.numberOfCdrs);
  }

  /** All that is not the low extension comes back. */
  lemma ReadsBack(f: File)
    requires |Encode(f)| < 0x1_0000_0000 && FaithfulHeader(f.hdr) && f.hdr.numberOfCdrs == |f.cdrs|
    requires forall i :: 0 <= i < |f.cdrs| ==> FaithfulCdr(f.cdrs[i])
    ensures var data, h, p := Encode(f), f.hdr, LowExtensionSought(f.hdr);
            Decode(data) == if h.lowRelease != 7 then Ok((f, |data|))
                            else if p >= |data| then Err(OUT_OF_RANGE)
                            else Ok((f.(hdr := h.(lowReleaseExtension := data[p])), |data|))
  {
    var data := Encode(f);
    EncodeLies(f);
    FixedReads(data, f.hdr);
    VariableReads(data, f.hdr);
    HeaderReads(data, f.hdr);
    ExtensionsRead(data, f.hdr);
    CdrsRoundTrip(f.cdrs, data, HeaderOffsets(f.hdr)[17]);
  }

  /** `Decoding` a fresh object from what `Encoding` wrote gives the same file exactly when the file is faithful. */
  lemma RoundTrip(f: File)
    requires |Encode(f)| < 0x1_0000_0000
    ensures Decode(Encode(f)).Ok? && Decode(Encode(f)).value.0 == f <==> Faithful(f)
    ensures Faithful(f) ==> Decode(Encode(f)) == Ok((f, |Encode(f)|))
  {
    if Decode(Encode(f)).Ok? && Decode(Encode(f)).value.0 == f {
      DecodedIsFaithful(Encode(f));
    }
    if FaithfulHeader(f.hdr) && f.hdr.numberOfCdrs == |f.cdrs| &&
       forall i :: 0 <= i < |f.cdrs| ==> FaithfulCdr(f.cdrs[i]) {
      ReadsBack(f);
      if f.hdr.lowRelease == 7 {
        LowExtensionFound(f);
      }
    }
  }

  /** The octet read as the low extension is the one that stands where it is written. */
  predicate LowExtensionInPlace(data: seq<byte>, h: FileHeader) {
    h.lowRelease == 7 ==> LowExtensionAt(h) < |data| && data[LowExtensionAt(h)] == h.lowReleaseExtension
  }

  lemma VariableIsCanonical(data: seq<byte>, h: FileHeader, end: nat)
    requires VariableRead(data, h)
    requires Extended(data, HeaderEnd(h), h.(highReleaseExtension := 0, lowReleaseExtension := 0)) == Ok((h, end))
    ensures VariableLies(data, h) <==> LowExtensionInPlace(data, h)
    ensures end == HeaderOffsets(h)[17]
  {
    var n, at := HeaderEnd(h), LowExtensionAt(h);
    LengthIsCanonical(data[50 + h.lengthOfFilter..52 + h.lengthOfFilter]);
    if h.lowRelease == 7 && at < |data| {
      assert data[at..at + 1] == [data[at]];
    }
    if h.highRelease == 7 {
      assert data[n..n + 1] == [data[n]];
    }
  }

  /**
   * CDR files are canonical: re-encoding what was read reproduces the octets consumed, exactly when the low release
   * extension was read from its place.
   */
  lemma DecodedIsCanonical(data: seq<byte>)
    requires |data| < 0x1_0000_0000 && Decode(data).Ok?
    ensures var (f, tail) := Decode(data).value;
            Between(data, 0, Encode(f), tail) <==> LowExtensionInPlace(data, f.hdr)
  {
    HeaderIsRead(data);
    var (h, start) := DecodeHeader(data).value;
    var (f, tail) := Decode(data).value;
    FixedIsCanonical(data, h);
    VariableIsCanonical(data, h, start);
    HeaderLies(data, h);
    BetweenPrefix(EncodeHeader(h), data);
    CdrsAreCanonical(data, start, h.numberOfCdrs);
    var records := Flatten(EncodedCdrs(f.cdrs), |f.cdrs|);
    Juxtaposed(data, 0, EncodeHeader(h), start, records, start + |records|);
  }

  /** When the low release alone is 7, the reader takes the first record's first octet for its extension. */
  lemma LowExtensionMisread(f: File)
    requires |Encode(f)| < 0x1_0000_0000 && FaithfulHeader(f.hdr) && f.hdr.numberOfCdrs == |f.cdrs| > 0
    requires forall i :: 0 <= i < |f.cdrs| ==> FaithfulCdr(f.cdrs[i])
    requires f.hdr.lowRelease == 7 && f.hdr.highRelease != 7 && HeaderEnd(f.hdr) < 0xffff
    ensures Decode(Encode(f)) ==
            Ok((f.(hdr := f.hdr.(lowReleaseExtension := f.cdrs[0].hdr.length / 256)), |Encode(f)|))
  {
    ReadsBack(f);
    OctetAfterHeader(f);
    SoughtAfterHeader(f.hdr);
  }

  lemma SoughtAfterHeader(h: FileHeader)
    requires FaithfulHeader(h) && h.lowRelease == 7 && h.highRelease != 7 && HeaderEnd(h) < 0xffff
    ensures LowExtensionSought(h) == HeaderOffsets(h)[17]
  {
  }
}
