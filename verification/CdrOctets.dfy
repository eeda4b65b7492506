/** The octets of a CDR file, one by one, as figure 6.1.1.1 of TS 32.297 numbers them: of what is written, and of what
    is read. */
module CdrOctets {
  import opened Octets
  import opened CdrBits
  import opened CdrFile

  /** A big-endian word of four octets. */
  predicate WordAt(s: seq<byte>, i: nat, x: int) {
    i + 4 <= |s| && x == s[i] as int * 0x100_0000 + s[i + 1] as int * 0x1_0000 + s[i + 2] as int * 0x100 + s[i + 3]
  }

  predicate HalfAt(s: seq<byte>, i: nat, x: int) {
    i + 2 <= |s| && x == s[i] as int * 0x100 + s[i + 1]
  }

  /** Three bits, and five. */
  predicate SplitAt(s: seq<byte>, i: nat, high: int, low: int) {
    i < |s| && s[i] == high * 32 + low && 0 <= low < 32
  }

  /** Month, date, hour and minute from the top bit down, then sign, hours and minutes of the deviation from UTC. */
  predicate TimeAt(s: seq<byte>, i: nat, t: TimeStamp) {
    WordAt(s, i, t.month * 0x1000_0000 + t.date * 0x80_0000 + t.hour * 0x4_0000 + t.minute * 0x1000
                 + t.sign * 0x800 + t.hourDeviation * 0x40 + t.minuteDeviation)
  }

  /** The header up to the routeing filter. */
  predicate FixedOctets(s: seq<byte>, h: FileHeader) {
    && WordAt(s, 0, h.fileLength) && WordAt(s, 4, h.headerLength)
    && SplitAt(s, 8, h.highRelease, h.highVersion) && SplitAt(s, 9, h.lowRelease, h.lowVersion)
    && TimeAt(s, 10, h.opening) && TimeAt(s, 14, h.lastAppended)
    && WordAt(s, 18, h.numberOfCdrs) && WordAt(s, 22, h.sequenceNumber)
    && |s| >= 50 && s[26] == h.closureReason && s[27..47] == h.address && s[47] == h.lostCdrs
    && HalfAt(s, 48, h.lengthOfFilter)
  }

  /** The filter, the private extension, and an octet for each release that is 7. */
  predicate VariableOctets(s: seq<byte>, h: FileHeader, end: nat) {
    var xy := 50 + |h.filter|;
    var n := xy + 2 + |h.extension|;
    && n <= |s| && s[50..xy] == h.filter && HalfAt(s, xy, h.lengthOfExtension) && s[xy + 2..n] == h.extension
    && (h.highRelease == 7 ==> n < |s| && s[n] == h.highReleaseExtension)
    && (h.lowRelease == 7 ==>
          var at := if h.highRelease == 7 then n + 1 else n;
          at < |s| && s[at] == h.lowReleaseExtension)
    && end == n + (if h.highRelease == 7 then 1 else 0) + (if h.lowRelease == 7 then 1 else 0)
  }

  lemma WordIs(x: uint32)
    ensures WordAt(BigEndian(x, 4), 0, x)
  {
    NumberOfWord(BigEndian(x, 4));
    PowersOf256();
    NumberOfBigEndian(x, 4);
  }

  lemma NumberOfWord(s: seq<byte>)
    requires |s| == 4
    ensures Number(s) == s[0] as int * 0x100_0000 + s[1] as int * 0x1_0000 + s[2] as int * 0x100 + s[3]
  {
    assert NumberTo(s, 1) == s[0];
    assert NumberTo(s, 2) == NumberTo(s, 1) * 256 + s[1];
    assert NumberTo(s, 3) == NumberTo(s, 2) * 256 + s[2];
    assert NumberTo(s, 4) == NumberTo(s, 3) * 256 + s[3];
  }

  lemma HalfIs(x: uint16)
    ensures HalfAt(BigEndian(x, 2), 0, x)
  {
    assert BigEndian(x, 2) == BigEndian(x / 256, 1) + [x % 256];
    assert BigEndian(x / 256, 1) == BigEndian(x / 256 / 256, 0) + [x / 256 % 256];
  }

  lemma WordLies(s: seq<byte>, i: nat, x: uint32)
    requires i + 4 <= |s| && s[i..i + 4] == BigEndian(x, 4)
    ensures WordAt(s, i, x)
  {
    WordIs(x);
    var w := s[i..i + 4];
    assert s[i] == w[0] && s[i + 1] == w[1] && s[i + 2] == w[2] && s[i + 3] == w[3];
  }

  lemma HalfLies(s: seq<byte>, i: nat, x: uint16)
    requires i + 2 <= |s| && s[i..i + 2] == BigEndian(x, 2)
    ensures HalfAt(s, i, x)
  {
    HalfIs(x);
    var w := s[i..i + 2];
    assert s[i] == w[0] && s[i + 1] == w[1];
  }

  lemma TimeLies(s: seq<byte>, i: nat, t: TimeStamp)
    requires InRange(t) && i + 4 <= |s| && s[i..i + 4] == BigEndian(Pack(t), 4)
    ensures TimeAt(s, i, t)
  {
    PackedValue(t);
    WordLies(s, i, Pack(t));
  }

  lemma OctetLies(s: seq<byte>, i: nat, x: byte)
    requires i + 1 <= |s| && s[i..i + 1] == [x]
    ensures s[i] == x
  {
    assert s[i..i + 1][0] == s[i];
  }

  /** The bit fields of a header fit. */
  predicate BitsFit(h: FileHeader) {
    && h.highRelease < 8 && h.highVersion < 32 && h.lowRelease < 8 && h.lowVersion < 32
    && InRange(h.opening) && InRange(h.lastAppended)
  }

  lemma FixedAreOctets(s: seq<byte>, h: FileHeader)
    requires FixedLies(s, h) && BitsFit(h)
    ensures FixedOctets(s, h)
  {
    WordLies(s, 0, h.fileLength);
    WordLies(s, 4, h.headerLength);
    OctetLies(s, 8, Octet(h.highRelease, h.highVersion));
    OctetLies(s, 9, Octet(h.lowRelease, h.lowVersion));
    TimeLies(s, 10, h.opening);
    TimeLies(s, 14, h.lastAppended);
    WordLies(s, 18, h.numberOfCdrs);
    WordLies(s, 22, h.sequenceNumber);
    OctetLies(s, 26, h.closureReason);
    OctetLies(s, 47, h.lostCdrs);
    HalfLies(s, 48, h.lengthOfFilter);
  }

  lemma VariableAreOctets(s: seq<byte>, h: FileHeader)
    requires VariableLies(s, h)
    ensures VariableOctets(s, h, HeaderOffsets(h)[17])
  {
    var xy := 50 + |h.filter|;
    var n := xy + 2 + |h.extension|;
    HalfLies(s, xy, h.lengthOfExtension);
    if h.highRelease == 7 {
      OctetLies(s, n, h.highReleaseExtension);
    }
    if h.lowRelease == 7 {
      OctetLies(s, if h.highRelease == 7 then n + 1 else n, h.lowReleaseExtension);
    }
  }

  /** Every octet of a header that is written, if its bit fields fit; other octets do not follow. */
  lemma HeaderOctets(h: FileHeader)
    requires BitsFit(h)
    ensures FixedOctets(EncodeHeader(h), h) && VariableOctets(EncodeHeader(h), h, |EncodeHeader(h)|)
  {
    HeaderLies(EncodeHeader(h), h);
    FixedAreOctets(EncodeHeader(h), h);
    VariableAreOctets(EncodeHeader(h), h);
  }

  /** The octets from which a header has been read, whatever they are, except for the low release's extension. */
  lemma DecodedOctets(data: seq<byte>)
    requires DecodeHeader(data).Ok?
    ensures var h := DecodeHeader(data).value.0;
            FixedOctets(data, h) && |h.filter| == h.lengthOfFilter && |h.extension| == h.lengthOfExtension
            && (h.lowRelease != 7 ==> VariableOctets(data, h, DecodeHeader(data).value.1))
  {
    var (h, end) := DecodeHeader(data).value;
    HeaderIsRead(data);
    FixedIsCanonical(data, h);
    FixedAreOctets(data, h);
    if h.lowRelease != 7 {
      VariableIsCanonical(data, h, end);
      VariableAreOctets(data, h);
    }
  }

  /** A record's: its length, release and version, format and specification, the extension of a release that is 7, and
      the contents. */
  predicate RecordOctets(s: seq<byte>, c: Cdr) {
    var x := if c.hdr.release == 7 then 1 else 0;
    && HalfAt(s, 0, c.hdr.length) && SplitAt(s, 2, c.hdr.release, c.hdr.version)
    && SplitAt(s, 3, c.hdr.format, c.hdr.tsNumber)
    && |s| == 4 + x + |c.bytes| && (x == 1 ==> s[4] == c.hdr.releaseExtension) && s[4 + x..] == c.bytes
  }

  lemma CdrOctets(c: Cdr)
    requires c.hdr.release < 8 && c.hdr.version < 32 && c.hdr.format < 8 && c.hdr.tsNumber < 32
    ensures RecordOctets(EncodeCdr(c), c)
  {
    var s := EncodeCdr(c);
    assert s[0..|s|] == s;
    CdrLayout(s, 0, c, |s|);
    HalfLies(s, 0, c.hdr.length);
  }

  /** A file is its header, and behind it its records in their order. */
  lemma FileOctets(f: File, i: nat)
    requires i < |f.cdrs|
    ensures var start, s := |EncodeHeader(f.hdr)|, Encode(f);
            var lo := Position(start, EncodedCdrs(f.cdrs), i);
            var hi := Position(start, EncodedCdrs(f.cdrs), i + 1);
            start <= lo <= hi <= |s| && s[..start] == EncodeHeader(f.hdr) && s[lo..hi] == EncodeCdr(f.cdrs[i])
  {
    RecordLies(EncodeHeader(f.hdr), EncodedCdrs(f.cdrs), i);
  }

  lemma RecordLies(header: seq<byte>, es: seq<seq<byte>>, i: nat)
    requires i < |es|
    ensures var s := header + Flatten(es, |es|);
            var lo, hi := Position(|header|, es, i), Position(|header|, es, i + 1);
            |header| <= lo <= hi <= |s| && s[..|header|] == header && s[lo..hi] == es[i]
  {
    var s := header + Flatten(es, |es|);
    assert s[|header|..] == Flatten(es, |es|);
    PieceLies(s, |header|, es, i);
  }

  // ---------------------------------------------------------------- exactly what is read

  /** Where the length of the private extension lies, and where that ends. */
  function FilterEnd(data: seq<byte>): (xy: int)
    requires |data| >= 50
  {
    50 + (data[48] as int * 0x100 + data[49])
  }

  function ExtensionEnd(data: seq<byte>): (n: int)
    requires |data| >= 50 && FilterEnd(data) + 2 <= |data|
  {
    FilterEnd(data) + 2 + (data[FilterEnd(data)] as int * 0x100 + data[FilterEnd(data) + 1])
  }

  /** The fixed part is there, and both lengths stay within the data and below 2^16. */
  predicate LengthsFit(data: seq<byte>) {
    && |data| >= 50 && FilterEnd(data) + 2 <= |data| && ExtensionEnd(data) <= |data| && ExtensionEnd(data) < 0x1_0000
  }

  /** There is an octet for each extension: for the low one, whether or not there is a high one, the second behind the
      end, or with an index that wraps, the first of all. */
  predicate ExtensionsFit(data: seq<byte>)
    requires LengthsFit(data)
  {
    var n := ExtensionEnd(data);
    && (data[8] / 32 == 7 ==> n < |data|)
    && (data[9] / 32 == 7 && n != 0xffff ==> n + 1 < |data|)
  }

  lemma HalfOfTwo(s: seq<byte>)
    requires |s| == 2
    ensures Uint16(s) == s[0] as int * 0x100 + s[1]
  {
    assert NumberTo(s, 1) == s[0];
    assert NumberTo(s, 2) == NumberTo(s, 1) * 256 + s[1];
  }

  /** An index that wraps falls behind where it started. */
  lemma Wraps(lo: nat, d: nat)
    requires lo < 0x1_0000 && d < 0x1_0000
    ensures if lo + d < 0x1_0000 then (lo + d) % 0x1_0000 == lo + d else (lo + d) % 0x1_0000 < lo
  {
  }

  lemma BoundsFit(data: seq<byte>)
    ensures VariableBounds(data).Ok? <==> LengthsFit(data)
    ensures LengthsFit(data) ==> VariableBounds(data) == Ok((FilterEnd(data), ExtensionEnd(data)))
  {
    if |data| >= 50 {
      HalfOfTwo(data[48..50]);
      Wraps(50, Uint16(data[48..50]));
      var xy := FilterEnd(data);
      if xy < 0x1_0000 {
        Wraps(xy, 2);
        ExtensionBound(data, xy);
      }
    }
  }

  lemma ExtensionBound(data: seq<byte>, xy: nat)
    requires xy < 0x1_0000
    ensures xy + 2 <= |data| && xy + 2 < 0x1_0000 ==>
              var n := xy + 2 + (data[xy] as int * 0x100 + data[xy + 1]);
              && n == xy + 2 + Uint16(data[xy..xy + 2])
              && if n < 0x1_0000 then n % 0x1_0000 == n else n % 0x1_0000 < xy + 2
  {
    if xy + 2 <= |data| && xy + 2 < 0x1_0000 {
      HalfOfTwo(data[xy..xy + 2]);
      Wraps(xy + 2, Uint16(data[xy..xy + 2]));
    }
  }

  /** A header is read exactly if its lengths and its extensions fit. */
  lemma HeaderIsDecoded(data: seq<byte>)
    ensures DecodeHeader(data).Ok? <==> LengthsFit(data) && ExtensionsFit(data)
  {
    BoundsFit(data);
    if LengthsFit(data) {
      ExtendedFit(data, ExtensionEnd(data), HeaderFields(data, FilterEnd(data), ExtensionEnd(data)));
    }
  }

  lemma ExtendedFit(data: seq<byte>, n: uint16, h: FileHeader)
    requires n <= |data| && |data| >= 50
    ensures Extended(data, n, h).Ok? <==>
              (h.highRelease == 7 ==> n < |data|) && (h.lowRelease == 7 && n != 0xffff ==> n + 1 < |data|)
  {
  }

  /** From an offset on exactly those records are read that are faithful and lie there end to end. */
  lemma RecordsAreRead(data: seq<byte>, start: nat, cs: seq<Cdr>, end: nat)
    requires |data| < 0x1_0000_0000
    ensures DecodeCdrs(data, start, |cs|) == Ok((cs, end)) <==>
              && (forall i :: 0 <= i < |cs| ==> FaithfulCdr(cs[i]))
              && if cs == [] then start == end else Between(data, start, Flatten(EncodedCdrs(cs), |cs|), end)
  {
    if DecodeCdrs(data, start, |cs|) == Ok((cs, end)) && cs != [] {
      RecordsStartInside(data, start, |cs|);
      CdrsAreCanonical(data, start, |cs|);
    }
    if cs != [] && (forall i :: 0 <= i < |cs| ==> FaithfulCdr(cs[i]))
       && Between(data, start, Flatten(EncodedCdrs(cs), |cs|), end)
    {
      RecordsFollow(data, start, cs, end, Positions(start, EncodedCdrs(cs)));
    }
  }

  lemma RecordsStartInside(data: seq<byte>, start: nat, k: nat)
    requires k > 0 && DecodeCdrs(data, start, k).Ok?
    ensures start <= |data|
  {
    if DecodeCdr(data, start).Err? {
      RepeatStops(CdrReader(data), start, 0, k);
    }
  }

  lemma PiecesAreThere(data: seq<byte>, start: nat, es: seq<seq<byte>>, end: nat, offs: seq<nat>)
    requires start <= |data| && OffsetsOf(es, offs) && offs[0] == start && Between(data, start, Flatten(es, |es|), end)
    ensures AllBetween(data, es, offs, |es|) && offs[|es|] == end
  {
    PiecesLie(data, es, offs, |es|);
  }

  lemma RecordsFollow(data: seq<byte>, start: nat, cs: seq<Cdr>, end: nat, offs: seq<nat>)
    requires start <= |data| < 0x1_0000_0000 && forall i :: 0 <= i < |cs| ==> FaithfulCdr(cs[i])
    requires OffsetsOf(EncodedCdrs(cs), offs) && offs[0] == start
    requires Between(data, start, Flatten(EncodedCdrs(cs), |cs|), end)
    ensures DecodeCdrs(data, start, |cs|) == Ok((cs, end))
  {
    var es := EncodedCdrs(cs);
    assert |es| == |cs|;
    PiecesAreThere(data, start, es, end, offs);
    CdrsRead(cs, data, offs);
  }

  /** So a file is read, whatever follows it, exactly if its header is, and as many faithful records as that says lie
      behind it. */
  lemma FileIsRead(data: seq<byte>, f: File, end: nat)
    requires |data| < 0x1_0000_0000
    ensures Decode(data) == Ok((f, end)) <==>
              && DecodeHeader(data).Ok? && DecodeHeader(data).value.0 == f.hdr && f.hdr.numberOfCdrs == |f.cdrs|
              && (forall i :: 0 <= i < |f.cdrs| ==> FaithfulCdr(f.cdrs[i]))
              && var start := DecodeHeader(data).value.1;
                 if f.cdrs == [] then start == end
                 else Between(data, start, Flatten(EncodedCdrs(f.cdrs), |f.cdrs|), end)
  {
    if DecodeHeader(data).Ok? {
      RecordsAreRead(data, DecodeHeader(data).value.1, f.cdrs, end);
    }
  }
}
