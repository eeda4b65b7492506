/** The CDR file as the source keeps it: an object that `Encoding` walks and `Decoding` fills in place. */
module CdrFileObject {
  import opened Octets
  import opened CdrBits
  import opened CdrFile

  /** One `binary.Write` into the buffer, of piece `k`. */
  method Write(buf: seq<byte>, e: seq<byte>, ghost es: seq<seq<byte>>, ghost k: nat)
    returns (out: seq<byte>, ghost next: nat)
    requires k < |es| && es[k] == e && buf == Flatten(es, k)
    ensures next == k + 1 && out == Flatten(es, next)
  {
    out, next := buf + e, k + 1;
  }

  method EncodeLengths(h: FileHeader) returns (buf: seq<byte>, ghost k: nat)
    ensures k == 2 && buf == Flatten(HeaderPieces(h), k)
  {
    ghost var es := HeaderPieces(h);
    k := 0;
    buf, k := Write([], BigEndian(h.fileLength, 4), es, k);
    buf, k := Write(buf, BigEndian(h.headerLength, 4), es, k);
  }

  method EncodeReleases(h: FileHeader, front: seq<byte>, ghost from: nat) returns (buf: seq<byte>, ghost k: nat)
    requires from == 2 && front == Flatten(HeaderPieces(h), from)
    ensures k == 4 && buf == Flatten(HeaderPieces(h), k)
  {
    ghost var es := HeaderPieces(h);
    k := from;
    var high, low := Octet(h.highRelease, h.highVersion), Octet(h.lowRelease, h.lowVersion);
    ReleasePieces(h, high, low);
    buf, k := Write(front, [high], es, k);
    buf, k := Write(buf, [low], es, k);
  }

  lemma ReleasePieces(h: FileHeader, high: byte, low: byte)
    requires high == Octet(h.highRelease, h.highVersion) && low == Octet(h.lowRelease, h.lowVersion)
    ensures HeaderPieces(h)[2] == [high] && HeaderPieces(h)[3] == [low]
  {
  }

  method EncodeTimes(h: FileHeader, front: seq<byte>, ghost from: nat) returns (buf: seq<byte>, ghost k: nat)
    requires from == 4 && front == Flatten(HeaderPieces(h), from)
    ensures k == 6 && buf == Flatten(HeaderPieces(h), k)
  {
    ghost var es := HeaderPieces(h);
    k := from;
    var opening, lastAppended := Pack(h.opening), Pack(h.lastAppended);
    TimePieces(h, opening, lastAppended);
    buf, k := Write(front, BigEndian(opening, 4), es, k);
    buf, k := Write(buf, BigEndian(lastAppended, 4), es, k);
  }

  lemma TimePieces(h: FileHeader, opening: uint32, lastAppended: uint32)
    requires opening == Pack(h.opening) && lastAppended == Pack(h.lastAppended)
    ensures HeaderPieces(h)[4] == BigEndian(opening, 4) && HeaderPieces(h)[5] == BigEndian(lastAppended, 4)
  {
  }

  method EncodeCounters(h: FileHeader, front: seq<byte>, ghost from: nat) returns (buf: seq<byte>, ghost k: nat)
    requires from == 6 && front == Flatten(HeaderPieces(h), from)
    ensures k == 8 && buf == Flatten(HeaderPieces(h), k)
  {
    ghost var es := HeaderPieces(h);
    k := from;
    buf, k := Write(front, BigEndian(h.numberOfCdrs, 4), es, k);
    buf, k := Write(buf, BigEndian(h.sequenceNumber, 4), es, k);
  }

  /** The closure reason, the node's address and the indicator of lost records. */
  method EncodeNode(h: FileHeader, front: seq<byte>, ghost from: nat) returns (buf: seq<byte>, ghost k: nat)
    requires from == 8 && front == Flatten(HeaderPieces(h), from)
    ensures k == 11 && buf == Flatten(HeaderPieces(h), k)
  {
    ghost var es := HeaderPieces(h);
    k := from;
    buf, k := Write(front, [h.closureReason], es, k);
    buf, k := Write(buf, h.address, es, k);
    buf, k := Write(buf, [h.lostCdrs], es, k);
  }

  /** The routeing filter and the private extension, each after its length. */
  method EncodeVariable(h: FileHeader, front: seq<byte>, ghost from: nat) returns (buf: seq<byte>, ghost k: nat)
    requires from == 11 && front == Flatten(HeaderPieces(h), from)
    ensures k == 15 && buf == Flatten(HeaderPieces(h), k)
  {
    ghost var es := HeaderPieces(h);
    k := from;
    buf, k := Write(front, BigEndian(h.lengthOfFilter, 2), es, k);
    buf, k := Write(buf, h.filter, es, k);
    buf, k := Write(buf, BigEndian(h.lengthOfExtension, 2), es, k);
    buf, k := Write(buf, h.extension, es, k);
  }

  /** `CdrFileHeader.Encoding`: every field in turn, and a release extension only where the release is 7. */
  method EncodeFileHeader(h: FileHeader) returns (buf: seq<byte>)
    ensures buf == EncodeHeader(h)
  {
    ghost var es, k := HeaderPieces(h), 0;
    buf, k := EncodeLengths(h);
    buf, k := EncodeReleases(h, buf, k);
    buf, k := EncodeTimes(h, buf, k);
    buf, k := EncodeCounters(h, buf, k);
    buf, k := EncodeNode(h, buf, k);
    buf, k := EncodeVariable(h, buf, k);
    buf, k := WriteExtension(buf, h.highRelease, h.highReleaseExtension, es, k);
    buf, k := WriteExtension(buf, h.lowRelease, h.lowReleaseExtension, es, k);
  }

  method WriteExtension(buf: seq<byte>, release: byte, extension: byte, ghost es: seq<seq<byte>>, ghost k: nat)
    returns (out: seq<byte>, ghost next: nat)
    requires k < |es| && es[k] == ExtensionOctet(release, extension) && buf == Flatten(es, k)
    ensures next == k + 1 && out == Flatten(es, next)
  {
    if release == 7 {
      out, next := Write(buf, [extension], es, k);
    } else {
      out, next := buf, k + 1;
      assert Flatten(es, k + 1) == Flatten(es, k) + [];
    }
  }

  /** `CdrHeader.Encoding`. */
  method EncodeCdrHeader(h: CdrHeader) returns (buf: seq<byte>)
    ensures buf == CdrHeaderBytes(h)
  {
    var first, second := Octet(h.release, h.version), Octet(h.format, h.tsNumber);
    buf := BigEndian(h.length, 2);
    buf := buf + [first];
    buf := buf + [second];
    if h.release == 7 {
      buf := buf + [h.releaseExtension];
    }
  }

  /** Where the header's variable parts end, each index and slice checked as it is used. */
  method ReadBounds(data: seq<byte>) returns (r: Result<(nat, nat)>)
    ensures r == VariableBounds(data)
  {
    if |data| < 50 {
      return Err(OUT_OF_RANGE);
    }
    var xy := (50 + Uint16(data[48..50])) % 0x1_0000;
    var hi := (xy + 2) % 0x1_0000;
    if !(50 <= xy <= hi <= |data|) {
      return Err(OUT_OF_RANGE);
    }
    var n := (hi + Uint16(data[xy..hi])) % 0x1_0000;
    if !(hi <= n <= |data|) {
      return Err(OUT_OF_RANGE);
    }
    r := Ok((xy, n));
  }

  /** The header an object is left with: it is replaced once its variable parts are found. */
  function HeaderLeft(before: FileHeader, data: seq<byte>): (h: FileHeader) {
    var b := VariableBounds(data);
    if b.Err? then before else WithExtensions(data, b.value.1, HeaderFields(data, b.value.0, b.value.1))
  }

  /** A release extension that is out of range stays as it is, and so does the low one after the high one is. */
  function WithExtensions(data: seq<byte>, n: uint16, h: FileHeader): (e: FileHeader) {
    var high, low := h.highRelease == 7, h.lowRelease == 7;
    if high && n >= |data| then h
    else
      var g := if high then h.(highReleaseExtension := data[n]) else h;
      if low && (n + 1) % 0x1_0000 < |data| then g.(lowReleaseExtension := data[(n + 1) % 0x1_0000]) else g
  }

  /** What is decoded is what lies in the data, and a header that lies there is decoded unless its release extensions
      are out of range. */
  lemma HeaderIsFound(data: seq<byte>, before: FileHeader)
    ensures var r := DecodeHeader(data);
            && (r.Ok? ==>
                  FixedRead(data, r.value.0) && VariableRead(data, r.value.0) && r.value.0 == HeaderLeft(before, data))
            && forall h :: FixedRead(data, h) && VariableRead(data, h) ==>
                 r == Extended(data, HeaderEnd(h), h.(highReleaseExtension := 0, lowReleaseExtension := 0))
  {
    if DecodeHeader(data).Ok? {
      HeaderIsRead(data);
    }
    forall h | FixedRead(data, h) && VariableRead(data, h)
      ensures DecodeHeader(data)
              == Extended(data, HeaderEnd(h), h.(highReleaseExtension := 0, lowReleaseExtension := 0))
    {
      HeaderReads(data, h);
    }
  }

  /** One turn of the record loop: it reads exactly the faithful record whose octets lie at the offset. */
  method ReadCdr(data: seq<byte>, tail: nat) returns (r: Result<(Cdr, nat)>)
    ensures r == DecodeCdr(data, tail)
    ensures |data| < 0x1_0000_0000 ==>
              forall c, end: nat :: r == Ok((c, end)) <==> FaithfulCdr(c) && Between(data, tail, EncodeCdr(c), end)
  {
    r := ReadFields(data, tail);
    if |data| < 0x1_0000_0000 {
      forall c, end: nat
        ensures r == Ok((c, end)) <==> FaithfulCdr(c) && Between(data, tail, EncodeCdr(c), end)
      {
        CdrIsRead(data, tail, c, end);
      }
    }
  }

  method ReadFields(data: seq<byte>, tail: nat) returns (r: Result<(Cdr, nat)>)
    ensures r == DecodeCdr(data, tail)
  {
    var t2, t3 := Inc(tail, 2), Inc(tail, 3);
    if !(tail <= t2 < |data|) || t3 >= |data| {
      return Err(OUT_OF_RANGE);
    }
    var hdr := CdrHeader(Uint16(data[tail..t2]), data[t2] / 32, data[t2] % 32, data[t3] / 32, data[t3] % 32, 0);
    var i := 4;
    if hdr.release == 7 {
      var t4 := Inc(tail, 4);
      if t4 >= |data| {
        return Err(OUT_OF_RANGE);
      }
      hdr := hdr.(releaseExtension := data[t4]);
      i := i + 1;
    }
    var lo := Inc(tail, i);
    var up := Inc(lo, hdr.length);
    if !(lo <= up <= |data|) {
      return Err(OUT_OF_RANGE);
    }
    r := Ok((Cdr(hdr, data[lo..up]), up));
  }

  lemma Regrouped(start: seq<byte>, front: seq<byte>, a: seq<byte>, b: seq<byte>)
    ensures start + front + a + b == start + (front + (a + b))
  {
  }

  class CDRFile {
    var hdr: FileHeader
    var cdrList: seq<Cdr>

    constructor (h: FileHeader)
      ensures hdr == h && cdrList == []
    {
      hdr := h;
      cdrList := [];
    }

    /** The octets that are written to the file. */
    method Encoding() returns (buf: seq<byte>)
      ensures buf == Encode(File(hdr, cdrList))
    {
      buf := EncodeFileHeader(hdr);
      ghost var start, es := buf, EncodedCdrs(cdrList);
      for i := 0 to |cdrList|
        invariant buf == start + Flatten(es, i)
      {
        ghost var front := Flatten(es, i);
        var header := EncodeCdrHeader(cdrList[i].hdr);
        buf := buf + header;
        buf := buf + cdrList[i].bytes;
        Regrouped(start, front, header, cdrList[i].bytes);
      }
    }

    /** Replaces the header, then its release extensions; the result is the offset after it. */
    method DecodeFileHeader(data: seq<byte>) returns (r: Result<nat>)
      modifies this`hdr
      ensures hdr == HeaderLeft(old(hdr), data)
      ensures match DecodeHeader(data)
              case Ok((h, tail)) => r == Ok(tail) && hdr == h && FixedRead(data, hdr) && VariableRead(data, hdr)
              case Err(e) => r == Err(e)
    {
      HeaderIsFound(data, hdr);
      var b := ReadBounds(data);
      if b.Err? {
        return Err(b.error);
      }
      hdr := HeaderFields(data, b.value.0, b.value.1);
      r := DecodeExtensions(data, b.value.1);
    }

    /** The release extensions; the offset moves on for each one there is. */
    method DecodeExtensions(data: seq<byte>, n: uint16) returns (r: Result<nat>)
      requires hdr.highReleaseExtension == 0 && hdr.lowReleaseExtension == 0
      modifies this`hdr
      ensures hdr == WithExtensions(data, n, old(hdr))
      ensures match Extended(data, n, old(hdr))
              case Ok((_, tail)) => r == Ok(tail)
              case Err(e) => r == Err(e)
    {
      var tail: nat := n;
      if hdr.highRelease == 7 {
        if n >= |data| {
          return Err(OUT_OF_RANGE);
        }
        hdr := hdr.(highReleaseExtension := data[n]);
        tail := tail + 1;
      }
      if hdr.lowRelease == 7 {
        var next := (n + 1) % 0x1_0000;
        if next >= |data| {
          return Err(OUT_OF_RANGE);
        }
        hdr := hdr.(lowReleaseExtension := data[next]);
        tail := tail + 1;
      }
      r := Ok(tail);
    }

    /**
     * Replaces the header and appends the records read to those already there; the result is the offset reached, or the
     * panic that ends the call. A panic leaves the header as far as it was read, and the records before it appended.
     */
    method Decoding(data: seq<byte>) returns (r: Result<nat>)
      modifies this
      ensures hdr == HeaderLeft(old(hdr), data)
      ensures match Decode(data)
              case Ok((f, tail)) => r == Ok(tail) && hdr == f.hdr && cdrList == old(cdrList) + f.cdrs
              case Err(e) => r == Err(e)
      ensures DecodeHeader(data).Err? ==> cdrList == old(cdrList)
      ensures DecodeHeader(data).Ok? && r.Err? ==>
                exists read :: cdrList == old(cdrList) + read && EndsAfter(data, DecodeHeader(data).value.1, read)
    {
      var header := DecodeFileHeader(data);
      if header.Err? {
        return Err(header.error);
      }
      var start := header.value;
      var tail := start;
      ghost var read: seq<Cdr> := [];
      for i := 0 to hdr.numberOfCdrs
        invariant hdr == DecodeHeader(data).value.0
        invariant DecodeCdrs(data, start, i) == Ok((read, tail)) && cdrList == old(cdrList) + read
      {
        var cdr := ReadCdr(data, tail);
        if cdr.Err? {
          RepeatStops(CdrReader(data), start, i, hdr.numberOfCdrs);
          assert EndsAfter(data, start, read);
          return Err(cdr.error);
        }
        cdrList := cdrList + [cdr.value.0];
        read := read + [cdr.value.0];
        tail := cdr.value.1;
      }
      r := Ok(tail);
    }
  }

  /** These are the records from `start` on, and after them no record can be read. */
  predicate EndsAfter(data: seq<byte>, start: nat, read: seq<Cdr>) {
    var r := DecodeCdrs(data, start, |read|);
    r.Ok? && r.value.0 == read && DecodeCdr(data, r.value.1).Err?
  }
}
