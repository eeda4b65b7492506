/** Identifier and length octets (sections 8.1.2 and 8.1.3 of ITU-T X.690) as the charging codec handles them. */
module BerHeader {
  import opened Octets

  type uint64 = x: nat | x < TWO_TO_64

  /** The header record. */
  datatype TagAndLen = TagAndLen(cls: nat, constructed: bool, tagNumber: uint64, len: nat)

  predicate IsHeader(t: TagAndLen) {
    t.cls < 4
  }

  function FirstOctet(t: TagAndLen): (b: byte)
    requires IsHeader(t)
  {
    t.cls * 64 + (if t.constructed then 32 else 0) + (if t.tagNumber <= 30 then t.tagNumber else 31)
  }

  /** The fewest 7-bit groups of a tag number, all but the last with the continuation bit set. */
  function Groups(tag: nat): (gs: seq<byte>)
    ensures gs != []
  {
    Leading(tag / 128) + [tag % 128]
  }

  function Leading(tag: nat): (gs: seq<byte>) {
    if tag == 0 then [] else Leading(tag / 128) + [tag % 128 + 128]
  }

  /** The number a string of groups denotes, continuation bits ignored. */
  function GroupNumber(gs: seq<byte>): (v: nat) {
    GroupNumberTo(gs, |gs|)
  }

  function GroupNumberTo(gs: seq<byte>, k: nat): (v: nat)
    requires k <= |gs|
  {
    if k == 0 then 0 else GroupNumberTo(gs, k - 1) * 128 + gs[k - 1] % 128
  }

  function TagOctets(tagNumber: nat): seq<byte> {
    if tagNumber <= 30 then [] else Groups(tagNumber)
  }

  function LenOctets(len: nat): (s: seq<byte>)
    ensures s != []
  {
    if len <= 127 then [len] else [128 + |Shortest(len)| % 128] + Shortest(len)
  }

  /** The header octets: identifier, then length. */
  function Header(t: TagAndLen): (bs: seq<byte>)
    requires IsHeader(t)
    ensures |bs| >= 2
  {
    [FirstOctet(t)] + TagOctets(t.tagNumber) + LenOctets(t.len)
  }

  // ---------------------------------------------------------------- printing

  /** Prints a header into an empty buffer. */
  method AppendTagAndLen(t: TagAndLen) returns (dst: seq<byte>)
    requires IsHeader(t)
    ensures dst == Header(t)
  {
    var first := t.cls * 64;
    if t.constructed { first := first + 32; }
    if t.tagNumber <= 30 {
      dst := [first + t.tagNumber];
    } else {
      var groups := TagGroupLoop(t.tagNumber);
      dst := [first + 31] + groups;
    }
    ghost var identifier := [FirstOctet(t)] + TagOctets(t.tagNumber);
    assert dst == identifier;
    if t.len <= 127 {
      dst := dst + [t.len];
    } else {
      var lens := LengthLoop(t.len);
      lens := [|lens| % 128 + 128] + lens;
      dst := dst + lens;
    }
    assert dst == identifier + LenOctets(t.len);
  }

  /** Counts the groups of a tag, then fills them in from the last to the first and clears the last continuation bit. */
  method TagGroupLoop(tag: nat) returns (dst: seq<byte>)
    requires tag > 30
    ensures dst == Groups(tag)
  {
    var n, tmp := 1, tag;
    while tmp > 127
      invariant 0 <= tmp && 1 <= n
      invariant n - 1 + |Groups(tmp)| == |Groups(tag)|
      decreases tmp
    {
      n, tmp := n + 1, tmp / 128;
    }
    ghost var all := Leading(tag);
    assert |all| == n;
    dst := seq(n, _ => 0);
    var tagNumber := tag;
    for i := 0 to n
      invariant |dst| == n
      invariant tagNumber >= 0 && Leading(tagNumber) == all[..n - i]
      invariant forall j :: n - i <= j < n ==> dst[j] == all[j]
    {
      dst := dst[n - 1 - i := tagNumber % 128 + 128];
      tagNumber := tagNumber / 128;
    }
    assert dst == all;
    dst := dst[n - 1 := dst[n - 1] - 128];
    assert dst == Leading(tag / 128) + [tag % 128];
  }

  /** Counts the octets of a length, then fills them in from the last to the first. */
  method LengthLoop(length: nat) returns (dst: seq<byte>)
    requires length > 127
    ensures dst == Shortest(length)
  {
    var n, tmp := 1, length;
    while tmp > 255
      invariant 0 <= tmp && 1 <= n
      invariant n - 1 + |Shortest(tmp)| == |Shortest(length)|
      decreases tmp
    {
      n, tmp := n + 1, tmp / 256;
    }
    ghost var all := Shortest(length);
    dst := seq(n, _ => 0);
    var len := length;
    for i := 0 to n
      invariant |dst| == n == |all|
      invariant len >= 0 && (i < n ==> Shortest(len) == all[..n - i])
      invariant forall j :: n - i <= j < n ==> dst[j] == all[j]
    {
      dst := dst[n - 1 - i := len % 256];
      len := len / 256;
    }
    assert dst == all;
  }

  // ---------------------------------------------------------------- parsing

  /** The tag-number loop, as a function of where it starts and what it has accumulated. */
  function TagLoop(bytes: seq<byte>, off: nat, acc: nat): (r: (nat, nat))
    requires off <= |bytes|
    ensures off <= r.1 <= |bytes|
    ensures acc < TWO_TO_64 ==> r.0 < TWO_TO_64
    decreases |bytes| - off
  {
    if off == |bytes| then (acc, off)
    else
      var acc' := acc * 128 % TWO_TO_64 + bytes[off] % 128;
      assert acc' < TWO_TO_64;
      if bytes[off] < 128 then (acc', off + 1) else TagLoop(bytes, off + 1, acc')
  }

  /** The tag number and where the length octets begin. */
  function TagPart(bytes: seq<byte>): (r: (nat, nat))
    requires bytes != []
    ensures r.0 < TWO_TO_64 && 1 <= r.1 <= |bytes|
  {
    if bytes[0] % 32 != 31 then (bytes[0] % 32, 1) else TagLoop(bytes, 1, 0)
  }

  /** The length octets from `off` on, put together with what the identifier octets said. */
  function LengthPart(bytes: seq<byte>, cls: nat, constructed: bool, tag: nat, off: nat): (r: Result<(TagAndLen, nat)>)
    requires cls < 4 && tag < TWO_TO_64 && 1 <= off
    ensures r.Ok? ==> IsHeader(r.value.0) && 2 <= r.value.1 <= |bytes| && r.value.0.len < 0x100_0000
  {
    if off >= |bytes| then Err(Malformed("header is cut short"))
    else
      var l := bytes[off];
      if l <= 127 then Ok((TagAndLen(cls, constructed, tag, l), off + 1))
      else if l - 128 > 3 then Err(Malformed("length is too large"))
      else if off + 1 + (l - 128) > |bytes| then Err(GoPanic("slice bounds out of range"))
      else
        var ds := bytes[off + 1..off + 1 + (l - 128)];
        ShortLength(ds);
        Ok((TagAndLen(cls, constructed, tag, Number(ds)), off + 1 + (l - 128)))
  }

  /** The parsed header and its size. */
  function HeaderOf(bytes: seq<byte>): (r: Result<(TagAndLen, nat)>)
    ensures r.Ok? ==> IsHeader(r.value.0) && 2 <= r.value.1 <= |bytes| && r.value.0.len < 0x100_0000
  {
    if bytes == [] then Err(GoPanic("index out of range"))
    else
      var b := bytes[0];
      var (tag, off) := TagPart(bytes);
      if b % 32 == 31 && off > 10 then Err(Malformed("tag number is too large"))
      else LengthPart(bytes, b / 64, b / 32 % 2 == 1, tag, off)
  }

  /** At most three length octets stay below 2^24, so that they are read without wrapping. */
  lemma ShortLength(ds: seq<byte>)
    requires |ds| <= 3
    ensures Number(ds) < 0x100_0000
  {
    NumberBound(ds);
    PowersOf256();
    assert Pow256(0) == 1;
  }

  lemma ShortLengthReads(ds: seq<byte>)
    requires |ds| <= 3
    ensures Int64Of(ds) == Ok(Number(ds))
  {
    ShortLength(ds);
  }

  method ParseInt64(bytes: seq<byte>) returns (r: Result<int>)
    ensures r == Int64Of(bytes)
  {
    if |bytes| > 8 {
      return Err(Malformed("out of range of int64"));
    }
    var v := 0;
    for i := 0 to |bytes|
      invariant v == Wrap64(NumberTo(bytes, i))
    {
      WrapShift(NumberTo(bytes, i), bytes[i]);
      v := Wrap64(v * 256);
      v := v + bytes[i];
    }
    return Ok(v);
  }

  method ParseTagAndLength(bytes: seq<byte>) returns (r: Result<(TagAndLen, nat)>)
    ensures r == HeaderOf(bytes)
  {
    if bytes == [] {
      return Err(GoPanic("index out of range"));
    }
    var off := 1;
    var cls, constructed := bytes[0] / 64, bytes[0] / 32 % 2 == 1;
    var tagNumber := 0;
    if bytes[0] % 32 != 31 {
      tagNumber := bytes[0] % 32;
    } else {
      var more := true;
      while more && off < |bytes|
        invariant 1 <= off <= |bytes| && 0 <= tagNumber
        invariant TagLoop(bytes, 1, 0) == if more then TagLoop(bytes, off, tagNumber) else (tagNumber, off)
        decreases |bytes| - off
      {
        tagNumber := tagNumber * 128 % TWO_TO_64 + bytes[off] % 128;
        off := off + 1;
        more := bytes[off - 1] >= 128;
      }
      if off > 10 {
        return Err(Malformed("tag number is too large"));
      }
    }
    assert TagPart(bytes) == (tagNumber, off);
    if off >= |bytes| {
      return Err(Malformed("header is cut short"));
    }
    if bytes[off] <= 127 {
      return Ok((TagAndLen(cls, constructed, tagNumber, bytes[off]), off + 1));
    }
    var n := bytes[off] - 128;
    if n > 3 {
      return Err(Malformed("length is too large"));
    }
    off := off + 1;
    if off + n > |bytes| {
      return Err(GoPanic("slice bounds out of range"));
    }
    var val := ParseInt64(bytes[off..off + n]);
    ShortLengthReads(bytes[off..off + n]);
    return Ok((TagAndLen(cls, constructed, tagNumber, val.value), off + n));
  }

  // ---------------------------------------------------------------- the two together

  lemma {:induction false} LeadingNumber(tag: nat)
    ensures GroupNumber(Leading(tag)) == tag
  {
    if tag > 0 {
      var front := Leading(tag / 128);
      LeadingNumber(tag / 128);
      GroupNumberOfSnoc(front, tag % 128 + 128);
    }
  }

  lemma GroupNumberOfSnoc(gs: seq<byte>, g: byte)
    ensures GroupNumber(gs + [g]) == GroupNumber(gs) * 128 + g % 128
  {
    SameGroups(gs + [g], gs, |gs|);
  }

  lemma {:induction false} SameGroups(s: seq<byte>, t: seq<byte>, k: nat)
    requires k <= |s| && k <= |t| && forall i :: 0 <= i < k ==> s[i] == t[i]
    ensures GroupNumberTo(s, k) == GroupNumberTo(t, k)
  {
    if k > 0 {
      SameGroups(s, t, k - 1);
    }
  }

  lemma {:induction false} LeadingContinues(tag: nat)
    ensures forall i :: 0 <= i < |Leading(tag)| ==> Leading(tag)[i] >= 128
  {
    if tag > 0 {
      LeadingContinues(tag / 128);
    }
  }

  /** Every group but the last has its continuation bit set. */
  predicate Continues(gs: seq<byte>) {
    && gs != []
    && gs[|gs| - 1] < 128
    && forall i :: 0 <= i < |gs| - 1 ==> gs[i] >= 128
  }

  /** The groups denote the tag, and only the last lacks the continuation bit. */
  lemma GroupsDenoteTag(tag: nat)
    ensures GroupNumber(Groups(tag)) == tag
    ensures Continues(Groups(tag))
  {
    LeadingNumber(tag / 128);
    LeadingContinues(tag / 128);
    LastGroup(Leading(tag / 128), tag % 128);
  }

  lemma LastGroup(front: seq<byte>, g: byte)
    requires g < 128 && forall i :: 0 <= i < |front| ==> front[i] >= 128
    ensures Continues(front + [g]) && GroupNumber(front + [g]) == GroupNumber(front) * 128 + g
  {
    GroupNumberOfSnoc(front, g);
  }

  lemma {:induction false} PrefixIsSmaller(gs: seq<byte>, j: nat, k: nat)
    requires j <= k <= |gs|
    ensures GroupNumberTo(gs, j) <= GroupNumberTo(gs, k)
  {
    if j < k {
      PrefixIsSmaller(gs, j, k - 1);
    }
  }

  lemma NoBitsLost(acc: nat, g: byte, next: nat)
    requires next == acc * 128 + g % 128 < TWO_TO_64
    ensures acc * 128 % TWO_TO_64 + g % 128 == next
  {
    assert 0 <= acc * 128 < TWO_TO_64;
  }

  /** The tag loop reads groups back without losing high bits, and stops right behind them. */
  lemma {:induction false} TagLoopReadsGroups(bytes: seq<byte>, gs: seq<byte>, j: nat)
    requires j < |gs| && 1 + |gs| <= |bytes| && forall i :: 0 <= i < |gs| ==> bytes[1 + i] == gs[i]
    requires Continues(gs) && GroupNumber(gs) < TWO_TO_64
    ensures TagLoop(bytes, 1 + j, GroupNumberTo(gs, j)) == (GroupNumber(gs), 1 + |gs|)
    decreases |gs| - j
  {
    PrefixIsSmaller(gs, j + 1, |gs|);
    NoBitsLost(GroupNumberTo(gs, j), gs[j], GroupNumberTo(gs, j + 1));
    if j < |gs| - 1 {
      TagLoopReadsGroups(bytes, gs, j + 1);
    }
  }

  function Pow128(k: nat): (p: nat)
    ensures p >= 1
  {
    if k == 0 then 1 else Pow128(k - 1) * 128
  }

  lemma PowersOf128()
    ensures Pow128(9) == TWO_TO_63
  {
    assert Pow128(1) == 0x80;
    assert Pow128(2) == 0x4000;
    assert Pow128(3) == 0x20_0000;
    assert Pow128(4) == 0x1000_0000;
    assert Pow128(5) == 0x8_0000_0000;
    assert Pow128(6) == 0x400_0000_0000;
    assert Pow128(7) == 0x2_0000_0000_0000;
    assert Pow128(8) == 0x100_0000_0000_0000;
  }

  lemma {:induction false} LeadingLength(tag: nat, k: nat)
    ensures |Leading(tag)| <= k <==> tag < Pow128(k)
    decreases k
  {
    if tag > 0 {
      assert |Leading(tag)| == |Leading(tag / 128)| + 1;
      if k > 0 {
        LeadingLength(tag / 128, k - 1);
        assert Pow128(k) == Pow128(k - 1) * 128;
      } else {
        assert Pow128(0) == 1;
      }
    }
  }

  lemma {:induction false} GroupNumberBound(gs: seq<byte>, k: nat)
    requires k <= |gs|
    ensures GroupNumberTo(gs, k) < Pow128(k)
  {
    if k > 0 {
      GroupNumberBound(gs, k - 1);
    }
  }

  lemma {:induction false} LeadingStartsNonzero(tag: nat)
    ensures tag > 0 ==> Leading(tag)[0] != 128
  {
    if tag > 0 && tag / 128 > 0 {
      LeadingStartsNonzero(tag / 128);
    }
  }

  predicate TagComesBack(t: TagAndLen, bytes: seq<byte>)
    requires bytes != []
  {
    var off := 1 + |TagOctets(t.tagNumber)|;
    && (bytes[0] % 32 == 31 <==> t.tagNumber > 30)
    && TagPart(bytes) == (t.tagNumber, off)
    && (t.tagNumber > 30 ==> (off <= 10 <==> t.tagNumber < TWO_TO_63))
  }

  /** The tag part of the round trip: the tag comes back, in at most nine groups exactly when it is below 2^63. */
  lemma TagReads(t: TagAndLen, bytes: seq<byte>)
    requires IsHeader(t) && StartsWith(t, bytes)
    ensures TagComesBack(t, bytes)
  {
    if t.tagNumber > 30 {
      var gs := Groups(t.tagNumber);
      forall i | 0 <= i < |gs| ensures bytes[1 + i] == gs[i] {
        assert bytes[1 + i] == bytes[1..1 + |gs|][i];
      }
      TagLoopReadsTag(bytes, t.tagNumber);
      GroupsFitNine(t.tagNumber);
    }
  }

  lemma TagLoopReadsTag(bytes: seq<byte>, tag: nat)
    requires tag < TWO_TO_64
    requires 1 + |Groups(tag)| <= |bytes| && forall i :: 0 <= i < |Groups(tag)| ==> bytes[1 + i] == Groups(tag)[i]
    ensures TagLoop(bytes, 1, 0) == (tag, 1 + |Groups(tag)|)
  {
    GroupsDenoteTag(tag);
    TagLoopReadsGroups(bytes, Groups(tag), 0);
  }

  lemma GroupsFitNine(tag: nat)
    requires tag > 0
    ensures |Groups(tag)| <= 9 <==> tag < TWO_TO_63
  {
    PowersOf128();
    LeadingLength(tag, 9);
    assert Leading(tag) == Leading(tag / 128) + [tag % 128 + 128];
  }

  /** The length part of the round trip, once the tag has been read up to `off`. */
  lemma LengthReads(t: TagAndLen, bytes: seq<byte>, off: nat)
    requires IsHeader(t) && t.len < TWO_TO_63 && 1 <= off && off + |LenOctets(t.len)| <= |bytes|
    requires bytes[off..off + |LenOctets(t.len)|] == LenOctets(t.len)
    ensures LengthPart(bytes, t.cls, t.constructed, t.tagNumber, off)
            == if t.len < 0x100_0000 then Ok((t, off + |LenOctets(t.len)|)) else Err(Malformed("length is too large"))
  {
    var lens := LenOctets(t.len);
    assert bytes[off] == bytes[off..off + |lens|][0] == lens[0];
    if t.len > 127 {
      LongLength(t.len);
      assert bytes[off + 1..off + |lens|] == bytes[off..off + |lens|][1..] == Shortest(t.len);
      LongFormReads(t, bytes, off, Shortest(t.len));
    }
  }

  lemma LongFormReads(t: TagAndLen, bytes: seq<byte>, off: nat, ls: seq<byte>)
    requires IsHeader(t) && 1 <= off && |ls| <= 8 && off + 1 + |ls| <= |bytes|
    requires bytes[off] == 128 + |ls| && bytes[off + 1..off + 1 + |ls|] == ls && Number(ls) == t.len
    ensures LengthPart(bytes, t.cls, t.constructed, t.tagNumber, off)
            == if |ls| <= 3 then Ok((t, off + 1 + |ls|)) else Err(Malformed("length is too large"))
  {
  }

  lemma LongLength(len: nat)
    requires len < TWO_TO_63
    ensures |Shortest(len)| <= 8
    ensures |Shortest(len)| <= 3 <==> len < 0x100_0000
    ensures Number(Shortest(len)) == len
  {
    PowersOf256();
    ShortestLength(len, 8);
    ShortestLength(len, 3);
    NumberOfShortest(len);
  }

  lemma FirstOctetReads(t: TagAndLen)
    requires IsHeader(t)
    ensures FirstOctet(t) / 64 == t.cls && (FirstOctet(t) / 32 % 2 == 1 <==> t.constructed)
  {
  }

  /** Header round trip: exactly the headers with a tag below 2^63 and a length below 2^24 come back, with their exact
      size, whatever follows; every other header (its length an int64) is refused. */
  lemma HeaderRoundTrip(t: TagAndLen, rest: seq<byte>)
    requires IsHeader(t) && t.len < TWO_TO_63
    ensures t.tagNumber < TWO_TO_63 && t.len < 0x100_0000 ==> HeaderOf(Header(t) + rest) == Ok((t, |Header(t)|))
    ensures t.tagNumber >= TWO_TO_63 || t.len >= 0x100_0000 ==> HeaderOf(Header(t) + rest).Err?
  {
    HeaderParts(t, rest);
    TagReads(t, Header(t) + rest);
    LengthReads(t, Header(t) + rest, 1 + |TagOctets(t.tagNumber)|);
    PartsMakeHeader(t, Header(t) + rest);
  }

  /** Where the parts of a header lie in what follows it. */
  lemma HeaderParts(t: TagAndLen, rest: seq<byte>)
    requires IsHeader(t)
    ensures StartsWith(t, Header(t) + rest)
  {
    var bytes, tags, lens := Header(t) + rest, TagOctets(t.tagNumber), LenOctets(t.len);
    assert bytes[0..] == [FirstOctet(t)] + tags + (lens + rest);
    Slices(bytes, 0, [FirstOctet(t)], tags, lens + rest);
    assert bytes[0] == bytes[0..1][0];
    assert bytes[1 + |tags|..] == lens + rest + [];
    Slices(bytes, 1 + |tags|, lens, rest, []);
  }

  predicate StartsWith(t: TagAndLen, bytes: seq<byte>)
    requires IsHeader(t)
  {
    var tags, lens := TagOctets(t.tagNumber), LenOctets(t.len);
    && |bytes| >= 1 + |tags| + |lens|
    && bytes[0] == FirstOctet(t)
    && bytes[1..1 + |tags|] == tags
    && bytes[1 + |tags|..1 + |tags| + |lens|] == lens
  }

  lemma PartsMakeHeader(t: TagAndLen, bytes: seq<byte>)
    requires IsHeader(t) && t.len < TWO_TO_63 && StartsWith(t, bytes) && TagComesBack(t, bytes)
    requires LengthPart(bytes, t.cls, t.constructed, t.tagNumber, 1 + |TagOctets(t.tagNumber)|)
             == if t.len < 0x100_0000 then Ok((t, 1 + |TagOctets(t.tagNumber)| + |LenOctets(t.len)|))
                else Err(Malformed("length is too large"))
    ensures t.tagNumber < TWO_TO_63 && t.len < 0x100_0000 ==> HeaderOf(bytes) == Ok((t, |Header(t)|))
    ensures t.tagNumber >= TWO_TO_63 || t.len >= 0x100_0000 ==> HeaderOf(bytes).Err?
  {
    FirstOctetReads(t);
  }

  /** The tag takes the fewest groups: no groups for the same number are fewer, and the first is not an empty
      continuation (section 8.1.2.4.2 of ITU-T X.690). */
  lemma TagIsMinimal(tagNumber: nat, gs: seq<byte>)
    requires tagNumber > 30 && GroupNumber(gs) == tagNumber
    ensures |TagOctets(tagNumber)| <= |gs| && TagOctets(tagNumber)[0] != 128
  {
    GroupNumberBound(gs, |gs|);
    LeadingLength(tagNumber, |gs|);
    assert |Groups(tagNumber)| == |Leading(tagNumber)|;
    LeadingStartsNonzero(tagNumber / 128);
  }

  /** The length takes the fewest octets, the short form whenever it can (section 8.1.3 of ITU-T X.690). */
  lemma LengthIsMinimal(len: nat, s: seq<byte>)
    requires 127 < len < TWO_TO_63 && s != [] && Number(s) == len
    ensures |LenOctets(len)| <= 1 + |s| && LenOctets(len)[1] != 0
  {
    ShortestIsMinimal(len, s);
  }
}
