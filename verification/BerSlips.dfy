/** What a CHOICE with its own tag parses when its header is longer than that of the alternative: the parser starts one
    octet before the alternative, and this comes out right just for 126 or 127 octets under tag 1. */
module BerSlips {
  import opened Octets
  import opened BerHeader
  import opened BerSchema
  import opened BerParse

  /** A primitive type, or pointers or wrappers around one. */
  predicate PrimitiveInside(s: Schema) {
    Primitive(s) || ((s.Ptr? || s.Wrapper?) && PrimitiveInside(s.elem))
  }

  /** Such a type only looks at what follows the header. */
  lemma {:induction false} SameContents(s: Schema, target: Value, b: seq<byte>, c: seq<byte>, p: Params)
    requires PrimitiveInside(s) && OwnHeader(b).Ok? && OwnHeader(c).Ok?
    requires b[OwnHeader(b).value.1..] == c[OwnHeader(c).value.1..]
    ensures Parse(s, target, b, p) == Parse(s, target, c, p)
    decreases s
  {
    if s.Ptr? {
      SameContents(s.elem, Zero(s.elem), b, c, p);
    } else if s.Wrapper? {
      SameContents(s.elem, target, b, c, p);
    }
  }

  // ---------------------------------------------------------------- the alternative that survives

  /** The alternative's own header. */
  lemma SlippedInner(inner: seq<byte>)
    requires 128 <= |inner| <= 129 && inner[0] == 129 && inner[1] == |inner| - 2
    ensures HeaderOf(inner) == Ok((TagAndLen(2, false, 1, |inner| - 2), 2)) && OwnHeader(inner) == Ok((1, 2))
    ensures |Header(TagAndLen(2, false, 1, |inner| - 2))| == 2
  {
    assert HeaderOf(inner) == LengthPart(inner, 2, false, 1, 1);
  }

  lemma SlippedOctets(tag: nat, inner: seq<byte>, bytes: seq<byte>)
    requires tag <= 30 && 128 <= |inner| <= 129 && bytes == Header(TagAndLen(2, true, tag, |inner|)) + inner
    ensures bytes == [160 + tag, 129, |inner|] + inner
  {
    LenForms(|inner|);
  }

  /** What is read from the last octet of the outer header on. */
  lemma SlippedHeader(tag: nat, inner: seq<byte>, bytes: seq<byte>)
    requires tag <= 30 && 128 <= |inner| <= 129 && inner[0] == 129 && inner[1] == |inner| - 2
    requires bytes == [160 + tag, 129, |inner|] + inner
    ensures OwnHeader(bytes[2..]).Ok? && OwnHeader(bytes[2..]).value.1 == 3 && bytes[2..][3..] == inner[2..]
  {
    var late := bytes[2..];
    assert late[0] == |inner| && late[1] == 129 && late[2] == |inner| - 2;
    assert NumberTo(late[2..3], 1) == NumberTo(late[2..3], 0) * 256 + late[2];
    assert HeaderOf(late) == LengthPart(late, late[0] / 64, late[0] / 32 % 2 == 1, late[0] % 32, 1);
  }

  /** So both readings find the same contents. */
  lemma SlippedAlike(tag: nat, inner: seq<byte>, bytes: seq<byte>)
    requires tag <= 30 && 128 <= |inner| <= 129 && inner[0] == 129 && inner[1] == |inner| - 2
    requires bytes == Header(TagAndLen(2, true, tag, |inner|)) + inner
    ensures |bytes| >= 2 && OwnHeader(inner).Ok? && OwnHeader(bytes[2..]).Ok?
    ensures bytes[2..][OwnHeader(bytes[2..]).value.1..] == inner[OwnHeader(inner).value.1..]
  {
    SlippedOctets(tag, inner, bytes);
    SlippedHeader(tag, inner, bytes);
    SlippedInner(inner);
  }

  // ---------------------------------------------------------------- no other

  lemma LenForms(len: nat)
    requires len < 0x100_0000
    ensures LenOctets(len) == if len < 0x80 then [len]
                              else if len < 0x100 then [129, len]
                              else if len < 0x1_0000 then [130, len / 256, len % 256]
                              else [131, len / 256 / 256, len / 256 % 256, len % 256]
  {
    if len >= 0x100 {
      assert Shortest(len) == Shortest(len / 256) + [len % 256];
      if len >= 0x1_0000 {
        assert Shortest(len / 256) == Shortest(len / 256 / 256) + [len / 256 % 256];
      }
    }
  }

  /** Tags of equally many octets and headers of different sizes: the outer length takes one octet more, and its last
      octet is small. */
  lemma OneOctetMore(hi: nat, n: nat)
    requires hi <= 14 && hi + n < 0x100_0000 && |LenOctets(n)| != |LenOctets(hi + n)|
    ensures |LenOctets(hi + n)| == |LenOctets(n)| + 1
    ensures n >= 114 && LenOctets(hi + n)[|LenOctets(n)|] % 32 <= 13
    ensures |LenOctets(n)| == 1 ==> n <= 127
    ensures |LenOctets(n)| == 2 ==> 242 <= n <= 255
    ensures |LenOctets(n)| == 3 ==> 65522 <= n <= 65535
    ensures |LenOctets(n)| <= 3
  {
    LenForms(n);
    LenForms(hi + n);
  }

  /** The header read from the last octet of the outer header on takes that octet for the tag and the alternative's
      first octet for the form of the length. */
  lemma LateHeader(late: seq<byte>, first: byte)
    requires |late| >= 2 && late[0] % 32 <= 13 && late[1] == first >= 128
    ensures HeaderOf(late) == LengthPart(late, late[0] / 64, late[0] / 32 % 2 == 1, late[0] % 32, 1)
    ensures HeaderOf(late).Ok? ==>
              && first <= 131 && HeaderOf(late).value.1 == 2 + (first - 128) <= |late|
              && HeaderOf(late).value.0.len == Number(late[2..2 + (first - 128)])
  {
    if HeaderOf(late).Ok? && first == 128 {
      assert Number(late[2..2]) == 0;
    }
  }

  lemma FirstOctets(u: TagAndLen)
    requires IsHeader(u) && u.cls == 2
    ensures FirstOctet(u) >= 128
    ensures FirstOctet(u) <= 131 ==> !u.constructed && u.tagNumber == FirstOctet(u) - 128
  {
  }

  /** Where the two headers and the contents lie. */
  predicate Nested(bytes: seq<byte>, t: TagAndLen, u: TagAndLen)
    requires IsHeader(t) && IsHeader(u)
  {
    && |bytes| == |Header(t)| + |Header(u)| + u.len
    && bytes[..|Header(t)|] == Header(t)
    && bytes[|Header(t)|..|Header(t)| + |Header(u)|] == Header(u)
  }

  /** A constructed alternative leaves no header there to read. */
  lemma LateIsPrimitive(bytes: seq<byte>, t: TagAndLen, u: TagAndLen)
    requires IsHeader(t) && IsHeader(u) && u.cls == 2 && Nested(bytes, t, u) && |bytes| < 0x100_0000
    requires t.len == |Header(u)| + u.len && u.tagNumber < TWO_TO_63
    requires |TagOctets(t.tagNumber)| == |TagOctets(u.tagNumber)| && |Header(t)| != |Header(u)|
    requires OwnHeader(bytes[|Header(u)|..]).Ok?
    ensures !u.constructed && u.len >= 114
  {
    HeadersDiffer(t, u);
    LateOctets(bytes, t, u);
    FirstOctets(u);
    LateHeader(bytes[|Header(u)|..], FirstOctet(u));
  }

  /** Reading from the alternative's header size on finds contents as long as the alternative's only in one case. */
  lemma NoOtherSlip(bytes: seq<byte>, t: TagAndLen, u: TagAndLen)
    requires IsHeader(t) && IsHeader(u) && u.cls == 2 && Nested(bytes, t, u) && |bytes| < 0x100_0000
    requires t.len == |Header(u)| + u.len && u.tagNumber < TWO_TO_63
    requires |TagOctets(t.tagNumber)| == |TagOctets(u.tagNumber)| && |Header(t)| != |Header(u)|
    requires OwnHeader(bytes[|Header(u)|..]).Ok?
    requires |bytes| - |Header(u)| - OwnHeader(bytes[|Header(u)|..]).value.1 == u.len
    ensures !u.constructed && u.tagNumber == 1 && 126 <= u.len <= 127 && t.tagNumber <= 30
  {
    HeadersDiffer(t, u);
    LateOctets(bytes, t, u);
    var late, k := bytes[|Header(u)|..], |LenOctets(u.len)|;
    LateHeader(late, FirstOctet(u));
    FirstOctets(u);
    LateLength(late, Header(u), u, k);
  }

  /** With tags of equally many octets the outer header is one octet longer. */
  lemma HeadersDiffer(t: TagAndLen, u: TagAndLen)
    requires IsHeader(t) && IsHeader(u) && t.len == |Header(u)| + u.len < 0x100_0000 && u.tagNumber < TWO_TO_63
    requires |TagOctets(t.tagNumber)| == |TagOctets(u.tagNumber)| && |Header(t)| != |Header(u)|
    ensures |Header(t)| == |Header(u)| + 1
    ensures |Header(u)| == 1 + |TagOctets(u.tagNumber)| + |LenOctets(u.len)|
    ensures LenOctets(t.len)[|LenOctets(u.len)|] % 32 <= 13 && |LenOctets(u.len)| + 1 == |LenOctets(t.len)| <= 4
    ensures u.len >= 114 && (|LenOctets(u.len)| == 1 ==> u.len <= 127)
    ensures |LenOctets(u.len)| == 1 && |TagOctets(u.tagNumber)| == 0 ==> 126 <= u.len
    ensures |LenOctets(u.len)| == 2 ==> u.len <= 255
    ensures |LenOctets(u.len)| == 3 ==> u.len <= 65535
  {
    if u.tagNumber > 0 {
      GroupsFitNine(u.tagNumber);
    }
    LenForms(u.len);
    LenForms(t.len);
    OneOctetMore(|Header(u)|, u.len);
  }

  lemma LateOctets(bytes: seq<byte>, t: TagAndLen, u: TagAndLen)
    requires IsHeader(t) && IsHeader(u) && Nested(bytes, t, u) && |Header(t)| == |Header(u)| + 1
    ensures var late := bytes[|Header(u)|..];
            && |late| == 1 + |Header(u)| + u.len && late[1..1 + |Header(u)|] == Header(u)
            && late[0] == LenOctets(t.len)[|LenOctets(t.len)| - 1] && late[1] == FirstOctet(u)
  {
    var hi := |Header(u)|;
    var late := bytes[hi..];
    LastOfHeader(bytes, t, hi);
    assert late[1..1 + hi] == bytes[hi + 1..hi + 1 + hi];
    assert late[1] == late[1..1 + hi][0] == Header(u)[0];
  }

  /** The octet at `hi`, when the outer header is one longer, is the last of its length. */
  lemma LastOfHeader(bytes: seq<byte>, t: TagAndLen, hi: nat)
    requires IsHeader(t) && |bytes| >= |Header(t)| == hi + 1 && bytes[..hi + 1] == Header(t)
    ensures bytes[hi] == LenOctets(t.len)[|LenOctets(t.len)| - 1]
  {
    assert bytes[hi] == bytes[..hi + 1][hi];
  }

  lemma LargeNumber(s: seq<byte>)
    requires 2 <= |s| <= 3 && s[0] > 128
    ensures Number(s) >= if |s| == 2 then 0x8100 else 0x81_0000
  {
    assert NumberTo(s, 1) == NumberTo(s, 0) * 256 + s[0];
    assert NumberTo(s, 2) == NumberTo(s, 1) * 256 + s[1];
  }

  /** With two or three length octets, what is read as the length runs past the end. */
  lemma LateLength(late: seq<byte>, header: seq<byte>, u: TagAndLen, k: nat)
    requires IsHeader(u) && u.tagNumber == k && k <= 30 && header == Header(u) && k == |LenOctets(u.len)| <= 3
    requires |late| == 1 + |header| + u.len && late[1..1 + |header|] == header
    requires OwnHeader(late).Ok? && HeaderOf(late).value.1 == 2 + k
    requires HeaderOf(late).value.0.len == Number(late[2..2 + k])
    requires u.len < 0x100_0000 && (k == 2 ==> u.len <= 255) && (k == 3 ==> u.len <= 65535)
    ensures k == 1
  {
    assert header == [FirstOctet(u)] + LenOctets(u.len);
    assert late[2..2 + k] == late[1..1 + |header|][1..] == LenOctets(u.len);
    LenForms(u.len);
    if k >= 2 {
      LargeNumber(LenOctets(u.len));
    }
  }
}
