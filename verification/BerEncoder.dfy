/** The encoder tree: content octets as a function, and the two passes (measure, then write in place) that refine it. */
module BerEncoder {
  import opened Octets

  datatype Encoder =
    | ByteEnc(b: byte)
    | BytesEnc(bytes: seq<byte>)
    | StringEnc(str: seq<byte>)
    | StructEnc(parts: seq<Encoder>)
    | TypeEnc(tagAndLen: Encoder, value: Encoder)
    | Int64Enc(i: int)
    | BitStringEnc(bits: seq<byte>, bitLength: nat)

  /** The octets an encoder stands for. */
  function Content(e: Encoder): (s: seq<byte>)
    decreases e, 0
  {
    match e
    case ByteEnc(b) => [b]
    case BytesEnc(s) => s
    case StringEnc(s) => s
    case StructEnc(parts) => ContentTo(parts, |parts|)
    case TypeEnc(h, v) => Content(h) + Content(v)
    case Int64Enc(i) => IntOctets(i)
    case BitStringEnc(s, n) => [8 - n % 8] + s
  }

  /** The octets of the first `k` parts, one after the other. */
  function ContentTo(parts: seq<Encoder>, k: nat): (s: seq<byte>)
    requires k <= |parts|
    decreases parts, 1
  {
    Flatten(Pieces(parts), k)
  }

  /** What each of the parts stands for. */
  function Pieces(parts: seq<Encoder>): (ps: seq<seq<byte>>)
    ensures |ps| == |parts|
    decreases parts, 0
  {
    seq(|parts|, i requires 0 <= i < |parts| => Content(parts[i]))
  }

  /** The fewest octets whose two's complement reading is `i`. */
  function IntOctets(i: int): (s: seq<byte>)
    ensures s != []
    decreases if i < 0 then -i else i
  {
    if -128 <= i <= 127 then [i % 256] else IntOctets(i / 256) + [i % 256]
  }

  // ---------------------------------------------------------------- first pass

  method IntLen(i0: int) returns (n: nat)
    ensures n == |IntOctets(i0)|
  {
    n := 1;
    var i := i0;
    while i > 127
      invariant i0 > 127 ==> i >= 0
      invariant i0 <= 127 ==> i == i0
      invariant n >= 1 && n - 1 + |IntOctets(i)| == |IntOctets(i0)|
      decreases i
    {
      n, i := n + 1, i / 256;
    }
    while i < -128
      invariant i <= 127
      invariant n >= 1 && n - 1 + |IntOctets(i)| == |IntOctets(i0)|
      decreases -i
    {
      n, i := n + 1, i / 256;
    }
  }

  method Len(e: Encoder) returns (n: nat)
    ensures n == |Content(e)|
    decreases e
  {
    match e
    case ByteEnc(_) => n := 1;
    case BytesEnc(s) => n := |s|;
    case StringEnc(s) => n := |s|;
    case StructEnc(parts) =>
      n := 0;
      for k := 0 to |parts|
        invariant n == |ContentTo(parts, k)|
      {
        var m := Len(parts[k]);
        n := n + m;
      }
    case TypeEnc(h, v) =>
      var a := Len(h);
      var b := Len(v);
      n := a + b;
    case Int64Enc(i) => n := IntLen(i);
    case BitStringEnc(s, _) => n := |s| + 1;
  }

  // ---------------------------------------------------------------- second pass

  /** `dst` is as before except that the octets of `s` now stand at `lo`. */
  twostate predicate Wrote(dst: array<byte>, lo: nat, s: seq<byte>)
    reads dst
  {
    && lo + |s| <= dst.Length
    && (forall k :: 0 <= k < |s| ==> dst[lo + k] == s[k])
    && (forall k :: 0 <= k < dst.Length && !(lo <= k < lo + |s|) ==> dst[k] == old(dst[k]))
  }

  /** The offsets written, with how often each was: here once each from `lo` up to `hi`. */
  ghost predicate Once(written: multiset<nat>, lo: nat, hi: nat) {
    forall i: nat :: written[i] == if lo <= i < hi then 1 else 0
  }

  /** One octet is stored, and counted. */
  method Put(dst: array<byte>, at: nat, b: byte, ghost before: multiset<nat>) returns (ghost written: multiset<nat>)
    requires at < dst.Length
    modifies dst
    ensures dst[at] == b && forall k :: 0 <= k < dst.Length && k != at ==> dst[k] == old(dst[k])
    ensures written == before + multiset([at])
  {
    dst[at] := b;
    written := before + multiset([at]);
  }

  /** Writes each octet of an encoder once, from `lo` on, and nothing else: the buffer only needs the room that `Len`
      asked for. */
  method Encode(e: Encoder, dst: array<byte>, lo: nat) returns (ghost written: multiset<nat>)
    requires lo + |Content(e)| <= dst.Length
    modifies dst
    ensures Wrote(dst, lo, Content(e)) && Once(written, lo, lo + |Content(e)|)
    decreases e
  {
    match e
    case ByteEnc(b) => written := Put(dst, lo, b, multiset{});
    case BytesEnc(s) => written := Copy(dst, lo, s);
    case StringEnc(s) => written := Copy(dst, lo, s);
    case StructEnc(parts) => written := EncodeParts(parts, dst, lo);
    case TypeEnc(h, v) =>
      ghost var first := Encode(h, dst, lo);
      var m := Len(h);
      ghost var second := Encode(v, dst, lo + m);
      written := first + second;
    case Int64Enc(i) => written := EncodeInt(i, dst, lo);
    case BitStringEnc(s, n) =>
      ghost var first := Put(dst, lo, 8 - n % 8, multiset{});
      ghost var second := Copy(dst, lo + 1, s);
      written := first + second;
  }

  method EncodeParts(parts: seq<Encoder>, dst: array<byte>, lo: nat) returns (ghost written: multiset<nat>)
    requires lo + |ContentTo(parts, |parts|)| <= dst.Length
    modifies dst
    ensures Wrote(dst, lo, ContentTo(parts, |parts|)) && Once(written, lo, lo + |ContentTo(parts, |parts|)|)
    decreases parts
  {
    var at := lo;
    written := multiset{};
    PartsGrow(parts, 0, |parts|);
    for k := 0 to |parts|
      invariant at == lo + |ContentTo(parts, k)|
      invariant Wrote(dst, lo, ContentTo(parts, k)) && Once(written, lo, at)
    {
      PartsGrow(parts, k + 1, |parts|);
      var m := Len(parts[k]);
      ghost var more := Encode(parts[k], dst, at);
      written := written + more;
      at := at + m;
    }
  }

  method Copy(dst: array<byte>, lo: nat, s: seq<byte>) returns (ghost written: multiset<nat>)
    requires lo + |s| <= dst.Length
    modifies dst
    ensures Wrote(dst, lo, s) && Once(written, lo, lo + |s|)
  {
    written := multiset{};
    for k := 0 to |s|
      invariant Wrote(dst, lo, s[..k]) && Once(written, lo, lo + k)
    {
      written := Put(dst, lo + k, s[k], written);
    }
  }

  /** Fills the octets of an integer from the last to the first. */
  method EncodeInt(i0: int, dst: array<byte>, lo: nat) returns (ghost written: multiset<nat>)
    requires lo + |IntOctets(i0)| <= dst.Length
    modifies dst
    ensures Wrote(dst, lo, IntOctets(i0)) && Once(written, lo, lo + |IntOctets(i0)|)
  {
    var n := IntLen(i0);
    ghost var all := IntOctets(i0);
    var i := i0;
    written := multiset{};
    for j := 0 to n
      invariant j < n ==> IntOctets(i) == all[..n - j]
      invariant forall k :: n - j <= k < n ==> dst[lo + k] == all[k]
      invariant forall k :: 0 <= k < dst.Length && !(lo <= k < lo + n) ==> dst[k] == old(dst[k])
      invariant Once(written, lo + n - j, lo + n)
    {
      LastOctet(i, all, n - j);
      written := Put(dst, lo + (n - 1 - j), i % 256, written);
      i := i / 256;
    }
  }

  lemma LastOctet(i: int, all: seq<byte>, m: nat)
    requires 1 <= m <= |all| && IntOctets(i) == all[..m]
    ensures all[m - 1] == i % 256 && (m > 1 ==> IntOctets(i / 256) == all[..m - 1])
  {
    assert all[m - 1] == IntOctets(i)[m - 1];
  }

  lemma PartsGrow(parts: seq<Encoder>, j: nat, k: nat)
    requires j <= k <= |parts|
    ensures |ContentTo(parts, j)| <= |ContentTo(parts, k)|
  {
    FlattenGrows(Pieces(parts), j, k);
  }

  // ---------------------------------------------------------------- integers

  /** The two's complement reading of a non-empty string of octets. */
  function Signed(s: seq<byte>): int
    requires s != []
  {
    if s[0] < 128 then Number(s) else Number(s) - Pow256(|s|)
  }

  /** Read as an unsigned number, the content of a negative integer is off by 256 to its length. */
  lemma {:induction false} NumberOfInt(i: int)
    ensures Number(IntOctets(i)) == if i >= 0 then i else i + Pow256(|IntOctets(i)|)
    ensures IntOctets(i)[0] < 128 <==> i >= 0
    decreases if i < 0 then -i else i
  {
    if -128 <= i <= 127 {
      assert Number([i % 256]) == NumberTo([i % 256], 0) * 256 + i % 256;
      assert Pow256(1) == Pow256(0) * 256;
    } else {
      NumberOfInt(i / 256);
      NumberOfSnoc(IntOctets(i / 256), i % 256);
      assert Pow256(|IntOctets(i)|) == Pow256(|IntOctets(i / 256)|) * 256;
    }
  }

  /** Half of 256^k. */
  function Half(k: nat): (h: int)
    requires k >= 1
    ensures 2 * h == Pow256(k)
  {
    assert Pow256(k) == Pow256(k - 1) * 256;
    128 * Pow256(k - 1)
  }

  /** `k` octets suffice exactly for the numbers from -256^k/2 up to 256^k/2. */
  lemma {:induction false} IntLength(i: int, k: nat)
    requires k >= 1
    ensures |IntOctets(i)| <= k <==> -Half(k) <= i < Half(k)
    decreases k
  {
    if k == 1 {
      assert Half(1) == 128;
    } else {
      assert Half(k) == 256 * Half(k - 1) by { assert Pow256(k - 1) == Pow256(k - 2) * 256; }
      if -128 <= i <= 127 {
        assert Half(k - 1) >= 1;
      } else {
        IntLength(i / 256, k - 1);
        ScaledBounds(i, Half(k - 1));
      }
    }
  }

  lemma ScaledBounds(i: int, h: int)
    ensures -h <= i / 256 < h <==> -(256 * h) <= i < 256 * h
  {
  }

  /** Integer contents are the shortest two's complement form (section 8.3.2 of ITU-T X.690): they denote the number, no
      other octets for it are fewer, and the first nine bits are not all alike. */
  lemma IntIsShortest(i: int, s: seq<byte>)
    requires s != [] && Signed(s) == i
    ensures Signed(IntOctets(i)) == i
    ensures |IntOctets(i)| <= |s|
    ensures |IntOctets(i)| > 1 ==> var c := IntOctets(i);
                                   !(c[0] == 0 && c[1] < 128) && !(c[0] == 255 && c[1] >= 128)
  {
    NumberOfInt(i);
    SignedBound(s);
    IntLength(i, |s|);
    FirstNineBits(i);
  }

  lemma SignedBound(s: seq<byte>)
    requires s != []
    ensures -Half(|s|) <= Signed(s) < Half(|s|)
  {
    FirstOctetWeighs(s, |s|);
  }

  lemma {:induction false} FirstOctetWeighs(s: seq<byte>, k: nat)
    requires 1 <= k <= |s|
    ensures NumberTo(s, k) < 2 * Half(k)
    ensures s[0] < 128 <==> NumberTo(s, k) < Half(k)
    decreases k
  {
    if k == 1 {
      assert NumberTo(s, 1) == NumberTo(s, 0) * 256 + s[0];
      assert Half(1) == 128;
    } else {
      assert Half(k) == 256 * Half(k - 1) by { assert Pow256(k - 1) == Pow256(k - 2) * 256; }
      FirstOctetWeighs(s, k - 1);
    }
  }

  lemma {:induction false} FirstNineBits(i: int)
    ensures |IntOctets(i)| > 1 ==> var c := IntOctets(i);
                                   !(c[0] == 0 && c[1] < 128) && !(c[0] == 255 && c[1] >= 128)
    decreases if i < 0 then -i else i
  {
    if !(-128 <= i <= 127) && !(-128 <= i / 256 <= 127) {
      FirstNineBits(i / 256);
    }
  }

  /** Decoding gives the number modulo 256 to its length, and the number itself exactly when it is not negative or takes
      eight octets. */
  lemma IntDecodes(i: int)
    requires -TWO_TO_63 <= i < TWO_TO_63
    ensures var n := |IntOctets(i)|;
            && n <= 8
            && Int64Of(IntOctets(i)) == Ok(if i >= 0 || n == 8 then i else i + Pow256(n))
            && (Int64Of(IntOctets(i)) == Ok(i) <==> i >= 0 || n == 8)
  {
    var n := |IntOctets(i)|;
    PowersOf256();
    IntLength(i, 8);
    NumberOfInt(i);
    if i < 0 {
      NegativeWraps(i, n);
    }
  }

  /** What the unsigned reading of a negative integer wraps to. */
  lemma NegativeWraps(i: int, n: nat)
    requires -TWO_TO_63 <= i < 0 && n == |IntOctets(i)| <= 8
    ensures Wrap64(i + Pow256(n)) == if n == 8 then i else i + Pow256(n)
    ensures n < 8 ==> Pow256(n) != 0
  {
    PowersOf256();
    if n == 8 {
      WrapIsPeriodic(i, 1);
    } else {
      IntLength(i, n);
      PowMonotone(n, 7);
    }
  }

  lemma {:induction false} PowMonotone(j: nat, k: nat)
    requires j <= k
    ensures Pow256(j) <= Pow256(k)
  {
    if j < k {
      PowMonotone(j, k - 1);
    }
  }
}
