/** Octets, big-endian numbers, and the error results shared by the codec modules. */
module Octets {

  type byte = x: int | 0 <= x < 256

  const TWO_TO_63: int := 0x8000_0000_0000_0000
  const TWO_TO_64: int := 0x1_0000_0000_0000_0000

  /** Outcome of an operation that the source reports with a Go error, or that panics at run time. */
  datatype Result<+T> = Ok(value: T) | Err(error: Error)

  datatype Error =
    | Malformed(reason: string)  // the source returns an error
    | GoPanic(reason: string)    // the source would panic

  /** The values of the first `k` results, or the first error among them: what a loop that stops on error leaves. */
  function Collect<T>(rs: seq<Result<T>>, k: nat): (r: Result<seq<T>>)
    requires k <= |rs|
    ensures r.Ok? ==> |r.value| == k
  {
    if k == 0 then Ok([])
    else
      var front := Collect(rs, k - 1);
      if front.Err? then front
      else if rs[k - 1].Err? then Err(rs[k - 1].error)
      else Ok(front.value + [rs[k - 1].value])
  }

  lemma {:induction false} CollectsAll<T>(rs: seq<Result<T>>, vs: seq<T>, k: nat)
    requires k <= |rs| == |vs| && forall i :: 0 <= i < k ==> rs[i] == Ok(vs[i])
    ensures Collect(rs, k) == Ok(vs[..k])
  {
    if k > 0 {
      CollectsAll(rs, vs, k - 1);
      assert vs[..k] == vs[..k - 1] + [vs[k - 1]];
    }
  }

  lemma {:induction false} CollectStops<T>(rs: seq<Result<T>>, i: nat, k: nat)
    requires i < k <= |rs| && Collect(rs, i).Ok? && rs[i].Err?
    ensures Collect(rs, k) == Err(rs[i].error)
  {
    if k > i + 1 {
      CollectStops(rs, i, k - 1);
    }
  }

  lemma {:induction false} Collected<T>(rs: seq<Result<T>>, k: nat)
    requires k <= |rs| && Collect(rs, k).Ok?
    ensures forall i :: 0 <= i < k ==> rs[i] == Ok(Collect(rs, k).value[i])
  {
    if k > 0 {
      Collected(rs, k - 1);
    }
  }

  /** The number a string of octets denotes, most significant octet first. */
  function Number(s: seq<byte>): (v: nat) {
    NumberTo(s, |s|)
  }

  /** The number its first `k` octets denote. */
  function NumberTo(s: seq<byte>, k: nat): (v: nat)
    requires k <= |s|
  {
    if k == 0 then 0 else NumberTo(s, k - 1) * 256 + s[k - 1]
  }

  /** The fewest octets that denote `x`, at least one. */
  function Shortest(x: nat): (s: seq<byte>)
    ensures s != []
  {
    if x < 256 then [x] else Shortest(x / 256) + [x % 256]
  }

  /** The low `k` octets of `x`; for a negative `x`, of its two's complement. */
  function BigEndian(x: int, k: nat): (s: seq<byte>)
    ensures |s| == k
    decreases k
  {
    if k == 0 then [] else BigEndian(x / 256, k - 1) + [x % 256]
  }

  function Pow256(k: nat): (p: int)
    ensures p >= 1
  {
    if k == 0 then 1 else Pow256(k - 1) * 256
  }

  lemma PowersOf256()
    ensures Pow256(1) == 256 && Pow256(2) == 0x1_0000 && Pow256(3) == 0x100_0000 && Pow256(4) == 0x1_0000_0000
    ensures Pow256(7) == 0x100_0000_0000_0000 && Pow256(8) == TWO_TO_64
  {
    assert Pow256(1) == 256;
    assert Pow256(2) == 0x1_0000;
    assert Pow256(3) == 0x100_0000;
    assert Pow256(4) == 0x1_0000_0000;
    assert Pow256(5) == 0x100_0000_0000;
    assert Pow256(6) == 0x1_0000_0000_0000;
    assert Pow256(7) == 0x100_0000_0000_0000;
  }

  lemma {:induction false} SamePrefix(s: seq<byte>, t: seq<byte>, k: nat)
    requires k <= |s| && k <= |t| && forall i :: 0 <= i < k ==> s[i] == t[i]
    ensures NumberTo(s, k) == NumberTo(t, k)
  {
    if k > 0 {
      SamePrefix(s, t, k - 1);
    }
  }

  lemma NumberOfSnoc(s: seq<byte>, b: byte)
    ensures Number(s + [b]) == Number(s) * 256 + b
  {
    SamePrefix(s + [b], s, |s|);
  }

  lemma NumberBound(s: seq<byte>)
    ensures Number(s) < Pow256(|s|)
  {
    NumberToBound(s, |s|);
  }

  lemma {:induction false} NumberToBound(s: seq<byte>, k: nat)
    requires k <= |s|
    ensures NumberTo(s, k) < Pow256(k)
  {
    if k > 0 {
      NumberToBound(s, k - 1);
    }
  }

  lemma {:induction false} NumberOfShortest(x: nat)
    ensures Number(Shortest(x)) == x
  {
    if x < 256 {
      assert Number([x]) == NumberTo([x], 0) * 256 + x;
    } else {
      NumberOfShortest(x / 256);
      NumberOfSnoc(Shortest(x / 256), x % 256);
    }
  }

  /** `Shortest` is as long as its argument needs: a number below 256^k takes at most k octets, and no other does. */
  lemma {:induction false} ShortestLength(x: nat, k: nat)
    requires k >= 1
    ensures |Shortest(x)| <= k <==> x < Pow256(k)
    decreases k
  {
    if k == 1 {
      assert Pow256(1) == Pow256(0) * 256 == 256;
      if x >= 256 {
        assert Shortest(x) == Shortest(x / 256) + [x % 256];
      }
    } else if x < 256 {
      assert Pow256(k) == Pow256(k - 1) * 256;
    } else {
      ShortestLength(x / 256, k - 1);
      assert |Shortest(x)| == |Shortest(x / 256)| + 1;
      assert Pow256(k) == Pow256(k - 1) * 256;
    }
  }

  /** No string of octets for the same number is shorter, and the first octet is not a wasted zero. */
  lemma {:induction false} ShortestIsMinimal(x: nat, s: seq<byte>)
    requires s != [] && Number(s) == x
    ensures |Shortest(x)| <= |s|
    ensures x >= 256 ==> Shortest(x)[0] != 0
  {
    NumberBound(s);
    ShortestLength(x, |s|);
    ShortestLeads(x);
  }

  lemma {:induction false} ShortestLeads(x: nat)
    ensures x > 0 ==> Shortest(x)[0] != 0
  {
    if x >= 256 {
      ShortestLeads(x / 256);
    }
  }

  lemma {:induction false} NumberOfBigEndian(x: nat, k: nat)
    requires x < Pow256(k)
    ensures Number(BigEndian(x, k)) == x
    decreases k
  {
    if k > 0 {
      NumberOfBigEndian(x / 256, k - 1);
      NumberOfSnoc(BigEndian(x / 256, k - 1), x % 256);
    }
  }

  lemma BigEndianOfNumber(s: seq<byte>)
    ensures BigEndian(Number(s), |s|) == s
  {
    BigEndianOfPrefix(s, |s|);
  }

  lemma {:induction false} BigEndianOfPrefix(s: seq<byte>, k: nat)
    requires k <= |s|
    ensures BigEndian(NumberTo(s, k), k) == s[..k]
  {
    if k > 0 {
      BigEndianOfPrefix(s, k - 1);
      assert s[..k] == s[..k - 1] + [s[k - 1]];
    }
  }

  /** Where the three parts of a concatenation lie, from `off` on. */
  lemma Slices<T>(s: seq<T>, off: nat, a: seq<T>, b: seq<T>, c: seq<T>)
    requires off <= |s| && s[off..] == a + b + c
    ensures off + |a| + |b| + |c| == |s|
    ensures s[off..off + |a|] == a
    ensures s[off + |a|..off + |a| + |b|] == b
    ensures s[off + |a| + |b|..] == c
  {
    var t := a + b + c;
    assert forall i :: off <= i < |s| ==> s[i] == t[i - off];
  }

  predicate IsPrefix<T(==)>(a: seq<T>, b: seq<T>) {
    |a| <= |b| && forall i :: 0 <= i < |a| ==> a[i] == b[i]
  }

  // ---------------------------------------------------------------- pieces laid end to end

  /** The first `k` pieces, one after the other. */
  function Flatten<T>(es: seq<seq<T>>, k: nat): (s: seq<T>)
    requires k <= |es|
  {
    if k == 0 then [] else Flatten(es, k - 1) + es[k - 1]
  }

  lemma FlattenSnoc<T>(es: seq<seq<T>>, e: seq<T>)
    ensures Flatten(es + [e], |es| + 1) == Flatten(es, |es|) + e
  {
    FlattenPrefix(es + [e], es, |es|);
  }

  lemma {:induction false} FlattenPrefix<T>(es: seq<seq<T>>, fs: seq<seq<T>>, k: nat)
    requires k <= |es| && k <= |fs| && forall i :: 0 <= i < k ==> es[i] == fs[i]
    ensures Flatten(es, k) == Flatten(fs, k)
  {
    if k > 0 {
      FlattenPrefix(es, fs, k - 1);
    }
  }

  /** `bytes` holds the elements one after the other from `base` to its end. */
  predicate HoldsPieces<T(==)>(bytes: seq<T>, base: nat, es: seq<seq<T>>) {
    base <= |bytes| && bytes[base..] == Flatten(es, |es|)
  }

  function Position<T>(base: nat, es: seq<seq<T>>, k: nat): nat
    requires k <= |es|
  {
    base + |Flatten(es, k)|
  }

  lemma {:induction false} FlattenGrows<T>(es: seq<seq<T>>, j: nat, k: nat)
    requires j <= k <= |es|
    ensures IsPrefix(Flatten(es, j), Flatten(es, k))
    decreases k
  {
    if j < k {
      FlattenGrows(es, j, k - 1);
    }
  }

  lemma PieceLies<T>(bytes: seq<T>, base: nat, es: seq<seq<T>>, k: nat)
    requires HoldsPieces(bytes, base, es) && k < |es|
    ensures Position(base, es, k) + |es[k]| == Position(base, es, k + 1) <= |bytes|
    ensures bytes[Position(base, es, k)..Position(base, es, k + 1)] == es[k]
  {
    FlattenGrows(es, k + 1, |es|);
    var lo, e := Position(base, es, k), es[k];
    forall i | 0 <= i < |e| ensures bytes[lo + i] == e[i] {
      var at := |Flatten(es, k)| + i;
      assert bytes[base + at] == bytes[base..][at] == Flatten(es, |es|)[at] == Flatten(es, k + 1)[at] == e[i];
    }
  }

  predicate Between<T(==)>(bytes: seq<T>, lo: nat, e: seq<T>, hi: nat) {
    lo <= hi <= |bytes| && bytes[lo..hi] == e
  }

  /** Each offset is the one before it plus the length of the piece between them. */
  predicate OffsetsOf<T>(es: seq<seq<T>>, offs: seq<nat>) {
    |offs| == |es| + 1 && forall k :: 0 <= k < |es| ==> offs[k] + |es[k]| == offs[k + 1]
  }

  predicate AllBetween<T(==)>(bytes: seq<T>, es: seq<seq<T>>, offs: seq<nat>, n: nat)
    requires |offs| == |es| + 1 && n <= |es|
  {
    forall k :: 0 <= k < n ==> Between(bytes, offs[k], es[k], offs[k + 1])
  }

  /** Bytes hold pieces end to end when they hold each between its offsets. */
  lemma {:induction false} PiecesLie<T>(bytes: seq<T>, es: seq<seq<T>>, offs: seq<nat>, n: nat)
    requires OffsetsOf(es, offs) && offs[0] <= |bytes| && n <= |es|
    ensures offs[0] + |Flatten(es, n)| == offs[n]
    ensures Between(bytes, offs[0], Flatten(es, n), offs[n]) <==> AllBetween(bytes, es, offs, n)
  {
    if n > 0 {
      PiecesLie(bytes, es, offs, n - 1);
      Juxtaposed(bytes, offs[0], Flatten(es, n - 1), offs[n - 1], es[n - 1], offs[n]);
    }
  }

  lemma Juxtaposed<T>(bytes: seq<T>, lo: nat, a: seq<T>, mid: nat, b: seq<T>, hi: nat)
    requires lo + |a| == mid && mid + |b| == hi
    ensures Between(bytes, lo, a + b, hi) <==> Between(bytes, lo, a, mid) && Between(bytes, mid, b, hi)
  {
    if hi <= |bytes| {
      assert bytes[lo..hi] == bytes[lo..mid] + bytes[mid..hi];
      assert bytes[lo..hi][..|a|] == bytes[lo..mid] && bytes[lo..hi][|a|..] == bytes[mid..hi];
      assert (a + b)[..|a|] == a && (a + b)[|a|..] == b;
    }
  }

  function Positions<T>(base: nat, es: seq<seq<T>>): (os: seq<nat>)
    ensures OffsetsOf(es, os)
  {
    seq(|es| + 1, k requires 0 <= k <= |es| => Position(base, es, k))
  }

  /** The offsets of pieces that fill the bytes from `base` to the end. */
  lemma PiecesFill<T>(bytes: seq<T>, base: nat, es: seq<seq<T>>) returns (offs: seq<nat>)
    requires HoldsPieces(bytes, base, es)
    ensures OffsetsOf(es, offs) && offs[0] == base && offs[|es|] == |bytes|
    ensures AllBetween(bytes, es, offs, |es|)
  {
    offs := Positions(base, es);
    assert offs[0] == base;
    PiecesLie(bytes, es, offs, |es|);
    assert bytes[base..|bytes|] == bytes[base..];
  }

  // ---------------------------------------------------------------- repeated reading

  /** `k` steps of a reader from state `s`: the items read and the state reached. */
  function Repeat<S, T>(step: S -> Result<(T, S)>, s: S, k: nat): (r: Result<(seq<T>, S)>)
    ensures r.Ok? ==> |r.value.0| == k
  {
    if k == 0 then Ok(([], s))
    else
      var front := Repeat(step, s, k - 1);
      if front.Err? then front
      else
        var next := step(front.value.1);
        if next.Err? then Err(next.error) else Ok((front.value.0 + [next.value.0], next.value.1))
  }

  /** Step `i` leads from state `i` to state `i + 1`, reading item `i`. */
  predicate Trace<S(==), T(==)>(step: S -> Result<(T, S)>, ss: seq<S>, ts: seq<T>) {
    |ss| == |ts| + 1 && forall i :: 0 <= i < |ts| ==> step(ss[i]) == Ok((ts[i], ss[i + 1]))
  }

  lemma {:induction false} RepeatFollows<S, T>(step: S -> Result<(T, S)>, ss: seq<S>, ts: seq<T>, k: nat)
    requires Trace(step, ss, ts) && k <= |ts|
    ensures Repeat(step, ss[0], k) == Ok((ts[..k], ss[k]))
  {
    if k > 0 {
      RepeatFollows(step, ss, ts, k - 1);
      assert ts[..k] == ts[..k - 1] + [ts[k - 1]];
    }
  }

  lemma {:induction false} RepeatStops<S, T>(step: S -> Result<(T, S)>, s: S, i: nat, k: nat)
    requires i < k && Repeat(step, s, i).Ok? && step(Repeat(step, s, i).value.1).Err?
    ensures Repeat(step, s, k) == Err(step(Repeat(step, s, i).value.1).error)
  {
    if k > i + 1 {
      RepeatStops(step, s, i, k - 1);
    }
  }

  lemma {:induction false} RepeatTraced<S, T>(step: S -> Result<(T, S)>, s: S, k: nat) returns (ss: seq<S>)
    requires Repeat(step, s, k).Ok?
    ensures Trace(step, ss, Repeat(step, s, k).value.0)
    ensures ss[0] == s && ss[k] == Repeat(step, s, k).value.1
  {
    if k == 0 {
      ss := [s];
    } else {
      ss := RepeatTraced(step, s, k - 1);
      ss := ss + [Repeat(step, s, k).value.1];
    }
  }

  // ---------------------------------------------------------------- signed 64-bit reading

  /** A 64-bit accumulation read as a signed number. */
  function Wrap64(x: int): (y: int)
    ensures -TWO_TO_63 <= y < TWO_TO_63
  {
    var m := x % TWO_TO_64;
    if m >= TWO_TO_63 then m - TWO_TO_64 else m
  }

  /** Shifting a wrapped accumulator left by eight and or-ing an octet in equals wrapping the whole number. */
  lemma WrapShift(x: int, b: byte)
    ensures Wrap64(Wrap64(x) * 256) + b == Wrap64(x * 256 + b)
  {
    var k := (if x % TWO_TO_64 >= TWO_TO_63 then -1 else 0) - x / TWO_TO_64;
    assert Wrap64(x) == x + k * TWO_TO_64;
    WrapIsPeriodic(x * 256, k * 256);
    WrapLowOctet(x, b);
  }

  lemma WrapIsPeriodic(x: int, k: int)
    ensures Wrap64(x + k * TWO_TO_64) == Wrap64(x)
  {
    var q, m := x / TWO_TO_64, x % TWO_TO_64;
    assert x + k * TWO_TO_64 == (q + k) * TWO_TO_64 + m;
  }

  lemma WrapLowOctet(x: int, b: byte)
    ensures Wrap64(x * 256) + b == Wrap64(x * 256 + b)
  {
    var q, m := x / (TWO_TO_64 / 256), x % (TWO_TO_64 / 256);
    assert x * 256 == q * TWO_TO_64 + m * 256 && 0 <= m * 256 <= TWO_TO_64 - 256;
    assert (x * 256) % TWO_TO_64 == m * 256;
    assert (x * 256 + b) % TWO_TO_64 == m * 256 + b;
  }

  /** What the integer loop yields: at most eight octets, read big-endian into an int64, with no sign extension. */
  function Int64Of(bytes: seq<byte>): Result<int> {
    if |bytes| > 8 then Err(Malformed("out of range of int64")) else Ok(Wrap64(Number(bytes)))
  }
}
