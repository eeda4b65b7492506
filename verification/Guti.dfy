/** The 5G-GUTI an AMF allocates, and finding its UE again by the 5G-S-TMSI (sections 2.10 and 2.11 of TS 23.003). */
module Guti {
  import opened Bits
  import opened Octets
  import opened Walks

  // ---------------------------------------------------------------- hexadecimal strings

  /** Lower-case hexadecimal digit. */
  function HexDigit(d: nat): (c: char)
    requires d < 16
  {
    if d < 10 then '0' + d as char else 'a' + (d - 10) as char
  }

  predicate IsLowerHex(c: char) {
    '0' <= c <= '9' || 'a' <= c <= 'f'
  }

  predicate IsHex(c: char) {
    IsLowerHex(c) || 'A' <= c <= 'F'
  }

  function HexValue(c: char): (d: nat)
    requires IsHex(c)
    ensures d < 16 && (HexDigit(d) == c <==> IsLowerHex(c))
  {
    if '0' <= c <= '9' then (c - '0') as nat
    else if 'a' <= c <= 'f' then (c - 'a') as nat + 10
    else (c - 'A') as nat + 10
  }

  /** `hex.EncodeToString`. */
  function Hex(s: seq<byte>): (h: string)
    ensures |h| == 2 * |s|
  {
    if s == [] then "" else Hex(s[..|s| - 1]) + [HexDigit(s[|s| - 1] / 16), HexDigit(s[|s| - 1] % 16)]
  }

  lemma {:induction false} HexAt(s: seq<byte>, i: nat)
    requires i < |s|
    ensures Hex(s)[2 * i] == HexDigit(s[i] / 16) && Hex(s)[2 * i + 1] == HexDigit(s[i] % 16)
  {
    var front := s[..|s| - 1];
    if i < |front| {
      HexAt(front, i);
      assert Hex(s)[..2 * |front|] == Hex(front);
    }
  }

  /** The digits of a natural number in base 16, without leading zeros. */
  function HexDigits(n: nat): (h: string)
    ensures h != []
  {
    if n < 16 then [HexDigit(n)] else HexDigits(n / 16) + [HexDigit(n % 16)]
  }

  function Zeros(k: nat): (z: string)
    ensures |z| == k && forall i :: 0 <= i < k ==> z[i] == '0'
  {
    seq(k, _ => '0')
  }

  /** `"%08x"`: a sign counts towards the width of eight, and zeros fill the rest. */
  function Format08x(x: int): (h: string) {
    var sign := if x < 0 then "-" else "";
    var digits := HexDigits(if x < 0 then -x else x);
    sign + Zeros(if |sign| + |digits| < 8 then 8 - |sign| - |digits| else 0) + digits
  }

  /** The low `k` digits of a number. */
  function LowDigits(n: nat, k: nat): (h: string)
    ensures |h| == k
  {
    if k == 0 then "" else LowDigits(n / 16, k - 1) + [HexDigit(n % 16)]
  }

  lemma {:induction false} LowDigitsOfZero(k: nat)
    ensures LowDigits(0, k) == Zeros(k)
  {
    if k > 0 {
      LowDigitsOfZero(k - 1);
    }
  }

  function Pow16(k: nat): (p: int)
    ensures p >= 1
  {
    if k == 0 then 1 else 16 * Pow16(k - 1)
  }

  lemma {:induction false} PaddedIsLow(n: nat, k: nat)
    requires k >= 1 && n < Pow16(k)
    ensures |HexDigits(n)| <= k && Zeros(k - |HexDigits(n)|) + HexDigits(n) == LowDigits(n, k)
  {
    if n < 16 {
      LowDigitsOfZero(k - 1);
      assert LowDigits(n, k) == LowDigits(0, k - 1) + [HexDigit(n)];
    } else {
      assert k >= 2 by {
        assert Pow16(1) == 16 * Pow16(0);
      }
      PaddedIsLow(n / 16, k - 1);
      var front := HexDigits(n / 16);
      assert Zeros(k - |HexDigits(n)|) == Zeros(k - 1 - |front|);
    }
  }

  lemma TwoLowDigits(n: nat, k: nat)
    ensures LowDigits(n, k + 2) == LowDigits(n / 256, k) + [HexDigit(n % 256 / 16), HexDigit(n % 256 % 16)]
  {
    assert LowDigits(n, k + 2) == LowDigits(n / 16, k + 1) + [HexDigit(n % 16)];
    assert LowDigits(n / 16, k + 1) == LowDigits(n / 16 / 16, k) + [HexDigit(n / 16 % 16)];
    Nibbles(n);
  }

  lemma HexOfSnoc(s: seq<byte>, b: byte)
    ensures Hex(s + [b]) == Hex(s) + [HexDigit(b / 16), HexDigit(b % 16)]
  {
    assert (s + [b])[..|s|] == s;
  }

  lemma LowIsHexOn(n: nat, j: nat, front: seq<byte>)
    requires LowDigits(n / 256, j) == Hex(front)
    ensures LowDigits(n, j + 2) == Hex(front + [n % 256])
  {
    TwoLowDigits(n, j);
    HexOfSnoc(front, n % 256);
  }

  lemma {:induction false} LowIsHex(n: nat, k: nat, digits: nat)
    requires digits == 2 * k
    ensures LowDigits(n, digits) == Hex(BigEndian(n, k))
    decreases k
  {
    if k > 0 {
      LowIsHex(n / 256, k - 1, digits - 2);
      LowIsHexOn(n, digits - 2, BigEndian(n / 256, k - 1));
    }
  }

  lemma Nibbles(n: nat)
    ensures n / 16 / 16 == n / 256 && n % 256 / 16 == n / 16 % 16 && n % 256 % 16 == n % 16
  {
  }

  /** A TMSI of 32 bits is formatted as the octets of its 5G-TMSI are encoded. */
  lemma TmsiAsOctets(t: nat)
    requires t < 0x1_0000_0000
    ensures Format08x(t) == Hex(BigEndian(t, 4))
  {
    assert Pow16(2) == 256;
    assert Pow16(4) == 0x1_0000;
    assert Pow16(6) == 0x100_0000;
    assert Pow16(8) == 0x1_0000_0000;
    PaddedIsLow(t, 8);
    LowIsHex(t, 4, 8);
  }

  // ---------------------------------------------------------------- the AMF identifier

  /** Three octets in hexadecimal, in either case: what the configuration admits. */
  predicate IsAmfId(s: string) {
    |s| == 6 && forall i :: 0 <= i < 6 ==> IsHex(s[i])
  }

  /** The octet two hexadecimal digits denote. */
  function Octet(c: char, d: char): (b: byte)
    requires IsHex(c) && IsHex(d)
  {
    HexValue(c) * 16 + HexValue(d)
  }

  function AmfIdOctets(amfId: string): (s: seq<byte>)
    requires IsAmfId(amfId)
    ensures |s| == 3
  {
    [Octet(amfId[0], amfId[1]), Octet(amfId[2], amfId[3]), Octet(amfId[4], amfId[5])]
  }

  predicate IsLowerCase(s: string) {
    forall i :: 0 <= i < |s| ==> IsLowerHex(s[i])
  }

  lemma OctetDigits(c: char, d: char)
    requires IsHex(c) && IsHex(d)
    ensures HexDigit(Octet(c, d) / 16) == c <==> IsLowerHex(c)
    ensures HexDigit(Octet(c, d) % 16) == d <==> IsLowerHex(d)
  {
    NibblesOf(HexValue(c), HexValue(d));
  }

  lemma HexOfThree(s: seq<byte>)
    requires |s| == 3
    ensures Hex(s) == [HexDigit(s[0] / 16), HexDigit(s[0] % 16), HexDigit(s[1] / 16), HexDigit(s[1] % 16),
                       HexDigit(s[2] / 16), HexDigit(s[2] % 16)]
  {
    HexAt(s, 0);
    HexAt(s, 1);
    HexAt(s, 2);
  }

  /** Decoding and encoding again gives the same text exactly when it was in lower case. */
  lemma AmfIdEncodesBack(amfId: string)
    requires IsAmfId(amfId)
    ensures Hex(AmfIdOctets(amfId)) == amfId <==> IsLowerCase(amfId)
  {
    OctetDigits(amfId[0], amfId[1]);
    OctetDigits(amfId[2], amfId[3]);
    OctetDigits(amfId[4], amfId[5]);
    HexOfThree(AmfIdOctets(amfId));
    SixCharacters(Hex(AmfIdOctets(amfId)), amfId);
    LowerSix(amfId);
  }

  lemma LowerSix(s: string)
    requires |s| == 6
    ensures IsLowerCase(s) <==> IsLowerHex(s[0]) && IsLowerHex(s[1]) && IsLowerHex(s[2]) &&
                                IsLowerHex(s[3]) && IsLowerHex(s[4]) && IsLowerHex(s[5])
  {
  }

  lemma SixCharacters(h: string, g: string)
    requires |h| == 6 && |g| == 6
    ensures h == g <==> h[0] == g[0] && h[1] == g[1] && h[2] == g[2] && h[3] == g[3] && h[4] == g[4] && h[5] == g[5]
  {
  }

  lemma NibblesOf(a: nat, b: nat)
    requires a < 16 && b < 16
    ensures (a * 16 + b) / 16 == a && (a * 16 + b) % 16 == b
  {
  }

  // ---------------------------------------------------------------- the key rebuilt from a 5G-S-TMSI

  /** A 5G-S-TMSI as NGAP carries it: AMF Set ID of 10 bits, AMF Pointer of 6, 5G-TMSI of four octets. */
  datatype FiveGSTmsi = FiveGSTmsi(setId: seq<byte>, pointer: seq<byte>, tmsi: seq<byte>)

  predicate IsFiveGSTmsi(x: FiveGSTmsi) {
    |x.setId| == 2 && |x.pointer| == 1 && |x.tmsi| == 4
  }

  /**
   * The 5G-S-TMSI names this AMF and TMSI: Region, Set and Pointer are 8, 10 and 6 bits of the AMF ID, from the left;
   * the bits that pad Set and Pointer to octets may be anything.
   */
  predicate Names(x: FiveGSTmsi, amfId: string, t: nat)
    requires IsFiveGSTmsi(x) && IsAmfId(amfId)
  {
    && x.setId[0] == AmfIdOctets(amfId)[1] && x.setId[1] / 64 == AmfIdOctets(amfId)[2] / 64
    && x.pointer[0] / 4 == AmfIdOctets(amfId)[2] % 64
    && x.tmsi == BigEndian(t, 4)
  }

  /** `setId[1] & 0xc0 | pointer[0] >> 2`. */
  function SetAndPointer(set1: byte, pointer: byte): (b: byte)
    ensures b == set1 / 64 * 64 + pointer / 4
  {
    JoinBits(set1 / 64, pointer / 4);
    Or(set1 / 64 * 64, pointer / 4)
  }

  lemma JoinBits(q: nat, b: nat)
    requires b < 64
    ensures Or(q * 64, b) == q * 64 + b
  {
    Shifts(q);
    Shifts(1);
    OrDisjoint(q, b, 6);
  }

  /** The key `findAmfUe` looks for. */
  function Key(plmn: string, amfId: string, x: FiveGSTmsi): (key: string)
    requires IsFiveGSTmsi(x) && IsAmfId(amfId)
  {
    plmn + Hex([AmfIdOctets(amfId)[0]]) + (Hex([x.setId[0], SetAndPointer(x.setId[1], x.pointer[0])]) + Hex(x.tmsi))
  }

  /** `AllocateGutiToUe`, given the TMSI. */
  function Allocated(plmn: string, amfId: string, t: int): (guti: string) {
    plmn + amfId + Format08x(t)
  }

  lemma {:induction false} HexOfAppend(s: seq<byte>, t: seq<byte>)
    ensures Hex(s + t) == Hex(s) + Hex(t)
  {
    if t == [] {
      assert s + t == s;
    } else {
      HexOfAppend(s, t[..|t| - 1]);
      assert (s + t)[..|s + t| - 1] == s + t[..|t| - 1];
    }
  }

  /** PLMN, AMF ID and TMSI, in this order, the TMSI in eight digits, most significant first. */
  lemma GutiText()
    ensures Allocated("20893", "cafe00", 0x1a2b) == "20893cafe0000001a2b"
  {
    assert HexDigits(0x1) == "1" && HexDigits(0x1a) == "1a" && HexDigits(0x1a2) == "1a2" && HexDigits(0x1a2b) == "1a2b";
    assert Format08x(0x1a2b) == Zeros(4) + "1a2b" == "00001a2b";
    assert "20893" + "cafe00" + "00001a2b" == "20893cafe0000001a2b";
  }

  /** The key rebuilt from a UE's own 5G-S-TMSI is its GUTI exactly when the AMF ID is configured in lower case. */
  lemma KeyIsGuti(plmn: string, amfId: string, x: FiveGSTmsi, t: nat)
    requires IsAmfId(amfId) && t < 0x8000_0000 && IsFiveGSTmsi(x) && Names(x, amfId, t)
    ensures Key(plmn, amfId, x) == Allocated(plmn, amfId, t) <==> IsLowerCase(amfId)
  {
    var b := AmfIdOctets(amfId);
    TmsiAsOctets(t);
    assert SetAndPointer(x.setId[1], x.pointer[0]) == b[2];
    HexOfAppend([b[0]], [b[1], b[2]]);
    assert [b[0]] + [b[1], b[2]] == b;
    AmfIdEncodesBack(amfId);
    KeyParts(plmn, Hex([b[0]]), Hex([b[1], b[2]]), amfId, Hex(x.tmsi));
  }

  lemma KeyParts(plmn: string, a: string, b: string, amfId: string, t: string)
    requires |a| + |b| == |amfId|
    ensures plmn + a + (b + t) == plmn + amfId + t <==> a + b == amfId
  {
    var k, g := plmn + a + (b + t), plmn + amfId + t;
    assert k[|plmn|..|plmn| + |amfId|] == a + b;
    assert g[|plmn|..|plmn| + |amfId|] == amfId;
    assert k == plmn + (a + b) + t;
  }

  // ---------------------------------------------------------------- the lookup

  /** A UE of the pool: its TMSI and its GUTI. */
  datatype PoolUe = PoolUe(tmsi: int, guti: string)

  /** The UE got a TMSI of the generator's range. */
  predicate HasTmsi(ue: PoolUe) {
    0 < ue.tmsi < 0x8000_0000
  }

  /** Every GUTI was allocated here, from a TMSI of the generator's range or from its failure value, and no two UEs
      share such a TMSI. */
  predicate Built(pool: map<string, PoolUe>, plmn: string, amfId: string) {
    && (forall s :: s in pool ==> (HasTmsi(pool[s]) || pool[s].tmsi == -1)
                                  && pool[s].guti == Allocated(plmn, amfId, pool[s].tmsi))
    && (forall s, r :: s in pool && r in pool && s != r && HasTmsi(pool[s]) ==> pool[s].tmsi != pool[r].tmsi)
  }

  /** The 5G-S-TMSI names this AMF and the TMSI of the UE. */
  predicate NamesUe(x: FiveGSTmsi, amfId: string, ue: PoolUe)
    requires IsFiveGSTmsi(x) && IsAmfId(amfId)
  {
    HasTmsi(ue) && Names(x, amfId, ue.tmsi)
  }

  /** `AmfUeFindByGuti`: the pool is ranged over in no particular order; the result is the UE's SUPI, if any. */
  method FindByGuti(pool: map<string, PoolUe>, guti: string) returns (found: bool, supi: string)
    ensures found ==> supi in pool && pool[supi].guti == guti
    ensures !found ==> forall s :: s in pool ==> pool[s].guti != guti
  {
    var keys := pool.Keys;
    while keys != {}
      invariant keys <= pool.Keys
      invariant forall s :: s in pool && s !in keys ==> pool[s].guti != guti
      decreases |keys|
    {
      var s, rest := Next(keys);
      if pool[s].guti == guti {
        return true, s;
      }
      keys := rest;
    }
    found, supi := false, "";
  }

  lemma SameOctet(a: byte, b: byte)
    requires HexDigit(a / 16) == HexDigit(b / 16) && HexDigit(a % 16) == HexDigit(b % 16)
    ensures a == b
  {
  }

  lemma HexIsInjective(s: seq<byte>, t: seq<byte>)
    requires |s| == |t| && Hex(s) == Hex(t)
    ensures s == t
  {
    forall i | 0 <= i < |s| ensures s[i] == t[i] {
      HexAt(s, i);
      HexAt(t, i);
      SameOctet(s[i], t[i]);
    }
  }

  lemma AllocatedIsInjective(plmn: string, amfId: string, t: nat, u: nat)
    requires t < 0x8000_0000 && u < 0x8000_0000 && Allocated(plmn, amfId, t) == Allocated(plmn, amfId, u)
    ensures t == u
  {
    var n := |plmn + amfId|;
    assert Allocated(plmn, amfId, t)[n..] == Format08x(t) && Allocated(plmn, amfId, u)[n..] == Format08x(u);
    TmsiAsOctets(t);
    TmsiAsOctets(u);
    HexIsInjective(BigEndian(t, 4), BigEndian(u, 4));
    PowersOf256();
    NumberOfBigEndian(t, 4);
    NumberOfBigEndian(u, 4);
  }

  lemma Together(plmn: string, a: string, t: string, amfId: string, u: string)
    requires |a| == |amfId|
    ensures plmn + a + t == plmn + amfId + u <==> a == amfId && t == u
  {
    var k, g, n := plmn + a + t, plmn + amfId + u, |plmn| + |a|;
    assert k[|plmn|..n] == a && g[|plmn|..n] == amfId && k[n..] == t && g[n..] == u;
  }

  /** The key rebuilt from a 5G-S-TMSI is the GUTI of a TMSI exactly when it names that TMSI of this AMF and the AMF
      ID is in lower case. */
  lemma KeyMatches(plmn: string, amfId: string, x: FiveGSTmsi, t: nat)
    requires IsAmfId(amfId) && t < 0x8000_0000 && IsFiveGSTmsi(x)
    ensures Key(plmn, amfId, x) == Allocated(plmn, amfId, t) <==> IsLowerCase(amfId) && Names(x, amfId, t)
  {
    if !IsLowerCase(amfId) {
      KeyNeverMatches(plmn, amfId, x, t);
    } else if Names(x, amfId, t) {
      KeyIsGuti(plmn, amfId, x, t);
    } else if Key(plmn, amfId, x) == Allocated(plmn, amfId, t) {
      KeyNames(plmn, amfId, x, t);
      assert false;
    }
  }

  lemma KeyNames(plmn: string, amfId: string, x: FiveGSTmsi, t: nat)
    requires IsAmfId(amfId) && IsLowerCase(amfId) && t < 0x8000_0000 && IsFiveGSTmsi(x)
    requires Key(plmn, amfId, x) == Allocated(plmn, amfId, t)
    ensures Names(x, amfId, t)
  {
    var b, sp := AmfIdOctets(amfId), SetAndPointer(x.setId[1], x.pointer[0]);
    var key := [b[0]] + [x.setId[0], sp];
    HexOfAppend([b[0]], [x.setId[0], sp]);
    assert Key(plmn, amfId, x) == plmn + Hex(key) + Hex(x.tmsi);
    Together(plmn, Hex(key), Hex(x.tmsi), amfId, Format08x(t));
    AmfIdEncodesBack(amfId);
    HexIsInjective(key, b);
    assert key[1] == b[1] && key[2] == b[2];
    TmsiAsOctets(t);
    HexIsInjective(x.tmsi, BigEndian(t, 4));
  }

  /**
   * `findAmfUe` by 5G-S-TMSI: with the AMF ID in lower case it finds a UE exactly when the 5G-S-TMSI names this AMF and
   * the TMSI of one of the pool, and then that one; with any upper-case letter it finds none.
   */
  method FindByFiveGSTmsi(pool: map<string, PoolUe>, plmn: string, amfId: string, x: FiveGSTmsi)
    returns (found: bool, supi: string)
    requires IsAmfId(amfId) && IsFiveGSTmsi(x) && Built(pool, plmn, amfId)
    ensures found <==> IsLowerCase(amfId) && exists s :: s in pool && NamesUe(x, amfId, pool[s])
    ensures found ==> supi in pool && forall s :: s in pool && NamesUe(x, amfId, pool[s]) <==> s == supi
  {
    var key := Key(plmn, amfId, x);
    found, supi := FindByGuti(pool, key);
    forall s | s in pool ensures pool[s].guti == key <==> IsLowerCase(amfId) && NamesUe(x, amfId, pool[s]) {
      if HasTmsi(pool[s]) {
        KeyMatches(plmn, amfId, x, pool[s].tmsi);
      } else {
        FailedAllocationIsLost(plmn, amfId, x);
      }
    }
    forall s, r | s in pool && r in pool && pool[s].guti == key && pool[r].guti == key ensures s == r {
      AllocatedIsInjective(plmn, amfId, pool[s].tmsi, pool[r].tmsi);
    }
  }

  /** With an upper-case letter in the AMF ID, no 5G-S-TMSI for it rebuilds any GUTI. */
  lemma KeyNeverMatches(plmn: string, amfId: string, x: FiveGSTmsi, t: nat)
    requires IsAmfId(amfId) && !IsLowerCase(amfId) && IsFiveGSTmsi(x) && t < 0x8000_0000
    ensures Key(plmn, amfId, x) != Allocated(plmn, amfId, t)
  {
    var i :| 0 <= i < |amfId| && !IsLowerHex(amfId[i]);
    var h := Hex([AmfIdOctets(amfId)[0]]) + Hex([x.setId[0], SetAndPointer(x.setId[1], x.pointer[0])]);
    TmsiAsOctets(t);
    HexOfAppend([AmfIdOctets(amfId)[0]], [x.setId[0], SetAndPointer(x.setId[1], x.pointer[0])]);
    HexIsLower([AmfIdOctets(amfId)[0]] + [x.setId[0], SetAndPointer(x.setId[1], x.pointer[0])], i);
    assert Key(plmn, amfId, x)[|plmn| + i] == h[i];
    assert Allocated(plmn, amfId, t)[|plmn| + i] == amfId[i];
  }

  lemma HexIsLower(s: seq<byte>, i: nat)
    requires i < 2 * |s|
    ensures IsLowerHex(Hex(s)[i])
  {
    assert i == 2 * (i / 2) || i == 2 * (i / 2) + 1;
    HexAt(s, i / 2);
  }

  /** The allocator's failure value is formatted with its sign, and no 5G-S-TMSI rebuilds the GUTI made of it. */
  lemma FailedAllocationIsLost(plmn: string, amfId: string, x: FiveGSTmsi)
    requires IsAmfId(amfId) && IsFiveGSTmsi(x)
    ensures Format08x(-1) == "-0000001"
    ensures Key(plmn, amfId, x) != Allocated(plmn, amfId, -1)
  {
    assert HexDigits(1) == "1";
    assert Format08x(-1) == "-" + Zeros(6) + "1";
    var n := |plmn| + 6;
    assert Allocated(plmn, amfId, -1)[n] == '-';
    HexIsLower(x.tmsi, 0);
    assert Key(plmn, amfId, x)[n] == Hex(x.tmsi)[0];
  }
}
