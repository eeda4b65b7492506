/** Bit packing in CDR file headers: the two-field octets and the 32-bit timestamp of section 6.1.1 of TS 32.297. */
module CdrBits {
  import opened Bits
  import opened Octets

  type uint16 = x: int | 0 <= x < 0x1_0000
  type uint32 = x: int | 0 <= x < 0x1_0000_0000

  datatype TimeStamp = TimeStamp(
    month: byte, date: byte, hour: byte, minute: byte,
    sign: byte, hourDeviation: byte, minuteDeviation: byte)

  // ---------------------------------------------------------------- two fields in one octet

  /**
   * Three high bits and five low bits in an octet. The shift of a uint8 loses the high field's excess bits; the low
   * field is not masked, so its excess bits spill into the high one.
   */
  function Octet(high: byte, low: byte): (o: byte)
    ensures high < 8 && low < 32 ==> o == high * 32 + low
  {
    OctetFits(high % 8, low);
    Or(high % 8 * 32, low)
  }

  lemma OctetFits(q: nat, low: byte)
    requires q < 8
    ensures Or(q * 32, low) < 256
    ensures low < 32 ==> Or(q * 32, low) == q * 32 + low
  {
    Shifts(q);
    OrBound(q * 32, low, 8);
    assert Shl(1, 8) == 256;
    if low < 32 {
      assert Shl(1, 5) == 32;
      OrDisjoint(q, low, 5);
    }
  }

  /** The two fields come back exactly when they fit their bits. */
  lemma OctetRoundTrip(high: byte, low: byte)
    ensures (Octet(high, low) / 32, Octet(high, low) % 32) == (high, low) <==> high < 8 && low < 32
  {
    var o := Octet(high, low);
    OctetParts(o, high, low);
  }

  lemma OctetParts(o: byte, high: byte, low: byte)
    requires high < 8 && low < 32 ==> o == high * 32 + low
    ensures o / 32 == high && o % 32 == low <==> high < 8 && low < 32 && o == high * 32 + low
  {
  }

  lemma OctetIsCanonical(o: byte)
    ensures Octet(o / 32, o % 32) == o
  {
  }

  // ---------------------------------------------------------------- the timestamp

  /** One operand of the packing expression: a field converted to uint32 and shifted, losing what passes bit 31. */
  function Placed(field: byte, weight: nat): (p: uint32) {
    (field * weight) % 0x1_0000_0000
  }

  /** The first four operands, or-ed from the left: local month, date, hour and minute. */
  function PackLocal(t: TimeStamp): (ts: nat) {
    Or(Or(Or(Placed(t.month, 0x1000_0000), Placed(t.date, 0x80_0000)), Placed(t.hour, 0x4_0000)),
       Placed(t.minute, 0x1000))
  }

  /** The whole packing expression: the deviation from UTC is or-ed in after the local time. */
  function Pack(t: TimeStamp): (ts: uint32) {
    PackFits(t);
    Or(Or(Or(PackLocal(t), Placed(t.sign, 0x800)), Placed(t.hourDeviation, 0x40)), Placed(t.minuteDeviation, 1))
  }

  lemma PackFits(t: TimeStamp)
    ensures Or(Or(Or(PackLocal(t), Placed(t.sign, 0x800)), Placed(t.hourDeviation, 0x40)), Placed(t.minuteDeviation, 1))
            < 0x1_0000_0000
  {
    var a := PackLocal(t);
    LocalFits(t);
    var b := OrFits(a, Placed(t.sign, 0x800));
    var c := OrFits(b, Placed(t.hourDeviation, 0x40));
    var d := OrFits(c, Placed(t.minuteDeviation, 1));
  }

  lemma LocalFits(t: TimeStamp)
    ensures PackLocal(t) < 0x1_0000_0000
  {
    var b := OrFits(Placed(t.month, 0x1000_0000), Placed(t.date, 0x80_0000));
    var c := OrFits(b, Placed(t.hour, 0x4_0000));
    var d := OrFits(c, Placed(t.minute, 0x1000));
  }

  lemma OrFits(a: nat, b: nat) returns (c: nat)
    requires a < 0x1_0000_0000 && b < 0x1_0000_0000
    ensures c == Or(a, b) < 0x1_0000_0000
  {
    c := Or(a, b);
    assert Shl(1, 8) == 256;
    assert Shl(1, 16) == 0x1_0000;
    assert Shl(1, 24) == 0x100_0000;
    assert Shl(1, 32) == 0x1_0000_0000;
    OrBound(a, b, 32);
  }

  /** Shifts and masks of the reader. */
  function Unpack(ts: uint32): (t: TimeStamp) {
    TimeStamp(ts / 0x1000_0000, ts / 0x80_0000 % 32, ts / 0x4_0000 % 32, ts / 0x1000 % 64,
              ts / 0x800 % 2, ts / 0x40 % 32, ts % 64)
  }

  /** Each field fits its bits: 4, 5, 5, 6, 1, 5 and 6 of them. */
  predicate InRange(t: TimeStamp) {
    t.month < 16 && t.date < 32 && t.hour < 32 && t.minute < 64 && t.sign < 2 && t.hourDeviation < 32 &&
    t.minuteDeviation < 64
  }

  lemma LocalValue(t: TimeStamp)
    requires InRange(t)
    ensures PackLocal(t) == (((t.month * 32 + t.date) * 32 + t.hour) * 64 + t.minute) * 0x1000
  {
    var b := Joined(Placed(t.month, 0x1000_0000), t.month, t.date, 28, 23);
    var c := Joined(b, t.month * 32 + t.date, t.hour, 23, 18);
    var d := Joined(c, (t.month * 32 + t.date) * 32 + t.hour, t.minute, 18, 12);
  }

  /** The packed word is the fields' mixed-radix number, month first. */
  lemma PackedValue(t: TimeStamp)
    requires InRange(t)
    ensures Pack(t) == ((((((t.month * 32 + t.date) * 32 + t.hour) * 64 + t.minute) * 2 + t.sign) * 32
                        + t.hourDeviation) * 64 + t.minuteDeviation)
  {
    LocalValue(t);
    var q := ((t.month * 32 + t.date) * 32 + t.hour) * 64 + t.minute;
    var e := Joined(PackLocal(t), q, t.sign, 12, 11);
    var f := Joined(e, q * 2 + t.sign, t.hourDeviation, 11, 6);
    var g := Joined(f, (q * 2 + t.sign) * 32 + t.hourDeviation, t.minuteDeviation, 6, 0);
  }

  lemma Joined(acc: nat, q: nat, field: byte, k: nat, j: nat) returns (next: nat)
    requires acc == q * Weight(k) && field * Weight(j) < Weight(k) && k > 0
    ensures next == Or(acc, Placed(field, Weight(j))) == q * Weight(k) + field * Weight(j)
  {
    next := Or(acc, Placed(field, Weight(j)));
    OrField(q, Placed(field, Weight(j)), k);
  }

  function Weight(k: nat): (w: nat) {
    if k == 0 then 1 else if k == 6 then 0x40 else if k == 11 then 0x800 else if k == 12 then 0x1000
    else if k == 18 then 0x4_0000
    else if k == 23 then 0x80_0000 else 0x1000_0000
  }

  lemma OrField(q: nat, b: nat, k: nat)
    requires 0 < k && b < Weight(k)
    ensures Or(q * Weight(k), b) == q * Weight(k) + b
  {
    Shifts(1);
    Shifts(q);
    OrDisjoint(q, b, if Weight(k) == 0x1000_0000 then 28 else k);
  }

  /** A timestamp comes back from its packing exactly when every field fits its bits. */
  lemma TimeStampRoundTrip(t: TimeStamp)
    ensures Unpack(Pack(t)) == t <==> InRange(t)
  {
    if InRange(t) {
      PackedValue(t);
      var e := t.month * 32 + t.date;
      var d := e * 32 + t.hour;
      var c := d * 64 + t.minute;
      var b := c * 2 + t.sign;
      var a := b * 32 + t.hourDeviation;
      Levels(Pack(t), a, b, c, d, e);
    }
  }

  /** Dropping the low 6, 11, 12, 18, 23 and 28 bits, one field after the other. */
  lemma Levels(ts: nat, a: nat, b: nat, c: nat, d: nat, e: nat)
    requires a == ts / 64 && b == a / 32 && c == b / 2 && d == c / 64 && e == d / 32
    ensures ts / 0x40 == a && ts / 0x800 == b && ts / 0x1000 == c && ts / 0x4_0000 == d && ts / 0x80_0000 == e
    ensures ts / 0x1000_0000 == e / 32
  {
  }

  /** Packing what was unpacked reproduces the 32-bit word: with the round trip, a bijection. */
  lemma TimeStampIsCanonical(ts: uint32)
    ensures InRange(Unpack(ts)) && Pack(Unpack(ts)) == ts
  {
    PackedValue(Unpack(ts));
    Levels(ts, ts / 64, ts / 64 / 32, ts / 64 / 32 / 2, ts / 64 / 32 / 2 / 64, ts / 64 / 32 / 2 / 64 / 32);
  }
}
