/** The operators `&`, `|` and `^` on unsigned numbers, digit by binary digit, and when they are arithmetic. */
module UtfBits {
  function And(a: nat, b: nat): (r: nat) {
    if a == 0 then 0 else And(a / 2, b / 2) * 2 + if a % 2 == 1 && b % 2 == 1 then 1 else 0
  }

  function Or(a: nat, b: nat): (r: nat)
    decreases a + b
  {
    if a == 0 && b == 0 then 0 else Or(a / 2, b / 2) * 2 + if a % 2 + b % 2 == 0 then 0 else 1
  }

  function Xor(a: nat, b: nat): (r: nat)
    decreases a + b
  {
    if a == 0 && b == 0 then 0 else Xor(a / 2, b / 2) * 2 + (a % 2 + b % 2) % 2
  }

  function Power(k: nat): (n: nat)
    ensures n >= 1
  {
    if k == 0 then 1 else 2 * Power(k - 1)
  }

  lemma Powers()
    ensures Power(3) == 0x08 && Power(4) == 0x10 && Power(5) == 0x20 && Power(6) == 0x40 && Power(7) == 0x80
    ensures Power(10) == 0x400
  {
    assert Power(5) == 2 * Power(4) && Power(6) == 2 * Power(5) && Power(7) == 2 * Power(6);
    assert Power(8) == 2 * Power(7) && Power(9) == 2 * Power(8) && Power(10) == 2 * Power(9);
  }

  lemma Halves(v: nat, p: nat)
    requires p >= 1
    ensures v % (2 * p) == v / 2 % p * 2 + v % 2 && (v % (2 * p)) / 2 == v / 2 % p
    ensures v / (2 * p) == v / 2 / p
    ensures (2 * p - 1) / 2 == p - 1 && (2 * p - 1) % 2 == 1
  {
    var q, r := v / 2 / p, v / 2 % p;
    assert v == 2 * (q * p + r) + v % 2;
    assert v == q * (2 * p) + (2 * r + v % 2);
    Quotient(v, 2 * p, q, 2 * r + v % 2);
  }

  lemma Quotient(v: nat, d: nat, q: nat, r: nat)
    requires d > 0 && v == q * d + r && r < d
    ensures v / d == q && v % d == r
  {
    var e := v / d - q;
    assert e * d == r - v % d;
    assert e > 0 ==> e * d >= d;
    assert e < 0 ==> e * d <= 0 - d;
  }

  lemma AndStep(a: nat, b: nat)
    ensures And(a, b) == And(a / 2, b / 2) * 2 + if a % 2 == 1 && b % 2 == 1 then 1 else 0
  {
  }

  /** The k low bits of a number. */
  function Low(v: nat, k: nat): (r: nat) { if k == 0 then 0 else Low(v / 2, k - 1) * 2 + v % 2 }

  lemma {:induction false} LowIsRemainder(v: nat, k: nat)
    ensures Low(v, k) == v % Power(k)
  {
    if k > 0 {
      Halves(v, Power(k - 1));
      LowIsRemainder(v / 2, k - 1);
    }
  }

  lemma {:induction false} AndIsLow(v: nat, k: nat)
    ensures And(v, Power(k) - 1) == Low(v, k)
  {
    if k == 0 {
      AndZero(v);
    } else {
      hide And, Power;
      PowerStep(k - 1);
      AndStep(v, Power(k) - 1);
      AndIsLow(v / 2, k - 1);
    }
  }

  /** Masking the low bits is taking the remainder. */
  lemma AndMask(v: nat, k: nat)
    ensures And(v, Power(k) - 1) == v % Power(k)
  {
    hide And, Low, Power;
    AndIsLow(v, k);
    LowIsRemainder(v, k);
  }

  lemma {:induction false} AndZero(v: nat)
    ensures And(v, 0) == 0
  {
    if v != 0 { AndZero(v / 2); }
  }

  lemma Even(h: nat)
    ensures 2 * h / 2 == h && 2 * h % 2 == 0
  {
  }

  lemma Doubled(v: nat, q: nat)
    ensures v < 2 * (2 * q) <==> v / 2 < 2 * q
    ensures v >= 2 * q <==> v / 2 >= q
    ensures v == v / 2 * 2 + v % 2
  {
  }

  lemma OrStep(a: nat, b: nat)
    ensures Or(a, b) == Or(a / 2, b / 2) * 2 + if a % 2 + b % 2 == 0 then 0 else 1
  {
  }

  /** Or-ing numbers that share no bit is adding them. */
  lemma {:induction false} OrIsSum(high: nat, low: nat, k: nat)
    requires low < Power(k)
    ensures Or(high * Power(k), low) == high * Power(k) + low
  {
    if k == 0 {
      OrZero(high);
    } else {
      var p := Power(k - 1);
      assert high * (2 * p) == 2 * (high * p);
      Even(high * p);
      OrStep(2 * (high * p), low);
      hide Or, Power;
      OrIsSum(high, low / 2, k - 1);
    }
  }

  lemma {:induction false} OrZero(v: nat)
    ensures Or(v, 0) == v
  {
    if v != 0 { OrZero(v / 2); }
  }

  lemma XorStep(a: nat, b: nat)
    ensures Xor(a, b) == Xor(a / 2, b / 2) * 2 + (a % 2 + b % 2) % 2
  {
  }

  lemma XorOne()
    ensures Power(0) == 1 && Xor(0, 1) == 1 && Xor(1, 1) == 0
  {
    assert Xor(0, 0) == 0;
  }

  /** Flipping bit k of a number below the next power. */
  lemma {:induction false} XorTop(v: nat, k: nat)
    requires v < Power(k + 1)
    ensures Xor(v, Power(k)) == if v >= Power(k) then v - Power(k) else v + Power(k)
  {
    hide Xor, Power;
    PowerStep(k);
    if k == 0 {
      XorOne();
    } else {
      var q := Power(k - 1);
      PowerStep(k - 1);
      XorStep(v, 2 * q);
      Even(q);
      Doubled(v, q);
      XorTop(v / 2, k - 1);
    }
  }

  // ---------------------------------------------------------------- the masks and marks of the codec

  /** The masks `& 0x07` to `& 0x7F` and `& 0x3FF` */
  lemma Masks(v: nat)
    ensures And(v, 0x07) == v % 0x08 && And(v, 0x0F) == v % 0x10 && And(v, 0x1F) == v % 0x20
    ensures And(v, 0x3F) == v % 0x40 && And(v, 0x7F) == v % 0x80 && And(v, 0x3FF) == v % 0x400
  {
    hide And, Power;
    Powers();
    AndMask(v, 3);
    AndMask(v, 4);
    AndMask(v, 5);
    AndMask(v, 6);
    AndMask(v, 7);
    AndMask(v, 10);
  }

  /** The marks of lead and trail bytes and of surrogates, and six bits joined to what stands above them. */
  lemma Marks(v: nat)
    ensures v < 0x40 ==> Or(0x80, v) == 0x80 + v && forall high: nat :: Or(high * 64, v) == high * 64 + v
    ensures v < 0x20 ==> Or(0xC0, v) == 0xC0 + v
    ensures v < 0x10 ==> Or(0xE0, v) == 0xE0 + v
    ensures v < 0x08 ==> Or(0xF0, v) == 0xF0 + v
    ensures v < 0x400 ==> Or(0xD800, v) == 0xD800 + v && Or(0xDC00, v) == 0xDC00 + v
  {
    hide Or, Power;
    Powers();
    if v < 0x40 {
      OrIsSum(2, v, 6);
      forall high: nat ensures Or(high * 64, v) == high * 64 + v { OrIsSum(high, v, 6); }
    }
    if v < 0x20 { OrIsSum(6, v, 5); }
    if v < 0x10 { OrIsSum(14, v, 4); }
    if v < 0x08 { OrIsSum(30, v, 3); }
    if v < 0x400 {
      OrIsSum(54, v, 10);
      OrIsSum(55, v, 10);
    }
  }

  lemma FlipsTopBit(b: nat)
    requires b < 0x100
    ensures Xor(b, 0x80) == if b >= 0x80 then b - 0x80 else b + 0x80
  {
    hide Xor, Power;
    Powers();
    assert Power(8) == 2 * Power(7) by { PowerStep(7); }
    XorTop(b, 7);
  }

  lemma PowerStep(k: nat)
    ensures Power(k + 1) == 2 * Power(k)
  {
  }
}
