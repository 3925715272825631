/**
 * `create_step_str`, which builds the time part of a checkpoint file name:
 * the time in thousandths is written in decimal, left-padded with '0' to the
 * length of the previous name part `tnow`, and the first seven characters
 * of the two strings are then added digit by digit, with no carry.
 *
 * Characters are bytes.  The C++ code stores each sum back into a `char`, so
 * a sum is kept modulo 256.
 */
module StepString {

  type Byte = b: int | 0 <= b < 256

  const Zero: Byte := 48
  const Minus: Byte := 45

  predicate IsDigit(c: Byte)
  {
    Zero <= c <= Zero + 9
  }

  predicate AllDigits(s: seq<Byte>)
  {
    forall i :: 0 <= i < |s| ==> IsDigit(s[i])
  }

  function Pow10(k: nat): (r: nat)
    ensures r >= 1
  {
    if k == 0 then 1 else 10 * Pow10(k - 1)
  }

  /** The number a string of decimal digits denotes, most significant first. */
  function Value(s: seq<Byte>): nat
    requires AllDigits(s)
  {
    if |s| == 0 then 0 else Value(s[..|s| - 1]) * 10 + (s[|s| - 1] - Zero) as nat
  }

  /** The decimal digits of n, without leading zeros. */
  function Digits(n: nat): (s: seq<Byte>)
    ensures 1 <= |s| && AllDigits(s)
    ensures |s| > 1 ==> s[0] != Zero
    ensures Value(s) == n
  {
    if n < 10 then [Zero + n as Byte]
    else
      var s := Digits(n / 10) + [Zero + (n % 10) as Byte];
      assert s[..|s| - 1] == Digits(n / 10);
      s
  }

  /** `std::to_string` on an integer: a '-' before the digits of a negative value. */
  function ToString(n: int): (s: seq<Byte>)
    ensures 1 <= |s|
    ensures n >= 0 ==> AllDigits(s) && Value(s) == n
    ensures n < 0 ==> s[0] == Minus && AllDigits(s[1..]) && Value(s[1..]) == -n
  {
    if n < 0 then [Minus] + Digits(-n) else Digits(n)
  }

  function Zeros(k: nat): (s: seq<Byte>)
    ensures |s| == k && AllDigits(s)
    ensures forall i :: 0 <= i < k ==> s[i] == Zero
  {
    seq(k, _ => Zero)
  }

  /** `to_string(n)` with zeros inserted in front until it is `width` long. */
  function Padded(n: int, width: nat): (s: seq<Byte>)
    ensures |s| == if |ToString(n)| < width then width else |ToString(n)|
  {
    var t := ToString(n);
    if |t| < width then Zeros(width - |t|) + t else t
  }

  /** One character of the digit-wise sum, as the C++ code stores it in a `char`:
      two digits whose sum stays below ten give the digit of that sum. */
  function AddChars(a: Byte, b: Byte): (c: Byte)
    ensures c == (a + b - Zero) % 256  // the sum wraps like a byte-wide `char`
    ensures IsDigit(a) && IsDigit(b) && (a - Zero) + (b - Zero) <= 9 ==>
      IsDigit(c) && c - Zero == (a - Zero) + (b - Zero)
  {
    ((a as int - Zero) + (b as int - Zero) + Zero) % 256
  }

  /** The name part `create_step_str` returns. */
  function StepName(n: int, tnow: seq<Byte>): (s: seq<Byte>)
    requires |tnow| >= 7
    ensures |s| == |Padded(n, |tnow|)| && |s| >= 7
  {
    var pad := Padded(n, |tnow|);
    seq(|pad|, i requires 0 <= i < |pad| => if i < 7 then AddChars(tnow[i], pad[i]) else pad[i])
  }

  /**
   * `create_step_str` with the rounded time n = round(1000 t) as input:
   * pads, then overwrites the first seven characters in place.
   */
  method CreateStepStr(n: int, tnow: seq<Byte>) returns (s: seq<Byte>)
    requires |tnow| >= 7
    ensures s == StepName(n, tnow)
  {
    s := ToString(n);
    if |s| < |tnow| {
      var numZeros := |tnow| - |s|;
      s := Zeros(numZeros) + s;
    }
    var i := 0;
    while i < 7
      invariant 0 <= i <= 7 && |s| == |Padded(n, |tnow|)|
      invariant forall k :: 0 <= k < i ==> s[k] == AddChars(tnow[k], Padded(n, |tnow|)[k])
      invariant forall k :: i <= k < |s| ==> s[k] == Padded(n, |tnow|)[k]
    {
      s := s[i := AddChars(tnow[i], s[i])];
      i := i + 1;
    }
  }

  // ---------------------------------------------------------------------
  // What the name means
  // ---------------------------------------------------------------------

  /** Appending digits shifts the value of the prefix left. */
  lemma {:induction false} ValueConcat(a: seq<Byte>, b: seq<Byte>)
    requires AllDigits(a) && AllDigits(b)
    ensures AllDigits(a + b)
    ensures Value(a + b) == Value(a) * Pow10(|b|) + Value(b)
  {
    if |b| > 0 {
      var b' := b[..|b| - 1];
      var d := (b[|b| - 1] - Zero) as nat;
      assert (a + b)[..|a + b| - 1] == a + b';
      assert (a + b)[|a + b| - 1] == b[|b| - 1];
      ValueConcat(a, b');
      var x, y, p := Value(a), Value(b'), Pow10(|b'|);
      assert Value(a + b) == (x * p + y) * 10 + d;
      assert Value(b) == y * 10 + d;
      assert Pow10(|b|) == 10 * p;
      ShiftDigit(x, y, p, d);
    } else {
      assert a + b == a;
    }
  }

  lemma ShiftDigit(x: nat, y: nat, p: nat, d: nat)
    ensures (x * p + y) * 10 + d == x * (10 * p) + (y * 10 + d)
  {
  }

  lemma {:induction false} ZerosValue(k: nat)
    ensures Value(Zeros(k)) == 0
  {
    if k > 0 {
      assert Zeros(k)[..k - 1] == Zeros(k - 1);
      ZerosValue(k - 1);
    }
  }

  /** Padding a non-negative value with zeros keeps its value. */
  lemma PaddedValue(n: nat, width: nat)
    ensures AllDigits(Padded(n, width)) && Value(Padded(n, width)) == n
  {
    var t := ToString(n);
    if |t| < width {
      ZerosValue(width - |t|);
      ValueConcat(Zeros(width - |t|), t);
    }
  }

  /**
   * Strings whose digits add position by position without carry have
   * values that add.
   */
  lemma {:induction false} DigitwiseSum(x: seq<Byte>, y: seq<Byte>, z: seq<Byte>)
    requires |x| == |y| == |z| && AllDigits(x) && AllDigits(y) && AllDigits(z)
    requires forall i :: 0 <= i < |z| ==> z[i] - Zero == (x[i] - Zero) + (y[i] - Zero)
    ensures Value(z) == Value(x) + Value(y)
  {
    if |z| > 0 {
      var k := |z| - 1;
      DigitwiseSum(x[..k], y[..k], z[..k]);
    }
  }

  /**
   * When n is non-negative, the first seven characters of tnow are digits
   * and no digit sum reaches ten, the name is a string of digits whose
   * value is n plus the number written by those seven characters, shifted
   * to the front of the name.
   */
  lemma StepNameValue(n: nat, tnow: seq<Byte>)
    requires |tnow| >= 7 && AllDigits(tnow[..7])
    requires forall i :: 0 <= i < 7 ==> (tnow[i] - Zero) + (Padded(n, |tnow|)[i] - Zero) <= 9
    ensures AllDigits(StepName(n, tnow))
    ensures Value(StepName(n, tnow)) == Value(tnow[..7]) * Pow10(|StepName(n, tnow)| - 7) + n
  {
    PaddedValue(n, |tnow|);
    StepNameHead(n, tnow);
    StepNameTail(n, tnow);
    SplitName(StepName(n, tnow), Padded(n, |tnow|), Value(tnow[..7]), n);
  }

  /**
   * A string that agrees with a digit string worth n from index 7 on, and
   * whose first seven digits are worth t more than that string's, is worth
   * t shifted past the tail more than n.
   */
  lemma SplitName(s: seq<Byte>, pad: seq<Byte>, t: nat, n: nat)
    requires |s| == |pad| >= 7 && AllDigits(s[..7]) && AllDigits(pad) && Value(pad) == n
    requires s[7..] == pad[7..] && Value(s[..7]) == t + Value(pad[..7])
    ensures AllDigits(s) && Value(s) == t * Pow10(|s| - 7) + n
  {
    var head, padHead, tail := s[..7], pad[..7], pad[7..];
    assert AllDigits(padHead) && AllDigits(tail) by {
      assert forall i :: 0 <= i < 7 ==> padHead[i] == pad[i];
      assert forall i :: 0 <= i < |tail| ==> tail[i] == pad[i + 7];
    }
    assert s == head + tail;
    assert pad == padHead + tail;
    SplitValue(head, padHead, tail, t);
  }

  /**
   * Two digit strings with the same tail, where the head of the first is
   * worth t more than the head of the second: the first is worth t shifted
   * past the tail more than the second.
   */
  lemma SplitValue(head: seq<Byte>, padHead: seq<Byte>, tail: seq<Byte>, t: nat)
    requires AllDigits(head) && AllDigits(padHead) && AllDigits(tail)
    requires Value(head) == t + Value(padHead)
    ensures AllDigits(head + tail) && AllDigits(padHead + tail)
    ensures Value(head + tail) == t * Pow10(|tail|) + Value(padHead + tail)
  {
    ValueConcat(head, tail);
    ValueConcat(padHead, tail);
    ShiftSum(Value(head), Value(padHead), t, Pow10(|tail|), Value(tail), Value(head + tail), Value(padHead + tail));
  }

  lemma ShiftSum(h: int, p: int, t: int, k: int, w: int, v1: int, v2: int)
    requires v1 == h * k + w && v2 == p * k + w && h == t + p
    ensures v1 == t * k + v2
  {
    assert h * k == t * k + p * k;
  }

  /** From the eighth character on, the name is the padded time. */
  lemma StepNameTail(n: int, tnow: seq<Byte>)
    requires |tnow| >= 7
    ensures StepName(n, tnow)[7..] == Padded(n, |tnow|)[7..]
  {
  }

  /** The first seven characters of the name are the digit-wise sum. */
  lemma StepNameHead(n: nat, tnow: seq<Byte>)
    requires |tnow| >= 7 && AllDigits(tnow[..7])
    requires forall i :: 0 <= i < 7 ==> (tnow[i] - Zero) + (Padded(n, |tnow|)[i] - Zero) <= 9
    ensures AllDigits(StepName(n, tnow)[..7])
    ensures Value(StepName(n, tnow)[..7]) == Value(tnow[..7]) + Value(Padded(n, |tnow|)[..7])
  {
    var pad, s := Padded(n, |tnow|), StepName(n, tnow);
    PaddedValue(n, |tnow|);
    var head := s[..7];
    forall i | 0 <= i < 7
      ensures IsDigit(head[i]) && head[i] - Zero == (tnow[..7][i] - Zero) + (pad[..7][i] - Zero)
    {
      assert IsDigit(tnow[..7][i]);
    }
    DigitwiseSum(tnow[..7], pad[..7], head);
  }

  /** The padded string has no sign character exactly when n is non-negative. */
  lemma PaddedDigits(n: int, width: nat)
    ensures AllDigits(Padded(n, width)) <==> n >= 0
  {
    var t := ToString(n);
    if n < 0 {
      var pad := Padded(n, width);
      assert pad[|pad| - |t|] == Minus;
    }
  }

  /**
   * There is no carry: "0000005" followed by a time of 5 thousandths ends
   * in the character after '9', not in "10".
   */
  lemma StepNameNoCarry()
    ensures StepName(5, [Zero, Zero, Zero, Zero, Zero, Zero, Zero + 5]) == [Zero, Zero, Zero, Zero, Zero, Zero, Zero + 10]
  {
    assert Padded(5, 7) == [Zero, Zero, Zero, Zero, Zero, Zero, Zero + 5];
  }
}
