/** Strings as the JavaScript runtime and moment.js produce them: decimal digits, zero-padded
    numbers, `Number#toString` on integers and `String#split` on a one-character separator. */
module Text {

  import opened Wrappers

  predicate IsDigit(c: char) {
    '0' <= c <= '9'
  }

  predicate AllDigits(s: string) {
    forall i :: 0 <= i < |s| ==> IsDigit(s[i])
  }

  function DigitValue(c: char): (d: nat)
    requires IsDigit(c)
    ensures d < 10
  {
    c as int - '0' as int
  }

  function DigitChar(d: nat): (c: char)
    requires d < 10
    ensures IsDigit(c) && DigitValue(c) == d
  {
    (d + '0' as int) as char
  }

  /** The number a string of decimal digits denotes, most significant digit first. */
  function DigitsValue(s: string): nat
    requires AllDigits(s)
  {
    if s == [] then 0 else DigitsValue(s[..|s| - 1]) * 10 + DigitValue(s[|s| - 1])
  }

  function Pow10(w: nat): (p: nat)
    ensures p >= 1
  {
    if w == 0 then 1 else 10 * Pow10(w - 1)
  }

  /** A non-empty run of decimal digits, read as a number; anything else is not a number. The
      number read, written back with as many digits as the string has, is the string again:
      no digit is lost, leading zeros included. */
  function ParseNat(s: string): (r: Option<nat>)
    ensures r.Some? <==> s != [] && AllDigits(s)
    ensures r.Some? ==> r.value < Pow10(|s|) && ZeroPadded(r.value, |s|) == s
  {
    if s != [] && AllDigits(s) then
      DigitsPadded(s);
      Some(DigitsValue(s))
    else None
  }

  /** `n` written with exactly `w` digits, leading zeros included (moment's `HH`, `mm`, `MM`,
      `DD` and `YYYY` tokens). */
  function ZeroPadded(n: nat, w: nat): (s: string)
    requires n < Pow10(w)
    ensures |s| == w && AllDigits(s)
  {
    if w == 0 then [] else ZeroPadded(n / 10, w - 1) + [DigitChar(n % 10)]
  }

  lemma {:induction false} ZeroPaddedValue(n: nat, w: nat)
    requires n < Pow10(w)
    ensures DigitsValue(ZeroPadded(n, w)) == n
  {
    if w > 0 {
      var s := ZeroPadded(n, w);
      assert n / 10 < Pow10(w - 1);
      ZeroPaddedValue(n / 10, w - 1);
      assert s[..|s| - 1] == ZeroPadded(n / 10, w - 1);
    }
  }

  /** Digits read as a number and padded back to their own width give the same digits. */
  lemma {:induction false} DigitsPadded(s: string)
    requires AllDigits(s)
    ensures DigitsValue(s) < Pow10(|s|) && ZeroPadded(DigitsValue(s), |s|) == s
  {
    if s != [] {
      var init, c := s[..|s| - 1], s[|s| - 1];
      DigitsPadded(init);
      var v := DigitsValue(s);
      assert v == DigitsValue(init) * 10 + DigitValue(c);
      assert v / 10 == DigitsValue(init) && v % 10 == DigitValue(c);
      assert DigitChar(DigitValue(c)) == c;
      assert s == init + [c];
    }
  }

  /** Zero padding to a fixed width loses nothing: equal strings come from equal numbers. */
  lemma ZeroPaddedInjective(a: nat, b: nat, w: nat)
    requires a < Pow10(w) && b < Pow10(w)
    ensures ZeroPadded(a, w) == ZeroPadded(b, w) <==> a == b
  {
    ZeroPaddedValue(a, w);
    ZeroPaddedValue(b, w);
  }

  /** Shortest decimal form of a natural number. */
  function NatToString(n: nat): (s: string)
    ensures s != [] && AllDigits(s)
  {
    if n < 10 then [DigitChar(n)] else NatToString(n / 10) + [DigitChar(n % 10)]
  }

  lemma {:induction false} NatToStringValue(n: nat)
    ensures ParseNat(NatToString(n)) == Some(n)
  {
    var s := NatToString(n);
    if n < 10 {
      assert s[..|s| - 1] == [];
    } else {
      NatToStringValue(n / 10);
      assert s[..|s| - 1] == NatToString(n / 10);
      assert DigitsValue(s) == (n / 10) * 10 + n % 10;
    }
  }

  /** What a template literal prints for an integer (`Number#toString`). */
  function IntToString(n: int): (s: string)
    ensures s != []
    ensures n >= 0 ==> ParseNat(s) == Some(n)
    ensures n < 0 ==> s[0] == '-' && ParseNat(s[1..]) == Some(-n)
  {
    NatToStringValue(if n < 0 then -n else n);
    if n < 0 then "-" + NatToString(-n) else NatToString(n)
  }

  /** `s.split(sep)` for a one-character separator: the pieces between separators, so the
      result always has one more piece than `s` has separators. */
  function Split(s: string, sep: char): (r: seq<string>)
    ensures |r| >= 1
    ensures forall k :: 0 <= k < |r| ==> sep !in r[k]
  {
    if s == [] then [""]
    else
      var rest := Split(s[1..], sep);
      if s[0] == sep then [""] + rest
      else [[s[0]] + rest[0]] + rest[1..]
  }

  /** `fields.join(sep)`: the inverse of `Split` on separator-free pieces. */
  function Join(fields: seq<string>, sep: char): string
    requires |fields| >= 1
  {
    if |fields| == 1 then fields[0] else fields[0] + [sep] + Join(fields[1..], sep)
  }

  lemma {:induction false} SplitPiece(w: string, sep: char, rest: string)
    requires sep !in w
    ensures Split(w + rest, sep) == [w + Split(rest, sep)[0]] + Split(rest, sep)[1..]
  {
    var tail := Split(rest, sep);
    if w == [] {
      assert w + rest == rest;
      assert w + tail[0] == tail[0];
      assert [tail[0]] + tail[1..] == tail;
    } else {
      assert (w + rest)[0] == w[0];
      assert (w + rest)[1..] == w[1..] + rest;
      SplitPiece(w[1..], sep, rest);
      var r := Split(w[1..] + rest, sep);
      assert r[0] == w[1..] + tail[0] && r[1..] == tail[1..];
      assert [w[0]] + (w[1..] + tail[0]) == w + tail[0];
    }
  }

  /** Joining separator-free pieces and splitting again gives back exactly those pieces. */
  lemma {:induction false} SplitJoin(fields: seq<string>, sep: char)
    requires |fields| >= 1
    requires forall k :: 0 <= k < |fields| ==> sep !in fields[k]
    ensures Split(Join(fields, sep), sep) == fields
  {
    if |fields| == 1 {
      SplitPiece(fields[0], sep, "");
      assert fields[0] + "" == fields[0];
    } else {
      var tail := Join(fields[1..], sep);
      SplitJoin(fields[1..], sep);
      assert fields[0] + [sep] + tail == fields[0] + ([sep] + tail);
      SplitPiece(fields[0], sep, [sep] + tail);
      assert ([sep] + tail)[1..] == tail;
      assert Split([sep] + tail, sep) == [""] + fields[1..];
      assert fields[0] + "" == fields[0];
    }
  }

}
