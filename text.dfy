/**
  Text rendering used by the packet printers: numbers in decimal and in
  lower-case hexadecimal (what `ostream << n`, `hex` and
  `setw(w) << setfill('0')` produce), and splitting and joining on a
  separator character. Each renderer has a parser beside it, and the
  lemmas prove that parsing what was rendered gives the value back.
 */
module Text {
  import opened Wrappers

  /** The digit characters, lower-case as `std::hex` prints them. */
  const DigitChars: string := "0123456789abcdef"

  function DigitChar(d: nat): (c: char)
    requires d < 16
  {
    DigitChars[d]
  }

  /** The value of a digit character, for bases up to 16. */
  function CharValue(c: char): (r: Option<nat>)
    ensures r.Some? ==> r.value < 16 && DigitChar(r.value) == c
  {
    if '0' <= c <= '9' then Some(c as int - '0' as int)
    else if 'a' <= c <= 'f' then Some(c as int - 'a' as int + 10)
    else None
  }

  predicate IsDigit(c: char, base: nat)
  {
    CharValue(c).Some? && CharValue(c).value < base
  }

  predicate AllDigits(s: string, base: nat)
  {
    forall i :: 0 <= i < |s| ==> IsDigit(s[i], base)
  }

  /** The digits of `n` in `base`, most significant first, without leading zeros. */
  function Digits(n: nat, base: nat): (s: string)
    requires base == 10 || base == 16
    ensures |s| >= 1 && AllDigits(s, base)
    decreases n
  {
    if n < base then [DigitChar(n)]
    else Digits(n / base, base) + [DigitChar(n % base)]
  }

  /** A rendered number has no leading zero: it is "0" itself or starts with a non-zero digit. */
  lemma {:induction false} DigitsNoLeadingZero(n: nat, base: nat)
    requires base == 10 || base == 16
    ensures Digits(n, base)[0] == '0' <==> n == 0
    decreases n
  {
    if n < base {
      assert DigitChars[0] == '0';
      if n != 0 {
        DigitCharValue(n);
        DigitCharValue(0);
      }
    } else {
      DigitsNoLeadingZero(n / base, base);
      assert Digits(n, base)[0] == Digits(n / base, base)[0];
    }
  }

  /** The value of a string of digits, most significant first. */
  function ValueOf(s: string, base: nat): nat
    requires AllDigits(s, base)
    decreases |s|
  {
    if s == [] then 0
    else ValueOf(s[..|s| - 1], base) * base + CharValue(s[|s| - 1]).value
  }

  /** Reads a non-empty string of digits; anything else is rejected. */
  function ParseNum(s: string, base: nat): Option<nat>
  {
    if s != [] && AllDigits(s, base) then Some(ValueOf(s, base)) else None
  }

  /** `ostream << n` for an unsigned integer. */
  function Dec(n: nat): string
  {
    Digits(n, 10)
  }

  /** `ostream << n` for a signed integer (the timestamp fields). */
  function IntString(i: int): string
  {
    if i < 0 then "-" + Dec(-i) else Dec(i)
  }

  /** `hex << setw(w) << setfill('0') << n`: zero-padded to at least `w` digits. */
  function HexPad(n: nat, w: nat): string
  {
    var h := Digits(n, 16);
    if |h| >= w then h else Zeros(w - |h|) + h
  }

  function Zeros(k: nat): (z: string)
    ensures |z| == k && forall i :: 0 <= i < k ==> z[i] == '0'
  {
    if k == 0 then [] else "0" + Zeros(k - 1)
  }

  function Pow(base: nat, w: nat): nat
  {
    if w == 0 then 1 else base * Pow(base, w - 1)
  }

  /** Each digit character reads back as its value. */
  lemma DigitCharValue(d: nat)
    requires d < 16
    ensures CharValue(DigitChar(d)) == Some(d)
  {
    assert DigitChars == ['0', '1', '2', '3', '4', '5', '6', '7', '8', '9', 'a', 'b', 'c', 'd', 'e', 'f'];
  }

  lemma ValueOfSnoc(s: string, c: char, base: nat)
    requires AllDigits(s + [c], base)
    ensures AllDigits(s, base) && IsDigit(c, base)
    ensures ValueOf(s + [c], base) == ValueOf(s, base) * base + CharValue(c).value
  {
    assert (s + [c])[..|s|] == s;
    assert (s + [c])[|s|] == c;
    assert forall i :: 0 <= i < |s| ==> s[i] == (s + [c])[i];
  }

  lemma {:induction false} DigitsValue(n: nat, base: nat)
    requires base == 10 || base == 16
    ensures ValueOf(Digits(n, base), base) == n
    decreases n
  {
    var s := Digits(n, base);
    if n < base {
      DigitCharValue(n);
      assert s == [] + [DigitChar(n)];
      ValueOfSnoc([], DigitChar(n), base);
    } else {
      var q, r := n / base, n % base;
      DigitsValue(q, base);
      DigitCharValue(r);
      ValueOfSnoc(Digits(q, base), DigitChar(r), base);
      assert ValueOf(s, base) == q * base + r;
    }
  }

  /** Decimal rendering is undone by decimal parsing. */
  lemma DecRoundTrip(n: nat)
    ensures ParseNum(Dec(n), 10) == Some(n)
  {
    DigitsValue(n, 10);
  }

  lemma {:induction false} ZerosValue(k: nat, s: string, base: nat)
    requires (base == 10 || base == 16) && AllDigits(s, base)
    ensures AllDigits(Zeros(k) + s, base)
    ensures ValueOf(Zeros(k) + s, base) == ValueOf(s, base)
    decreases |s|
  {
    var z := Zeros(k) + s;
    if s == [] {
      assert z == Zeros(k);
      ZerosOnly(k, base);
    } else {
      ZerosValue(k, s[..|s| - 1], base);
      assert z[..|z| - 1] == Zeros(k) + s[..|s| - 1];
    }
  }

  lemma {:induction false} ZerosOnly(k: nat, base: nat)
    requires base == 10 || base == 16
    ensures AllDigits(Zeros(k), base) && ValueOf(Zeros(k), base) == 0
  {
    if k > 0 {
      ZerosOnly(k - 1, base);
      assert Zeros(k)[..k - 1] == Zeros(k - 1);
    }
  }

  lemma {:induction false} DigitsWidth(n: nat, base: nat, w: nat)
    requires (base == 10 || base == 16) && 1 <= w && n < Pow(base, w)
    ensures |Digits(n, base)| <= w
    decreases n
  {
    if n >= base {
      assert Pow(base, 1) == base;
      var p := Pow(base, w - 1);
      assert n < base * p;
      if base == 10 {
        assert n / 10 < p;
      } else {
        assert n / 16 < p;
      }
      DigitsWidth(n / base, base, w - 1);
    }
  }

  /** Zero-padded hex of a value below 16^w has exactly `w` digits and reads back as the value. */
  lemma HexPadRoundTrip(n: nat, w: nat)
    requires 1 <= w && n < Pow(16, w)
    ensures |HexPad(n, w)| == w
    ensures ParseNum(HexPad(n, w), 16) == Some(n)
  {
    DigitsWidth(n, 16, w);
    DigitsValue(n, 16);
    var h := Digits(n, 16);
    if |h| < w {
      ZerosValue(w - |h|, h, 16);
    }
  }

  /** Joins `parts` with `sep` between consecutive parts. */
  function Join(parts: seq<string>, sep: char): (s: string)
    requires |parts| >= 1
    decreases |parts|
  {
    if |parts| == 1 then parts[0] else parts[0] + [sep] + Join(parts[1..], sep)
  }

  /** Cuts `s` at every occurrence of `sep`; always at least one part. */
  function Split(s: string, sep: char): (parts: seq<string>)
    ensures |parts| >= 1
    decreases |s|
  {
    if s == [] then [[]]
    else
      var rest := Split(s[1..], sep);
      if s[0] == sep then [[]] + rest else [[s[0]] + rest[0]] + rest[1..]
  }

  lemma {:induction false} SplitPrefix(x: string, tail: string, sep: char)
    requires sep !in x
    ensures Split(x + tail, sep) == [x + Split(tail, sep)[0]] + Split(tail, sep)[1..]
    decreases |x|
  {
    if x != [] {
      assert (x + tail)[1..] == x[1..] + tail;
      SplitPrefix(x[1..], tail, sep);
      assert [x[0]] + (x[1..] + Split(tail, sep)[0]) == x + Split(tail, sep)[0];
    } else {
      var parts := Split(tail, sep);
      assert x + tail == tail && x + parts[0] == parts[0];
      assert parts == [parts[0]] + parts[1..];
    }
  }

  /** Joining parts free of `sep` and splitting on `sep` gives the parts back. */
  lemma {:induction false} SplitJoin(parts: seq<string>, sep: char)
    requires |parts| >= 1
    requires forall i :: 0 <= i < |parts| ==> sep !in parts[i]
    ensures Split(Join(parts, sep), sep) == parts
    decreases |parts|
  {
    if |parts| == 1 {
      SplitPrefix(parts[0], [], sep);
      assert parts[0] + [] == parts[0];
    } else {
      var rest := Join(parts[1..], sep);
      SplitJoin(parts[1..], sep);
      assert Split([sep] + rest, sep) == [[]] + Split(rest, sep);
      assert parts[0] + [sep] + rest == parts[0] + ([sep] + rest);
      SplitPrefix(parts[0], [sep] + rest, sep);
      assert parts[0] + [] == parts[0];
      assert parts == [parts[0]] + parts[1..];
    }
  }

  /** Joining one more part appends the separator and that part. */
  lemma {:induction false} JoinSnoc(parts: seq<string>, p: string, sep: char)
    requires |parts| >= 1
    ensures Join(parts + [p], sep) == Join(parts, sep) + [sep] + p
    decreases |parts|
  {
    if |parts| > 1 {
      assert (parts + [p])[1..] == parts[1..] + [p];
      JoinSnoc(parts[1..], p, sep);
    }
  }

  /** A separator that is not a digit never occurs in a rendered number. */
  lemma DigitsHaveNoSep(s: string, base: nat, sep: char)
    requires AllDigits(s, base) && CharValue(sep).None?
    ensures sep !in s
  {
  }
}
