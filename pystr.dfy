/**
 * The few Python string builtins the harness relies on: `str.split`,
 * `int()` on a decimal numeral, the `{:d}` and `{:02d}` formats, `str.find`
 * and `str.lower`, each stated on `seq<char>`.
 */
module PyStr {
  import opened Wrappers

  predicate IsDigit(c: char) {
    '0' <= c <= '9'
  }

  predicate AllDigits(s: string) {
    forall i :: 0 <= i < |s| ==> IsDigit(s[i])
  }

  /** A decimal numeral as `int()` accepts it here: one or more ASCII digits. */
  predicate IsNumeral(s: string) {
    |s| > 0 && AllDigits(s)
  }

  /** The value of a decimal digit (0 for any other character, which no numeral holds). */
  function DigitValue(c: char): nat {
    if IsDigit(c) then c as int - '0' as int else 0
  }

  function DigitChar(d: nat): (c: char)
    requires d < 10
    ensures IsDigit(c) && DigitValue(c) == d
  {
    ('0' as int + d) as char
  }

  function Pow10(k: nat): nat {
    if k == 0 then 1 else 10 * Pow10(k - 1)
  }

  /** The number a string of decimal digits denotes, most significant digit first. */
  function DigitsValue(s: string): nat
    decreases |s|
  {
    if s == [] then 0 else DigitsValue(s[..|s| - 1]) * 10 + DigitValue(s[|s| - 1])
  }

  /** `int(s)`: the value of a numeral, None where Python raises ValueError. */
  function ParseInt(s: string): Option<nat> {
    if IsNumeral(s) then Some(DigitsValue(s)) else None
  }

  /** `"{:d}".format(n)`: the shortest decimal numeral of `n`. */
  function Decimal(n: nat): (s: string)
    ensures IsNumeral(s)
    ensures DigitsValue(s) == n
    ensures n < 10 ==> |s| == 1
    ensures 10 <= n < 100 ==> |s| == 2
    ensures n > 0 ==> s[0] != '0'
    decreases n
  {
    if n < 10 then [DigitChar(n)]
    else
      var s := Decimal(n / 10) + [DigitChar(n % 10)];
      assert s[..|s| - 1] == Decimal(n / 10);
      s
  }

  /** `"{:02d}".format(n)`: the decimal numeral of `n`, left-padded with '0' to width two. */
  function ZeroPad2(n: nat): (s: string)
    ensures IsNumeral(s)
    ensures DigitsValue(s) == n
    ensures n < 100 ==> |s| == 2
  {
    if n < 10 then
      var s := ['0'] + Decimal(n);
      assert s[..|s| - 1] == ['0'];
      assert s[..|s| - 1][..0] == [];
      s
    else Decimal(n)
  }

  /** Reading a numeral left to right: the digits of `a` are shifted past those of `b`. */
  lemma {:induction false} DigitsValueAppend(a: string, b: string)
    ensures DigitsValue(a + b) == DigitsValue(a) * Pow10(|b|) + DigitsValue(b)
    decreases |b|
  {
    if b == [] {
      assert a + b == a;
    } else {
      var b' := b[..|b| - 1];
      var d := DigitValue(b[|b| - 1]);
      var ab := a + b;
      assert ab[..|ab| - 1] == a + b';
      assert ab[|ab| - 1] == b[|b| - 1];
      DigitsValueAppend(a, b');
      assert DigitsValue(ab) == DigitsValue(a + b') * 10 + d;
      assert DigitsValue(b) == DigitsValue(b') * 10 + d;
      assert Pow10(|b|) == Pow10(|b'|) * 10;
      ShiftDigit(DigitsValue(a), Pow10(|b'|), DigitsValue(b'), d);
    }
  }

  lemma ShiftDigit(x: nat, p: nat, y: nat, d: nat)
    ensures (x * p + y) * 10 + d == x * (p * 10) + (y * 10 + d)
  {
  }

  /** `s.split(sep)`: the maximal pieces of `s` between occurrences of `sep`. */
  function Split(s: string, sep: char): (parts: seq<string>)
    ensures |parts| >= 1
    ensures forall i :: 0 <= i < |parts| ==> sep !in parts[i]
    decreases |s|
  {
    if s == [] then [[]]
    else
      var rest := Split(s[1..], sep);
      if s[0] == sep then [[]] + rest
      else [[s[0]] + rest[0]] + rest[1..]
  }

  /** `sep.join(parts)`. */
  function Join(parts: seq<string>, sep: char): string
    decreases |parts|
  {
    if parts == [] then []
    else if |parts| == 1 then parts[0]
    else parts[0] + [sep] + Join(parts[1..], sep)
  }

  /** Splitting loses nothing: joining the pieces again gives back the string. */
  lemma {:induction false} SplitThenJoin(s: string, sep: char)
    ensures Join(Split(s, sep), sep) == s
    decreases |s|
  {
    if s != [] {
      SplitThenJoin(s[1..], sep);
      var rest := Split(s[1..], sep);
      if s[0] == sep {
        calc {
          Join(Split(s, sep), sep);
          Join([[]] + rest, sep);
          { assert ([[]] + rest)[1..] == rest; }
          [] + [sep] + Join(rest, sep);
          [s[0]] + s[1..];
          s;
        }
      } else if |rest| == 1 {
        assert Split(s, sep) == [[s[0]] + rest[0]];
        assert Join(rest, sep) == rest[0];
        assert [s[0]] + s[1..] == s;
      } else {
        var parts := Split(s, sep);
        assert parts[1..] == rest[1..];
        calc {
          Join(parts, sep);
          ([s[0]] + rest[0]) + [sep] + Join(rest[1..], sep);
          [s[0]] + (rest[0] + [sep] + Join(rest[1..], sep));
          [s[0]] + Join(rest, sep);
          s;
        }
      }
    }
  }

  /** The head piece of `w + t` is `w` when `w` has no separator and `t` starts at one. */
  lemma {:induction false} SplitHead(w: string, t: string, sep: char)
    requires sep !in w
    requires t == [] || t[0] == sep
    ensures Split(w + t, sep)[0] == w
    ensures t != [] ==> Split(w + t, sep) == [w] + Split(t[1..], sep)
    decreases |w|
  {
    if w == [] {
      assert w + t == t;
    } else {
      assert (w + t)[1..] == w[1..] + t;
      SplitHead(w[1..], t, sep);
      assert [w[0]] + w[1..] == w;
    }
  }

  /** Joining pieces free of the separator and splitting again gives back the pieces. */
  lemma {:induction false} JoinThenSplit(parts: seq<string>, sep: char)
    requires |parts| >= 1
    requires forall i :: 0 <= i < |parts| ==> sep !in parts[i]
    ensures Split(Join(parts, sep), sep) == parts
    decreases |parts|
  {
    if |parts| == 1 {
      SplitHead(parts[0], [], sep);
      assert parts[0] + [] == parts[0];
      SplitSingle(parts[0], sep);
    } else {
      var t := [sep] + Join(parts[1..], sep);
      assert Join(parts, sep) == parts[0] + t;
      SplitHead(parts[0], t, sep);
      assert t[1..] == Join(parts[1..], sep);
      JoinThenSplit(parts[1..], sep);
      assert [parts[0]] + parts[1..] == parts;
    }
  }

  /** A string free of the separator splits into itself alone. */
  lemma {:induction false} SplitSingle(w: string, sep: char)
    requires sep !in w
    ensures Split(w, sep) == [w]
    decreases |w|
  {
    if w != [] {
      SplitSingle(w[1..], sep);
      assert [w[0]] + w[1..] == w;
    }
  }

  /** `s.find(sub)`: the lowest index at which `sub` occurs in `s`, or -1. */
  function Find(s: string, sub: string): (r: int)
    ensures -1 <= r <= |s|
    ensures r >= 0 ==> sub <= s[r..]
    ensures r >= 0 ==> forall j :: 0 <= j < r ==> !(sub <= s[j..])
    ensures r == -1 ==> forall j :: 0 <= j <= |s| ==> !(sub <= s[j..])
    decreases |s|
  {
    if sub <= s then 0
    else if s == [] then -1
    else
      var k := Find(s[1..], sub);
      assert forall j :: 1 <= j <= |s| ==> s[1..][j - 1..] == s[j..];
      if k == -1 then -1 else k + 1
  }

  function LowerChar(c: char): char {
    if 'A' <= c <= 'Z' then (c as int + 32) as char else c
  }

  /** `s.lower()` on ASCII letters. */
  function Lower(s: string): (r: string)
    ensures |r| == |s|
    ensures forall i :: 0 <= i < |r| ==> !('A' <= r[i] <= 'Z')
    ensures forall i :: 0 <= i < |s| && !('A' <= s[i] <= 'Z') ==> r[i] == s[i]
    ensures forall i :: 0 <= i < |s| && 'A' <= s[i] <= 'Z' ==> r[i] == (s[i] as int + ('a' as int - 'A' as int)) as char
  {
    seq(|s|, i requires 0 <= i < |s| => LowerChar(s[i]))
  }

  /** Upper- and mixed-case boolean words lower to the words `getboolean` looks up. */
  lemma LowerBooleanWords()
    ensures Lower("TRUE") == "true" && Lower("Yes") == "yes" && Lower("OFF") == "off"
  {
  }
}
