/**
  The two Java library routines the game loop relies on to read a move:
  `String.split` with a one-character, non-regex delimiter, and
  `Integer.parseInt` in radix 10. Decimal formatting (`ShowInt`) is their
  partner: it is how the program prints the board size, and parsing undoes it.
*/
module JavaText {
  import opened Outcomes

  /** The range of Java's 32-bit `int`. */
  const IntMin: int := -0x8000_0000
  const IntMax: int := 0x7fff_ffff

  predicate IsInt32(n: int) {
    IntMin <= n <= IntMax
  }

  // ---------------------------------------------------------------------------
  // Splitting
  // ---------------------------------------------------------------------------

  /** Position of the first occurrence of `c` in `s`. */
  function IndexOf(s: string, c: char): (i: nat)
    requires c in s
    ensures i < |s| && s[i] == c
    ensures c !in s[..i]
  {
    if s[0] == c then 0
    else
      assert c in s[1..] by { var k :| 0 <= k < |s| && s[k] == c; assert s[1..][k - 1] == c; }
      var i := 1 + IndexOf(s[1..], c);
      assert s[..i] == [s[0]] + s[1..][..i - 1];
      i
  }

  /** Every field of `s` between occurrences of `sep`, empty fields included. */
  function Fields(s: string, sep: char): (fs: seq<string>)
    ensures |fs| >= 1
    ensures forall k | 0 <= k < |fs| :: sep !in fs[k]
    decreases |s|
  {
    if sep !in s then [s]
    else
      var i := IndexOf(s, sep);
      [s[..i]] + Fields(s[i + 1..], sep)
  }

  /** Glues fields back together with `sep` between consecutive ones. */
  function Join(fs: seq<string>, sep: char): string
    requires |fs| >= 1
  {
    if |fs| == 1 then fs[0] else fs[0] + [sep] + Join(fs[1..], sep)
  }

  /** Removes the run of empty strings at the end of `fs`. */
  function DropTrailingEmpty(fs: seq<string>): (r: seq<string>)
    ensures r <= fs
    ensures r == [] || r[|r| - 1] != ""
    ensures forall k | |r| <= k < |fs| :: fs[k] == ""
  {
    if fs != [] && fs[|fs| - 1] == "" then DropTrailingEmpty(fs[..|fs| - 1]) else fs
  }

  /**
    `s.split(sep)`: when `sep` does not occur the answer is `[s]` itself
    (so even `""` gives one part); otherwise the fields with the trailing
    empty ones removed, which may leave no part at all (`","` gives none).
  */
  function Split(s: string, sep: char): (parts: seq<string>)
    ensures sep !in s ==> parts == [s]
    ensures forall k | 0 <= k < |parts| :: sep !in parts[k]
    ensures sep in s ==> parts == [] || parts[|parts| - 1] != ""
  {
    if sep !in s then [s] else DropTrailingEmpty(Fields(s, sep))
  }

  /** Joining the fields of a string gives the string back. */
  lemma {:induction false} JoinFields(s: string, sep: char)
    ensures Join(Fields(s, sep), sep) == s
    decreases |s|
  {
    if sep in s {
      var i := IndexOf(s, sep);
      var rest := Fields(s[i + 1..], sep);
      var fs := Fields(s, sep);
      assert fs == [s[..i]] + rest;
      assert fs[1..] == rest;
      JoinFields(s[i + 1..], sep);
      assert Join(fs, sep) == s[..i] + [sep] + Join(rest, sep);
      assert s == s[..i] + [sep] + s[i + 1..];
    }
  }

  /** The other direction: fields free of `sep` are recovered from their join. */
  lemma {:induction false} FieldsJoin(fs: seq<string>, sep: char)
    requires |fs| >= 1
    requires forall k | 0 <= k < |fs| :: sep !in fs[k]
    ensures Fields(Join(fs, sep), sep) == fs
  {
    if |fs| > 1 {
      var tail := Join(fs[1..], sep);
      var s := fs[0] + [sep] + tail;
      assert s[|fs[0]|] == sep;
      assert sep in s;
      IndexOfAfterPrefix(fs[0], sep, tail);
      assert s[..|fs[0]|] == fs[0];
      assert s[|fs[0]| + 1..] == tail;
      FieldsJoin(fs[1..], sep);
      assert fs == [fs[0]] + fs[1..];
    }
  }

  lemma IndexOfAfterPrefix(a: string, c: char, b: string)
    requires c !in a
    ensures c in a + [c] + b
    ensures IndexOf(a + [c] + b, c) == |a|
  {
    var s := a + [c] + b;
    assert s[|a|] == c;
    assert s[..|a|] == a;
  }

  /** Splitting `a,b` on the comma yields exactly the two parts. */
  lemma SplitPair(a: string, b: string, sep: char)
    requires sep !in a && sep !in b && b != ""
    ensures Split(a + [sep] + b, sep) == [a, b]
  {
    var s := a + [sep] + b;
    assert s[|a|] == sep;
    assert [a, b][1..] == [b];
    assert Join([a, b], sep) == s;
    FieldsJoin([a, b], sep);
  }

  /** Splitting `a,c,d` on the comma yields exactly the three parts. */
  lemma SplitTriple(a: string, c: string, d: string, sep: char)
    requires sep !in a && sep !in c && sep !in d && d != ""
    ensures Split(a + [sep] + c + [sep] + d, sep) == [a, c, d]
  {
    var fs := [a, c, d];
    var token := a + [sep] + c + [sep] + d;
    assert fs[1..] == [c, d] && fs[1..][1..] == [d];
    assert Join([d], sep) == d;
    assert Join([c, d], sep) == c + [sep] + d;
    assert Join(fs, sep) == a + [sep] + (c + [sep] + d);
    assert Join(fs, sep) == token;
    FieldsJoin(fs, sep);
    assert token[|a|] == sep;
    assert DropTrailingEmpty(fs) == fs;
  }

  // ---------------------------------------------------------------------------
  // Decimal numerals
  // ---------------------------------------------------------------------------

  predicate IsDigit(c: char) {
    '0' <= c <= '9'
  }

  predicate AllDigits(s: string) {
    forall k | 0 <= k < |s| :: IsDigit(s[k])
  }

  function DigitValue(c: char): (d: nat)
    requires IsDigit(c)
    ensures d < 10
  {
    (c as int) - ('0' as int)
  }

  function DigitChar(d: nat): (c: char)
    requires d < 10
    ensures IsDigit(c) && DigitValue(c) == d
  {
    ('0' as int + d) as char
  }

  /** The number a string of decimal digits denotes, most significant first. */
  function Value(ds: string): nat
    requires AllDigits(ds)
  {
    if ds == [] then 0 else 10 * Value(ds[..|ds| - 1]) + DigitValue(ds[|ds| - 1])
  }

  /**
    `Integer.parseInt(s)`: an optional `+` or `-`, then at least one decimal
    digit, and a value that fits an `int`; anything else is a
    `NumberFormatException`, modelled as `None`.
  */
  function ParseInt(s: string): (r: Option<int>)
    ensures r.Some? ==> IsInt32(r.value)
    ensures r.Some? ==> |s| > 0 && IsDigit(s[|s| - 1])
    ensures r.Some? ==> forall k | 0 < k < |s| :: IsDigit(s[k])
    ensures r.Some? && r.value < 0 ==> s[0] == '-'
    ensures |s| > 0 && !IsDigit(s[0]) && s[0] != '-' && s[0] != '+' ==> r.None?
  {
    if |s| == 0 then None
    else
      var digits := if s[0] == '-' || s[0] == '+' then s[1..] else s;
      if |digits| == 0 || !AllDigits(digits) then None
      else
        var magnitude: int := Value(digits);
        var v := if s[0] == '-' then -magnitude else magnitude;
        if IsInt32(v) then Some(v) else None
  }

  /** Decimal digits of `n`, without leading zeros. */
  function ShowNat(n: nat): (s: string)
    ensures |s| > 0 && AllDigits(s)
  {
    if n < 10 then [DigitChar(n)] else ShowNat(n / 10) + [DigitChar(n % 10)]
  }

  /** Decimal text of `n`, with a leading `-` when negative (Java's string concatenation). */
  function ShowInt(n: int): (s: string)
    ensures |s| > 0
    ensures n < 0 <==> s[0] == '-'
    ensures forall k | 0 <= k < |s| :: IsDigit(s[k]) || (k == 0 && s[k] == '-')
  {
    if n < 0 then "-" + ShowNat(-n) else ShowNat(n)
  }

  lemma {:induction false} ValueShowNat(n: nat)
    ensures Value(ShowNat(n)) == n
  {
    if n >= 10 {
      var s := ShowNat(n);
      assert s[..|s| - 1] == ShowNat(n / 10);
      ValueShowNat(n / 10);
    }
  }

  /** Printing an `int` and parsing it back gives the same `int`. */
  lemma ParseShowInt(n: int)
    requires IsInt32(n)
    ensures ParseInt(ShowInt(n)) == Some(n)
  {
    if n < 0 {
      ValueShowNat(-n);
      assert ShowInt(n)[1..] == ShowNat(-n);
    } else {
      ValueShowNat(n);
    }
  }

  // ---------------------------------------------------------------------------
  // Every numeral `parseInt` accepts, and its value
  // ---------------------------------------------------------------------------

  /** `k` zero digits. */
  function Zeros(k: nat): (z: string)
    ensures |z| == k && AllDigits(z)
    ensures forall i | 0 <= i < k :: z[i] == '0'
  {
    seq(k, _ => '0')
  }

  /** A leading zero does not change the value of a digit string. */
  lemma {:induction false} ValueLeadingZero(ds: string)
    requires AllDigits(ds)
    ensures AllDigits("0" + ds) && Value("0" + ds) == Value(ds)
    decreases |ds|
  {
    var zs := "0" + ds;
    if ds != [] {
      assert zs[..|zs| - 1] == "0" + ds[..|ds| - 1];
      ValueLeadingZero(ds[..|ds| - 1]);
    }
  }

  lemma {:induction false} ValueLeadingZeros(k: nat, ds: string)
    requires AllDigits(ds)
    ensures AllDigits(Zeros(k) + ds) && Value(Zeros(k) + ds) == Value(ds)
  {
    if k > 0 {
      ValueLeadingZeros(k - 1, ds);
      assert Zeros(k) + ds == "0" + (Zeros(k - 1) + ds);
      ValueLeadingZero(Zeros(k - 1) + ds);
    } else {
      assert Zeros(k) + ds == ds;
    }
  }

  lemma {:induction false} ValuePositive(ds: string)
    requires AllDigits(ds) && |ds| > 0 && ds[0] != '0'
    ensures Value(ds) > 0
    decreases |ds|
  {
    if |ds| > 1 {
      ValuePositive(ds[..|ds| - 1]);
    }
  }

  /** A digit string with no leading zero (or the single digit `0`) is the decimal text of its value. */
  lemma {:induction false} CanonicalDigits(ds: string)
    requires AllDigits(ds) && |ds| > 0 && (ds[0] != '0' || |ds| == 1)
    ensures ShowNat(Value(ds)) == ds
    decreases |ds|
  {
    if |ds| > 1 {
      var front := ds[..|ds| - 1];
      ValuePositive(front);
      CanonicalDigits(front);
      assert ds == front + [ds[|ds| - 1]];
    }
  }

  /** Every non-empty digit string is some zeros followed by the decimal text of its value. */
  lemma {:induction false} ZerosThenNumber(ds: string) returns (k: nat)
    requires AllDigits(ds) && |ds| > 0
    ensures ds == Zeros(k) + ShowNat(Value(ds))
    decreases |ds|
  {
    if ds[0] != '0' || |ds| == 1 {
      CanonicalDigits(ds);
      k := 0;
      assert ds == Zeros(0) + ShowNat(Value(ds));
    } else {
      var tail := ds[1..];
      assert ds == "0" + tail;
      ValueLeadingZero(tail);
      var j := ZerosThenNumber(tail);
      k := j + 1;
      assert Zeros(k) == "0" + Zeros(j);
      assert ds == Zeros(k) + ShowNat(Value(ds));
    }
  }

  /**
    What `parseInt` accepts is exactly an optional sign, any number of
    zeros, and the decimal text of the value's magnitude: a leading `-`
    negates, and the value fits an `int`. This direction: every accepted
    string has that form.
  */
  lemma ParseIntShape(s: string) returns (k: nat)
    requires ParseInt(s).Some?
    ensures var v := ParseInt(s).value;
            var sign := if s[0] == '-' || s[0] == '+' then [s[0]] else "";
            s == sign + Zeros(k) + ShowNat(if v < 0 then -v else v)
    ensures ParseInt(s).value > 0 ==> s[0] != '-'
  {
    var v := ParseInt(s).value;
    var signed := s[0] == '-' || s[0] == '+';
    var sign := if signed then [s[0]] else "";
    var digits := if signed then s[1..] else s;
    ParseIntDigits(s);
    assert s == sign + digits;
    var magnitude: nat := if v < 0 then -v else v;
    assert magnitude == Value(digits);
    k := SignedDigits(sign, digits);
  }

  /** A sign followed by digits is the sign, some zeros, and the decimal text of the digits' value. */
  lemma SignedDigits(sign: string, digits: string) returns (k: nat)
    requires AllDigits(digits) && |digits| > 0
    ensures sign + digits == sign + Zeros(k) + ShowNat(Value(digits))
  {
    k := ZerosThenNumber(digits);
    assert sign + (Zeros(k) + ShowNat(Value(digits))) == sign + Zeros(k) + ShowNat(Value(digits));
  }

  /** An accepted string is an optional sign and the digits of the value's magnitude. */
  lemma ParseIntDigits(s: string)
    requires ParseInt(s).Some?
    ensures var digits := if s[0] == '-' || s[0] == '+' then s[1..] else s;
            && |digits| > 0 && AllDigits(digits)
            && ParseInt(s).value == if s[0] == '-' then -(Value(digits) as int) else Value(digits)
  {
  }

  /** The other direction: every string of that form whose value fits an `int` parses to that value. */
  lemma ParseNumeral(sign: string, k: nat, n: nat)
    requires sign == "" || sign == "+" || sign == "-"
    requires IsInt32(if sign == "-" then -(n as int) else n)
    ensures ParseInt(sign + Zeros(k) + ShowNat(n)) == Some(if sign == "-" then -(n as int) else n)
  {
    var digits := Zeros(k) + ShowNat(n);
    ValueShowNat(n);
    ValueLeadingZeros(k, ShowNat(n));
    assert |digits| > 0 && AllDigits(digits) && Value(digits) == n;
    var s := sign + digits;
    assert s == sign + Zeros(k) + ShowNat(n);
    if sign == "" {
      assert s == digits && IsDigit(s[0]);
    } else if sign == "-" {
      assert s[0] == '-' && s[1..] == digits;
      assert ParseInt(s) == Some(-(n as int));
    } else {
      assert s[0] == '+' && s[1..] == digits;
      assert ParseInt(s) == Some(n);
    }
  }
}
