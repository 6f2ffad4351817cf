/**
 * The pieces of Ruby's core library the UDP backend relies on, stated on
 * `string` (a sequence of characters): Integer#to_s for the event header
 * lengths, String#to_i for the port, String#split with a limit of 2 for
 * the connection string, Array#join for the tags and String#tr for the
 * event title and text.
 */
module Text {

  predicate IsDigit(c: char) {
    '0' <= c <= '9'
  }

  predicate AllDigits(s: string) {
    forall i :: 0 <= i < |s| ==> IsDigit(s[i])
  }

  function DigitChar(d: nat): (c: char)
    requires d < 10
    ensures IsDigit(c) && c as int - '0' as int == d
  {
    ('0' as int + d) as char
  }

  function DigitValue(c: char): nat
    requires IsDigit(c)
  {
    c as int - '0' as int
  }

  /** Integer#to_s of a non-negative integer: its decimal digits, most significant first. */
  function Decimal(n: nat): (s: string)
    ensures |s| > 0 && AllDigits(s)
    ensures s[0] == '0' <==> n == 0
    ensures n == 0 ==> s == "0"
  {
    if n < 10 then [DigitChar(n)] else Decimal(n / 10) + [DigitChar(n % 10)]
  }

  /** The number a string of decimal digits denotes. */
  function DigitsValue(s: string): nat
    requires AllDigits(s)
  {
    if s == [] then 0 else DigitsValue(s[..|s| - 1]) * 10 + DigitValue(s[|s| - 1])
  }

  /** Reading back the digits Decimal writes gives the number. */
  lemma {:induction false} DecimalValue(n: nat)
    ensures DigitsValue(Decimal(n)) == n
  {
    if n >= 10 {
      DecimalValue(n / 10);
      var s := Decimal(n);
      assert s[..|s| - 1] == Decimal(n / 10);
    }
  }

  /** The white space String#to_i skips before the number. */
  predicate IsSpace(c: char) {
    c == ' ' || c == '\t' || c == '\n' || c == '\U{B}' || c == '\U{C}' || c == '\r'
  }

  function SkipSpace(s: string): (t: string)
    ensures |t| <= |s| && t == s[|s| - |t|..]
    ensures t == [] || !IsSpace(t[0])
  {
    if s != [] && IsSpace(s[0]) then SkipSpace(s[1..]) else s
  }

  /**
   * The digits of the number String#to_i reads at the start of `s`: a run
   * of decimal digits in which a single underscore may stand between two
   * digits. The run ends at any other character, at a second underscore
   * and at a trailing underscore.
   */
  function LeadingDigits(s: string): (d: string)
    ensures AllDigits(d) && |d| <= |s|
  {
    if s == [] || !IsDigit(s[0]) then []
    else if |s| >= 3 && s[1] == '_' && IsDigit(s[2]) then [s[0]] + LeadingDigits(s[2..])
    else [s[0]] + LeadingDigits(s[1..])
  }

  /**
   * String#to_i in base 10: leading white space, an optional sign, then the
   * leading digits; 0 when there are none.
   */
  function ToI(s: string): int {
    var t := SkipSpace(s);
    if t != [] && t[0] == '-' then -(DigitsValue(LeadingDigits(t[1..])) as int)
    else if t != [] && t[0] == '+' then DigitsValue(LeadingDigits(t[1..]))
    else DigitsValue(LeadingDigits(t))
  }

  /**
   * String#to_i never makes up a number: a negative result needs a minus
   * sign after the white space, and a non-zero one a digit in the text.
   */
  lemma ToISign(s: string)
    ensures ToI(s) < 0 ==> SkipSpace(s) != [] && SkipSpace(s)[0] == '-'
    ensures ToI(s) != 0 ==> exists i :: 0 <= i < |s| && IsDigit(s[i])
  {
    var t := SkipSpace(s);
    var k := |s| - |t|;
    assert t == s[k..];
    var signed := t != [] && (t[0] == '-' || t[0] == '+');
    var u := if signed then t[1..] else t;
    var d := LeadingDigits(u);
    assert ToI(s) == DigitsValue(d) || ToI(s) == -(DigitsValue(d) as int);
    assert ToI(s) < 0 ==> signed && t[0] == '-';
    if d != [] {
      assert IsDigit(u[0]);
      var i := if signed then k + 1 else k;
      assert s[i] == u[0];
    }
  }

  lemma {:induction false} LeadingDigitsOfDigits(d: string)
    requires AllDigits(d)
    ensures LeadingDigits(d) == d
  {
    if d != [] {
      LeadingDigitsOfDigits(d[1..]);
    }
  }

  /** String#to_i reads back what Integer#to_s writes: `n.to_s.to_i == n`. */
  lemma ToIDecimal(n: nat)
    ensures ToI(Decimal(n)) == n
  {
    var s := Decimal(n);
    assert SkipSpace(s) == s;
    LeadingDigitsOfDigits(s);
    DecimalValue(n);
  }

  /** Where the digits stop: at the end, or at a character that is neither a digit nor an underscore. */
  predicate StopsNumber(rest: string) {
    rest == [] || (!IsDigit(rest[0]) && rest[0] != '_')
  }

  lemma {:induction false} LeadingDigitsStop(d: string, rest: string)
    requires AllDigits(d) && StopsNumber(rest)
    ensures LeadingDigits(d + rest) == d
  {
    var s := d + rest;
    if d != [] {
      assert s[0] == d[0];
      assert s[1..] == d[1..] + rest;
      if |s| >= 2 {
        if |d| >= 2 { assert s[1] == d[1]; } else { assert s[1] == rest[0]; }
      }
      LeadingDigitsStop(d[1..], rest);
      assert LeadingDigits(s) == [d[0]] + LeadingDigits(s[1..]);
    } else {
      assert s == rest;
    }
  }

  /** A run of digits, then something that stops the number, reads as the run. */
  lemma ToIDigitsThen(d: string, rest: string)
    requires d != [] && AllDigits(d) && StopsNumber(rest)
    ensures ToI(d + rest) == DigitsValue(d)
  {
    var s := d + rest;
    assert SkipSpace(s) == s by {
      assert s[0] == d[0];
    }
    LeadingDigitsStop(d, rest);
  }

  /** String#to_i reads the leading number and ignores what follows it: `"80:90".to_i == 80`. */
  lemma ToIDecimalThen(n: nat, rest: string)
    requires StopsNumber(rest)
    ensures ToI(Decimal(n) + rest) == n
  {
    ToIDigitsThen(Decimal(n), rest);
    DecimalValue(n);
  }

  /** The same holds for a negative number written with a minus sign. */
  lemma ToINegative(n: nat)
    ensures ToI("-" + Decimal(n)) == -(n as int)
  {
    var d := Decimal(n);
    var s := "-" + d;
    assert SkipSpace(s) == s;
    assert s[1..] == d;
    LeadingDigitsOfDigits(d);
    DecimalValue(n);
    assert ToI(s) == -(DigitsValue(d) as int);
  }

  /** Text that does not start with a digit, a sign or white space reads as 0. */
  lemma ToINonNumeric(s: string)
    requires s == [] || (!IsDigit(s[0]) && !IsSpace(s[0]) && s[0] != '+' && s[0] != '-')
    ensures ToI(s) == 0
  {
  }

  /** The index of the first occurrence of `x` in `s`. */
  function IndexOf<T(==)>(s: seq<T>, x: T): (i: nat)
    requires x in s
    ensures i < |s| && s[i] == x && x !in s[..i]
  {
    if s[0] == x then 0 else 1 + IndexOf(s[1..], x)
  }

  /** An element of a prefix is found at the same place in any extension of it. */
  lemma {:induction false} IndexOfPrefix<T>(s: seq<T>, t: seq<T>, x: T)
    requires x in s
    ensures IndexOf(s + t, x) == IndexOf(s, x)
  {
    if s[0] != x {
      assert (s + t)[1..] == s[1..] + t;
      IndexOfPrefix(s[1..], t, x);
    }
  }

  /** The index is determined by its contract. */
  lemma IndexOfUnique<T>(s: seq<T>, x: T, i: nat)
    requires i < |s| && s[i] == x && x !in s[..i]
    ensures IndexOf(s, x) == i
  {
  }

  /**
   * Ruby's `s.split(c, 2)`: no fields for the empty string, the whole
   * string when `c` does not occur, and otherwise the text before the first
   * `c` and everything after it.
   */
  function SplitOnce(s: string, c: char): (parts: seq<string>)
    ensures |parts| <= 2
    ensures parts == [] <==> s == []
    ensures |parts| == 1 ==> c !in s && parts[0] == s
    ensures |parts| == 2 ==> c !in parts[0] && s == parts[0] + [c] + parts[1]
  {
    if s == [] then []
    else if c !in s then [s]
    else
      var i := IndexOf(s, c);
      assert s == s[..i] + [c] + s[i + 1..];
      [s[..i], s[i + 1..]]
  }

  /**
   * Array#join: the parts with `sep` between each two of them; a single
   * part is written as it is, without a separator.
   */
  function Join(parts: seq<string>, sep: string): (r: string)
    ensures |parts| == 1 ==> r == parts[0]
  {
    if parts == [] then ""
    else if |parts| == 1 then parts[0]
    else parts[0] + sep + Join(parts[1..], sep)
  }

  /** Array#join invents no character: each one comes from a part or from the separator. */
  lemma {:induction false} JoinChars(parts: seq<string>, sep: string, ch: char)
    requires ch in Join(parts, sep)
    ensures ch in sep || exists k :: 0 <= k < |parts| && ch in parts[k]
  {
    if |parts| > 1 {
      var rest := Join(parts[1..], sep);
      assert Join(parts, sep) == parts[0] + sep + rest;
      if ch !in parts[0] && ch !in sep {
        assert ch in rest;
        JoinChars(parts[1..], sep, ch);
        if ch !in sep {
          var k :| 0 <= k < |parts[1..]| && ch in parts[1..][k];
          assert ch in parts[k + 1];
        }
      }
    } else if |parts| == 1 {
      assert ch in parts[0];
    }
  }

  /** The fields of `s` between the occurrences of `c`. */
  function Split(s: string, c: char): (parts: seq<string>)
    ensures |parts| > 0
    decreases |s|
  {
    if c in s then
      var i := IndexOf(s, c);
      [s[..i]] + Split(s[i + 1..], c)
    else [s]
  }

  /** Joining with a one-character separator loses nothing when no part contains it. */
  lemma {:induction false} SplitJoin(parts: seq<string>, c: char)
    requires |parts| > 0
    requires forall k :: 0 <= k < |parts| ==> c !in parts[k]
    ensures Split(Join(parts, [c]), c) == parts
  {
    if |parts| > 1 {
      var p, rest := parts[0], Join(parts[1..], [c]);
      var s := p + [c] + rest;
      assert Join(parts, [c]) == s;
      assert s[|p|] == c && s[..|p|] == p;
      IndexOfUnique(s, c, |p|);
      assert s[|p| + 1..] == rest;
      SplitJoin(parts[1..], c);
    }
  }

  /**
   * The character `tr` turns `c` into, given two equally long tables read
   * literally, character by character. Ruby's `^` negation, `-` ranges,
   * backslash escapes and its rule for a character listed twice are not
   * modelled; none of them occurs in the tables the backend uses.
   */
  function TrChar(c: char, from: string, to: string): char
    requires |from| == |to|
  {
    if from == [] then c
    else if from[0] == c then to[0]
    else TrChar(c, from[1..], to[1..])
  }

  /** String#tr with equally long literal tables: every character is looked up on its own. */
  function Translate(s: string, from: string, to: string): (r: string)
    requires |from| == |to|
    ensures |r| == |s|
  {
    seq(|s|, i requires 0 <= i < |s| => TrChar(s[i], from, to))
  }

  lemma {:induction false} TrCharSameTable(c: char, t: string)
    ensures TrChar(c, t, t) == c
  {
    if t != [] && t[0] != c {
      TrCharSameTable(c, t[1..]);
    }
  }

  /** A literal translation whose two tables are the same changes nothing. */
  lemma TranslateSameTable(s: string, t: string)
    ensures Translate(s, t, t) == s
  {
    forall i | 0 <= i < |s|
      ensures Translate(s, t, t)[i] == s[i]
    {
      TrCharSameTable(s[i], t);
    }
  }
}
