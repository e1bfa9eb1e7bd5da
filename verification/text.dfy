/** The .NET string primitives the networking code relies on, restated over
    `seq<char>`: ordinal substring search, `Split` on one separator
    character, ordinal case-insensitive equality and `int.TryParse`. */
module Text {
  import opened Wrappers

  const Int32Min: int := -0x8000_0000
  const Int32Max: int := 0x7FFF_FFFF

  /** The C# `int`. */
  type Int32 = x: int | Int32Min <= x <= Int32Max

  /** `n` copies of the line `m`. */
  function Repeat(m: string, n: nat): (r: seq<string>)
    ensures |r| == n && forall k | 0 <= k < n :: r[k] == m
    decreases n
  {
    if n == 0 then [] else [m] + Repeat(m, n - 1)
  }

  // ---------------------------------------------------------------------
  // Ordinal substring search (`string.Contains(string)`)
  // ---------------------------------------------------------------------

  /** `sub` occurs in `s` starting at index `i`. */
  predicate OccursAt(s: string, sub: string, i: int) {
    0 <= i && i + |sub| <= |s| && s[i..i + |sub|] == sub
  }

  /** Ordinal, case-sensitive `s.Contains(sub)`. */
  predicate Contains(s: string, sub: string) {
    exists i | 0 <= i <= |s| - |sub| :: OccursAt(s, sub, i)
  }

  lemma ContainsPrefix(sub: string, rest: string)
    ensures Contains(sub + rest, sub)
  {
    assert OccursAt(sub + rest, sub, 0);
  }

  // ---------------------------------------------------------------------
  // `string.Split(char)`: every separator splits, empty parts are kept
  // ---------------------------------------------------------------------

  /** The parts of `s` between occurrences of `c`, as `s.Split(c)` returns
      them: there is always at least one part, consecutive separators yield
      empty parts, and no part contains the separator. */
  function Split(s: string, c: char): (parts: seq<string>)
    ensures |parts| >= 1
    ensures forall k | 0 <= k < |parts| :: c !in parts[k]
    decreases |s|
  {
    if |s| == 0 then [""]
    else
      var rest := Split(s[1..], c);
      if s[0] == c then [""] + rest
      else [[s[0]] + rest[0]] + rest[1..]
  }

  /** `string.Join(c, parts)`: the inverse of `Split`. */
  function Join(parts: seq<string>, c: char): string
    requires |parts| >= 1
    decreases |parts|
  {
    if |parts| == 1 then parts[0] else parts[0] + [c] + Join(parts[1..], c)
  }

  /** Splitting loses nothing: joining the parts back with the separator
      gives the original text. */
  lemma {:induction false} JoinSplit(s: string, c: char)
    ensures Join(Split(s, c), c) == s
    decreases |s|
  {
    if |s| > 0 {
      var rest := Split(s[1..], c);
      JoinSplit(s[1..], c);
      if s[0] == c {
        assert Split(s, c) == [""] + rest;
        assert ([""] + rest)[1..] == rest;
        assert s == [c] + s[1..];
      } else {
        var parts := [[s[0]] + rest[0]] + rest[1..];
        assert Split(s, c) == parts;
        if |rest| == 1 {
          assert parts == [[s[0]] + rest[0]];
          assert s == [s[0]] + s[1..];
        } else {
          assert parts[1..] == rest[1..];
          assert Join(rest, c) == rest[0] + [c] + Join(rest[1..], c);
          assert s == [s[0]] + s[1..];
        }
      }
    }
  }

  /** Text without the separator is one part. */
  lemma {:induction false} SplitWithoutSeparator(t: string, c: char)
    requires c !in t
    ensures Split(t, c) == [t]
    decreases |t|
  {
    if |t| > 0 {
      assert c !in t[1..] by {
        forall k | 0 <= k < |t[1..]| ensures t[1..][k] != c {
          assert t[1..][k] == t[k + 1];
        }
      }
      SplitWithoutSeparator(t[1..], c);
      assert [t[0]] + t[1..] == t;
    }
  }

  /** A separator-free head followed by the separator becomes the first part. */
  lemma {:induction false} SplitAfterHead(head: string, c: char, tail: string)
    requires c !in head
    ensures Split(head + [c] + tail, c) == [head] + Split(tail, c)
    decreases |head|
  {
    var s := head + [c] + tail;
    if |head| == 0 {
      assert s == [c] + tail;
      assert s[1..] == tail;
    } else {
      assert s[1..] == head[1..] + [c] + tail;
      assert c !in head[1..] by {
        forall k | 0 <= k < |head[1..]| ensures head[1..][k] != c {
          assert head[1..][k] == head[k + 1];
        }
      }
      SplitAfterHead(head[1..], c, tail);
      assert [head[0]] + head[1..] == head;
    }
  }

  // ---------------------------------------------------------------------
  // `string.Equals(a, b, StringComparison.OrdinalIgnoreCase)`
  // ---------------------------------------------------------------------

  /** Upper-case mapping of the ASCII letters; every other character maps
      to itself. */
  function UpperAscii(ch: char): (u: char)
    ensures 'a' <= ch <= 'z' ==> u as int == ch as int - 32
    ensures !('a' <= ch <= 'z') ==> u == ch
  {
    if 'a' <= ch <= 'z' then (ch as int - 32) as char else ch
  }

  function ToUpper(s: string): (u: string)
    ensures |u| == |s|
    ensures forall i | 0 <= i < |s| :: u[i] == UpperAscii(s[i])
  {
    seq(|s|, i requires 0 <= i < |s| => UpperAscii(s[i]))
  }

  /** Ordinal case-insensitive equality: same length and equal after
      upper-casing every character. */
  predicate EqualsIgnoreCase(a: string, b: string) {
    |a| == |b| && forall i | 0 <= i < |a| :: UpperAscii(a[i]) == UpperAscii(b[i])
  }

  /** Case-insensitive equality is equality of the upper-cased texts, so it
      is an equivalence relation. */
  lemma EqualsIgnoreCaseIsUpperEquality(a: string, b: string)
    ensures EqualsIgnoreCase(a, b) <==> ToUpper(a) == ToUpper(b)
  {
    if ToUpper(a) == ToUpper(b) {
      assert |a| == |b|;
      forall i | 0 <= i < |a| ensures UpperAscii(a[i]) == UpperAscii(b[i]) {
        assert ToUpper(a)[i] == ToUpper(b)[i];
      }
    }
  }

  // ---------------------------------------------------------------------
  // `int.TryParse(string, out int)` with the default NumberStyles.Integer
  // ---------------------------------------------------------------------

  /** The white space `NumberStyles.Integer` lets surround the number. */
  predicate IsWhite(ch: char) {
    ch == ' ' || '\U{9}' <= ch <= '\U{D}'
  }

  predicate IsDigit(ch: char) {
    '0' <= ch <= '9'
  }

  predicate AllDigits(s: string) {
    forall i | 0 <= i < |s| :: IsDigit(s[i])
  }

  function TrimStart(s: string): (t: string)
    ensures |t| <= |s|
    ensures |t| > 0 ==> !IsWhite(t[0])
    decreases |s|
  {
    if |s| > 0 && IsWhite(s[0]) then TrimStart(s[1..]) else s
  }

  function TrimEnd(s: string): (t: string)
    ensures |t| <= |s|
    ensures |t| > 0 ==> !IsWhite(t[|t| - 1])
    decreases |s|
  {
    if |s| > 0 && IsWhite(s[|s| - 1]) then TrimEnd(s[..|s| - 1]) else s
  }

  /** Value of a run of decimal digits, most significant first. */
  function DigitsValue(s: string): nat
    requires AllDigits(s)
    decreases |s|
  {
    if |s| == 0 then 0
    else DigitsValue(s[..|s| - 1]) * 10 + (s[|s| - 1] as int - '0' as int)
  }

  /** `int.TryParse`: optional surrounding white space, an optional sign,
      at least one digit, and a value inside the 32-bit range. */
  function TryParseInt(s: string): (r: Option<int>)
    ensures r.Some? ==> Int32Min <= r.value <= Int32Max
  {
    ParseTrimmed(TrimEnd(TrimStart(s)))
  }

  /** The sign and digits left once the white space is trimmed. */
  function ParseTrimmed(t: string): (r: Option<int>)
    ensures r.Some? ==> Int32Min <= r.value <= Int32Max
  {
    if |t| == 0 then None
    else
      var negative := t[0] == '-';
      var body := if t[0] == '-' || t[0] == '+' then t[1..] else t;
      if |body| == 0 || !AllDigits(body) then None
      else
        var v: int := if negative then 0 - (DigitsValue(body) as int) else DigitsValue(body);
        if Int32Min <= v <= Int32Max then Some(v) else None
  }

  /** Decimal digits of a natural number, as `int.ToString` writes them. */
  function Digits(n: nat): (s: string)
    ensures |s| >= 1 && AllDigits(s)
    decreases n
  {
    if n < 10 then [('0' as int + n) as char]
    else Digits(n / 10) + [('0' as int + n % 10) as char]
  }

  /** `int.ToString()` with the invariant culture. */
  function ShowInt(n: int): (s: string)
    ensures |s| >= 1
  {
    if n < 0 then "-" + Digits(-n) else Digits(n)
  }

  lemma {:induction false} DigitsValueOfDigits(n: nat)
    ensures DigitsValue(Digits(n)) == n
    decreases n
  {
    if n >= 10 {
      var s := Digits(n);
      DigitsValueOfDigits(n / 10);
      assert s[..|s| - 1] == Digits(n / 10);
    }
  }

  lemma DigitsHaveNoWhite(n: nat)
    ensures forall i | 0 <= i < |Digits(n)| :: !IsWhite(Digits(n)[i]) && Digits(n)[i] != ' '
  {
  }

  /** Parsing is the inverse of printing on the 32-bit range. */
  lemma TryParseShowInt(n: int)
    requires Int32Min <= n <= Int32Max
    ensures TryParseInt(ShowInt(n)) == Some(n)
  {
    if n < 0 {
      TryParseNegative(n);
    } else {
      TryParseNonNegative(n);
    }
  }

  lemma TryParseNonNegative(n: nat)
    requires n <= Int32Max
    ensures TryParseInt(Digits(n)) == Some(n)
  {
    DigitsHaveNoWhite(n);
    DigitsValueOfDigits(n);
    ParseDigits(Digits(n), n);
  }

  lemma TryParseNegative(n: int)
    requires Int32Min <= n < 0
    ensures TryParseInt(ShowInt(n)) == Some(n)
  {
    var m: nat := 0 - n;
    var d := Digits(m);
    assert ShowInt(n) == "-" + d;
    DigitsHaveNoWhite(m);
    DigitsValueOfDigits(m);
    ParseNegatedDigits(d, m);
  }

  /** A bare run of digits worth at most `int.MaxValue` parses to its
      value. */
  lemma ParseDigits(d: string, m: nat)
    requires |d| > 0 && AllDigits(d) && DigitsValue(d) == m <= Int32Max
    requires forall i | 0 <= i < |d| :: !IsWhite(d[i])
    ensures TryParseInt(d) == Some(m)
  {
    Untrimmed(d);
  }

  /** A minus sign before a run of digits worth at most 2^31 parses to the
      negated value. */
  lemma ParseNegatedDigits(d: string, m: nat)
    requires |d| > 0 && AllDigits(d) && DigitsValue(d) == m <= 0 - Int32Min
    requires forall i | 0 <= i < |d| :: !IsWhite(d[i])
    ensures TryParseInt("-" + d) == Some(0 - m)
  {
    var s := "-" + d;
    assert s[0] == '-' && !IsWhite(s[0]);
    assert s[|s| - 1] == d[|d| - 1];
    Untrimmed(s);
    assert s[1..] == d;
  }

  /** Trimming leaves a string alone whose ends are not white space. */
  lemma Untrimmed(s: string)
    requires |s| > 0 && !IsWhite(s[0]) && !IsWhite(s[|s| - 1])
    ensures TrimEnd(TrimStart(s)) == s
  {
    assert TrimStart(s) == s;
  }

  /** The printed form of a number never contains a space. */
  lemma ShowIntHasNoSpace(n: int)
    ensures ' ' !in ShowInt(n)
  {
    DigitsHaveNoWhite(if n < 0 then -n else n);
  }

  /** The second part of a `groupId` line is accepted with surrounding
      white space and a sign. */
  lemma TryParseAccepts()
    ensures TryParseInt(" 42\t") == Some(42)
    ensures TryParseInt("+7") == Some(7)
  {
    assert TrimStart(" 42\t") == "42\t" by {
      assert " 42\t"[1..] == "42\t";
    }
    assert TrimEnd("42\t") == "42" by {
      assert "42\t"[..2] == "42";
    }
    assert DigitsValue("42") == 42 by {
      assert "42"[..1] == "4";
      assert DigitsValue("4") == 4 by { assert "4"[..0] == ""; }
    }
    assert DigitsValue("7") == 7 by { assert "7"[..0] == ""; }
    assert "+7"[1..] == "7";
  }

  /** It is refused when empty, when only a sign, when it holds anything
      but digits, and when it leaves the 32-bit range. */
  lemma TryParseRejects()
    ensures TryParseInt("") == None
    ensures TryParseInt("-") == None
    ensures TryParseInt("4x") == None
    ensures TryParseInt("2147483648") == None
  {
    assert "-"[1..] == "";
    assert !IsDigit("4x"[1]);
    var big := "2147483648";
    assert TrimStart(big) == big;
    assert TrimEnd(big) == big;
    DigitsValueOfDigits(2147483648);
    DigitsOfMaxPlusOne();
  }

  lemma DigitsOfMaxPlusOne()
    ensures Digits(2147483648) == "2147483648"
  {
    assert Digits(2) == "2";
    assert Digits(21) == "21";
    assert Digits(214) == "214";
    assert Digits(2147) == "2147";
    assert Digits(21474) == "21474";
    assert Digits(214748) == "214748";
    assert Digits(2147483) == "2147483";
    assert Digits(21474836) == "21474836";
    assert Digits(214748364) == "214748364";
  }
}
