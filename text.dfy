/**
 * Text primitives of the Kotlin/Java platform that the core relies on:
 * `Character.digit`, `Int.toString`, `String.toIntOrNull` and
 * `String.split` with a one-character delimiter.
 */
module Text {
  import opened Wrappers

  /** Kotlin's `Int`: a 32-bit two's complement integer. */
  type int32 = x: int | -0x8000_0000 <= x < 0x8000_0000

  /**
   * `Character.digit(c, radix)`: the value of `c` as a digit in `radix`, or -1.
   * ASCII digits and Latin letters and their fullwidth forms are recognised;
   * a radix outside 2..36 gives -1.
   */
  function Digit(c: char, radix: int): (d: int)
    ensures d == -1 || 0 <= d < radix
    ensures '0' <= c <= '9' && 10 <= radix <= 36 ==> d == c as int - '0' as int
  {
    var n := c as int;
    var v :=
      if 0x30 <= n <= 0x39 then n - 0x30                // '0'..'9'
      else if 0xFF10 <= n <= 0xFF19 then n - 0xFF10     // fullwidth digits
      else if 0x41 <= n <= 0x5A then n - 0x41 + 10      // 'A'..'Z'
      else if 0x61 <= n <= 0x7A then n - 0x61 + 10      // 'a'..'z'
      else if 0xFF21 <= n <= 0xFF3A then n - 0xFF21 + 10 // fullwidth 'A'..'Z'
      else if 0xFF41 <= n <= 0xFF5A then n - 0xFF41 + 10 // fullwidth 'a'..'z'
      else -1;
    if 2 <= radix <= 36 && v < radix then v else -1
  }

  /** The ASCII character of a decimal digit. */
  function DecimalChar(d: nat): (c: char)
    requires d < 10
    ensures Digit(c, 10) == d
  {
    ('0' as int + d) as char
  }

  // ---------------------------------------------------------------------
  // Int.toString

  /** Decimal notation of a natural number, most significant digit first, no leading zeros. */
  function NatToString(n: nat): (s: string)
    decreases n
  {
    if n < 10 then [DecimalChar(n)] else NatToString(n / 10) + [DecimalChar(n % 10)]
  }

  /** Kotlin's `Int.toString()` (as used by a string template). */
  function IntToString(n: int): string {
    if n < 0 then "-" + NatToString(-n) else NatToString(n)
  }

  // ---------------------------------------------------------------------
  // String.toIntOrNull

  predicate AllDigits(s: string) {
    forall i :: 0 <= i < |s| ==> Digit(s[i], 10) >= 0
  }

  /** The value of a string of decimal digits. */
  function DigitsValue(s: string): nat
    requires AllDigits(s)
  {
    if s == [] then 0 else DigitsValue(s[..|s| - 1]) * 10 + Digit(s[|s| - 1], 10)
  }

  /**
   * Kotlin's `String.toIntOrNull()`: an optional sign `+` or `-`, then at least
   * one decimal digit; `None` when the text is malformed or the value is outside
   * the range of `Int`.
   */
  function ToIntOrNull(s: string): Option<int32> {
    if |s| == 0 then None
    else
      var digits := if s[0] == '-' || s[0] == '+' then s[1..] else s;
      if |digits| == 0 || !AllDigits(digits) then None
      else
        var v: int := if s[0] == '-' then 0 - DigitsValue(digits) as int else DigitsValue(digits);
        if -0x8000_0000 <= v < 0x8000_0000 then Some(v) else None
  }

  lemma {:induction false} NatToStringIsDecimal(n: nat)
    ensures var s := NatToString(n);
      |s| >= 1 && AllDigits(s) && DigitsValue(s) == n && '0' <= s[0] <= '9'
    decreases n
  {
    var s := NatToString(n);
    if n >= 10 {
      NatToStringIsDecimal(n / 10);
      var p := NatToString(n / 10);
      assert s == p + [DecimalChar(n % 10)];
      assert s[..|s| - 1] == p;
    }
  }

  /** `toIntOrNull` reads back every `Int` that `toString` writes. */
  lemma IntToStringRoundTrip(n: int32)
    ensures ToIntOrNull(IntToString(n)) == Some(n)
  {
    var s := IntToString(n);
    if n < 0 {
      var m: nat := 0 - n as int;
      NatToStringIsDecimal(m);
      assert s[0] == '-' && s[1..] == NatToString(m);
      assert DigitsValue(s[1..]) == m;
    } else {
      NatToStringIsDecimal(n);
      assert s == NatToString(n) && s[0] != '-' && s[0] != '+';
    }
  }

  /** The decimal notation of an integer contains no character but digits and `-`. */
  lemma {:induction false} IntToStringHasNoSeparator(n: int, sep: char)
    requires sep != '-' && !('0' <= sep <= '9')
    ensures sep !in IntToString(n)
  {
    var m: nat := if n < 0 then -n else n;
    NatToStringIsDecimal(m);
    NatToStringChars(m);
  }

  lemma {:induction false} NatToStringChars(n: nat)
    ensures forall c | c in NatToString(n) :: '0' <= c <= '9'
    decreases n
  {
    if n >= 10 {
      NatToStringChars(n / 10);
    }
  }

  // ---------------------------------------------------------------------
  // String.split with a one-character delimiter

  /**
   * Kotlin's `s.split(sep)`: the maximal pieces of `s` between occurrences of
   * `sep`, empty pieces (also trailing ones) kept; never an empty list.
   */
  function Split(s: string, sep: char): (parts: seq<string>)
    ensures |parts| >= 1
  {
    if s == [] then [""]
    else
      var rest := Split(s[1..], sep);
      if s[0] == sep then [""] + rest else [[s[0]] + rest[0]] + rest[1..]
  }

  /** The pieces joined back with `sep` between them. */
  function Join(parts: seq<string>, sep: char): string {
    if parts == [] then ""
    else if |parts| == 1 then parts[0]
    else parts[0] + [sep] + Join(parts[1..], sep)
  }

  /** Number of occurrences of `c` in `s`. */
  function Count(s: string, c: char): nat {
    if s == [] then 0 else (if s[0] == c then 1 else 0) + Count(s[1..], c)
  }

  /** Occurrences in a concatenation add up; a character is counted exactly when it occurs. */
  lemma {:induction false} CountConcat(a: string, b: string, c: char)
    ensures Count(a + b, c) == Count(a, c) + Count(b, c)
    ensures Count(a, c) >= 1 <==> c in a
  {
    if a != [] {
      assert (a + b)[1..] == a[1..] + b;
      CountConcat(a[1..], b, c);
    } else {
      assert a + b == b;
    }
  }

  /** Splitting yields one more piece than there are separators. */
  lemma {:induction false} SplitCount(s: string, sep: char)
    ensures |Split(s, sep)| == Count(s, sep) + 1
  {
    if s != [] {
      SplitCount(s[1..], sep);
    }
  }

  /** Split loses nothing: joining the pieces with the separator restores the text. */
  lemma {:induction false} JoinSplit(s: string, sep: char)
    ensures Join(Split(s, sep), sep) == s
  {
    if s != [] {
      JoinSplit(s[1..], sep);
      var rest := Split(s[1..], sep);
      if s[0] == sep {
        assert ([""] + rest)[1..] == rest;
      } else {
        JoinExtendFirst(s[0], rest, sep);
      }
      assert [s[0]] + s[1..] == s;
    }
  }

  /** Prefixing a character to the first piece prefixes it to the joined text. */
  lemma JoinExtendFirst(c: char, parts: seq<string>, sep: char)
    requires |parts| >= 1
    ensures Join([[c] + parts[0]] + parts[1..], sep) == [c] + Join(parts, sep)
  {
    var ext := [[c] + parts[0]] + parts[1..];
    assert ext[1..] == parts[1..];
  }

  /** No piece of a split holds the separator. */
  lemma {:induction false} SplitPiecesOmitSeparator(s: string, sep: char)
    ensures forall p | p in Split(s, sep) :: sep !in p
  {
    if s != [] {
      SplitPiecesOmitSeparator(s[1..], sep);
      var rest := Split(s[1..], sep);
      var parts := Split(s, sep);
      if s[0] != sep {
        assert parts == [[s[0]] + rest[0]] + rest[1..];
        forall p | p in parts ensures sep !in p {
          if p == parts[0] {
            assert rest[0] in rest;
          } else {
            assert p in rest;
          }
        }
      }
    }
  }


  /** A separator-free piece followed by the separator splits off as the first piece. */
  lemma {:induction false} SplitAfterPiece(x: string, sep: char, rest: string)
    requires sep !in x
    ensures Split(x + [sep] + rest, sep) == [x] + Split(rest, sep)
  {
    if x == [] {
      assert x + [sep] + rest == [sep] + rest;
      assert ([sep] + rest)[1..] == rest;
    } else {
      SplitAfterPiece(x[1..], sep, rest);
      assert (x + [sep] + rest)[1..] == x[1..] + [sep] + rest;
      assert [x[0]] + x[1..] == x;
    }
  }

  /** A separator-free text is a single piece. */
  lemma {:induction false} SplitSinglePiece(x: string, sep: char)
    requires sep !in x
    ensures Split(x, sep) == [x]
  {
    if x != [] {
      SplitSinglePiece(x[1..], sep);
      assert [x[0]] + x[1..] == x;
    }
  }

  /** Join then split is the identity when no piece holds the separator. */
  lemma {:induction false} SplitJoin(parts: seq<string>, sep: char)
    requires |parts| >= 1
    requires forall p | p in parts :: sep !in p
    ensures Split(Join(parts, sep), sep) == parts
  {
    if |parts| == 1 {
      SplitSinglePiece(parts[0], sep);
    } else {
      SplitJoin(parts[1..], sep);
      SplitAfterPiece(parts[0], sep, Join(parts[1..], sep));
      assert [parts[0]] + parts[1..] == parts;
    }
  }
}
