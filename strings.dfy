/** The string primitives the renderer and the prompt builder rely on:
    Python's whitespace test, `str.strip`, `str.split` on one separator
    character, `str.join`, and decimal formatting of integers (`str(n)`,
    the `{:,}` format and zero-padded fields). */
module Strings {

  datatype Option<T> = None | Some(value: T)

  /** Python's `str.isspace()` for one character, which is also what `\s`
      matches in a `str` pattern of the `re` module: the five control
      characters TAB to CR, the four separators FS to US, SPACE, NEL,
      NO-BREAK SPACE and the Unicode space separators. */
  predicate IsSpace(c: char) {
    var n := c as int;
    (9 <= n <= 13) || (28 <= n <= 32) || n == 0x85 || n == 0xA0 || n == 0x1680
    || (0x2000 <= n <= 0x200A) || n == 0x2028 || n == 0x2029 || n == 0x202F
    || n == 0x205F || n == 0x3000
  }

  /** A string whose `strip()` is empty, i.e. one Python treats as false after stripping. */
  predicate IsBlank(s: string) {
    forall i :: 0 <= i < |s| ==> IsSpace(s[i])
  }

  /** `s.lstrip()`: drop leading whitespace. */
  function LStrip(s: string): string
    decreases |s|
  {
    if s != [] && IsSpace(s[0]) then LStrip(s[1..]) else s
  }

  /** `s.rstrip()`: drop trailing whitespace. */
  function RStrip(s: string): string
    decreases |s|
  {
    if s != [] && IsSpace(s[|s| - 1]) then RStrip(s[..|s| - 1]) else s
  }

  /** `lstrip` leaves the suffix that starts at the first non-space character. */
  lemma {:induction false} LStripFacts(s: string)
    ensures |LStrip(s)| <= |s| && LStrip(s) == s[|s| - |LStrip(s)|..]
    ensures LStrip(s) == [] || !IsSpace(LStrip(s)[0])
    ensures IsBlank(s[..|s| - |LStrip(s)|])
    decreases |s|
  {
    if s != [] && IsSpace(s[0]) {
      LStripFacts(s[1..]);
      var r := LStrip(s[1..]);
      assert s[1..][|s| - 1 - |r|..] == s[|s| - |r|..];
      assert s[..|s| - |r|] == [s[0]] + s[1..][..|s| - 1 - |r|];
    }
  }

  /** `rstrip` leaves the prefix that ends at the last non-space character. */
  lemma {:induction false} RStripFacts(s: string)
    ensures |RStrip(s)| <= |s| && RStrip(s) == s[..|RStrip(s)|]
    ensures RStrip(s) == [] || !IsSpace(RStrip(s)[|RStrip(s)| - 1])
    ensures IsBlank(s[|RStrip(s)|..])
    decreases |s|
  {
    if s != [] && IsSpace(s[|s| - 1]) {
      var t := s[..|s| - 1];
      RStripFacts(t);
      var r := RStrip(t);
      assert t[..|r|] == s[..|r|];
      assert s[|r|..] == t[|r|..] + [s[|s| - 1]];
    }
  }

  /** `s.strip()`. Its properties are stated by `StripFacts`, which callers
      invoke where they need them (attached to every use, they would make
      each proof that mentions several stripped strings far more costly). */
  function Strip(s: string): string {
    RStrip(LStrip(s))
  }

  /** `s.strip()` is empty exactly for blank text; otherwise it starts and
      ends with a non-space character; and it leaves text alone that
      already does. */
  lemma StripFacts(s: string)
    ensures |Strip(s)| <= |s|
    ensures Strip(s) == [] <==> IsBlank(s)
    ensures Strip(s) != [] ==> !IsSpace(Strip(s)[0]) && !IsSpace(Strip(s)[|Strip(s)| - 1])
    ensures (s == [] || (!IsSpace(s[0]) && !IsSpace(s[|s| - 1]))) ==> Strip(s) == s
  {
    var l := LStrip(s);
    var r := RStrip(l);
    LStripFacts(s);
    RStripFacts(l);
    assert l != [] ==> !IsBlank(s) && r != [] by {
      if l != [] {
        assert s[|s| - |l|] == l[0];
        assert l[0..] == l;
      }
    }
    assert l == [] ==> s[..|s|] == s;
  }

  /** Stripping only removes characters. */
  lemma StripKeepsOut(s: string, c: char)
    requires c !in s
    ensures c !in Strip(s)
  {
    var l := LStrip(s);
    LStripFacts(s);
    RStripFacts(l);
    assert forall x :: x in l ==> x in s;
    assert forall x :: x in RStrip(l) ==> x in l;
  }

  lemma StripIdempotent(s: string)
    ensures Strip(Strip(s)) == Strip(s)
  {
    StripFacts(s);
    StripFacts(Strip(s));
  }

  lemma Regroup<T>(a: seq<T>, b: seq<T>, c: seq<T>)
    ensures a + b + c == a + (b + c)
  {
  }

  lemma Cut<T>(a: seq<T>, b: seq<T>)
    ensures (a + b)[..|a|] == a && (a + b)[|a|..] == b
  {
  }

  /** A slice lying wholly in the second operand of a concatenation. */
  lemma Shift<T>(a: seq<T>, b: seq<T>, lo: int, hi: int)
    requires |a| <= lo <= hi <= |a| + |b|
    ensures (a + b)[lo..hi] == b[lo - |a|..hi - |a|]
  {
  }

  /** `s.startswith(prefix)`. */
  predicate StartsWith(s: string, prefix: string) {
    |prefix| <= |s| && s[..|prefix|] == prefix
  }

  /** `" ".join(parts)`, and in general `sep.join(parts)`. */
  function Join(parts: seq<string>, sep: string): (r: string)
    decreases |parts|
  {
    if parts == [] then []
    else if |parts| == 1 then parts[0]
    else parts[0] + sep + Join(parts[1..], sep)
  }

  /** `s.split(sep)` for a one-character separator: never empty, no piece
      contains the separator, and joining the pieces gives `s` back. */
  function Split(s: string, sep: char): (r: seq<string>)
    ensures |r| >= 1
    ensures forall i :: 0 <= i < |r| ==> sep !in r[i]
    ensures Join(r, [sep]) == s
    decreases |s|
  {
    if s == [] then [[]]
    else
      var rest := Split(s[1..], sep);
      if s[0] == sep then
        assert Join([[]] + rest, [sep]) == [sep] + Join(rest, [sep]) by {
          assert ([[]] + rest)[1..] == rest;
        }
        [[]] + rest
      else
        var r := [[s[0]] + rest[0]] + rest[1..];
        assert Join(r, [sep]) == s by {
          assert r[1..] == rest[1..];
          if |rest| > 1 {
            assert Join(rest, [sep]) == rest[0] + [sep] + Join(rest[1..], [sep]);
            assert s == [s[0]] + s[1..];
          } else {
            assert s == [s[0]] + s[1..];
          }
        }
        r
  }

  /** Splitting a join of separator-free pieces gives the pieces back: the
      two functions are inverse on such lists. */
  lemma {:induction false} SplitJoin(parts: seq<string>, sep: char)
    requires |parts| >= 1
    requires forall i :: 0 <= i < |parts| ==> sep !in parts[i]
    ensures Split(Join(parts, [sep]), sep) == parts
    decreases |parts|, |parts[0]|
  {
    var s := Join(parts, [sep]);
    if parts[0] == [] {
      if |parts| == 1 {
      } else {
        assert s == [sep] + Join(parts[1..], [sep]);
        assert s[1..] == Join(parts[1..], [sep]);
        SplitJoin(parts[1..], sep);
        assert parts == [[]] + parts[1..];
      }
    } else {
      var p0 := parts[0];
      var tail := [p0[1..]] + parts[1..];
      forall i | 0 <= i < |tail| ensures sep !in tail[i] {
        if i == 0 { assert forall c :: c in p0[1..] ==> c in p0; } else { assert tail[i] == parts[i]; }
      }
      assert s == [p0[0]] + Join(tail, [sep]) by {
        assert tail[1..] == parts[1..];
        assert p0 == [p0[0]] + p0[1..];
      }
      assert s[1..] == Join(tail, [sep]);
      SplitJoin(tail, sep);
      assert s[0] == p0[0] && p0[0] != sep;
      assert [[p0[0]] + tail[0]] + tail[1..] == parts by { assert p0 == [p0[0]] + p0[1..]; }
    }
  }

  /** A text without the separator is one piece. */
  lemma {:induction false} SplitWithoutSeparator(s: string, sep: char)
    requires sep !in s
    ensures Split(s, sep) == [s]
    decreases |s|
  {
    if s != [] {
      assert sep !in s[1..] by { assert forall x :: x in s[1..] ==> x in s; }
      SplitWithoutSeparator(s[1..], sep);
      assert s == [s[0]] + s[1..];
    }
  }

  /** One step of `Split`: the first character either closes an empty
      piece or starts the first piece of the rest. */
  lemma SplitCons(c: char, t: string, sep: char)
    ensures Split([c] + t, sep) ==
      if c == sep then [[]] + Split(t, sep) else [[c] + Split(t, sep)[0]] + Split(t, sep)[1..]
  {
    assert ([c] + t)[1..] == t;
  }

  lemma GlueFirst(x: string, r: seq<string>, q: seq<string>)
    requires |r| >= 1
    ensures [x + (r + q)[0]] + (r + q)[1..] == [x + r[0]] + r[1..] + q
  {
    assert (r + q)[1..] == r[1..] + q;
  }

  /** Splitting at a separator splits the two sides independently. */
  lemma {:induction false} SplitAround(a: string, sep: char, b: string)
    ensures Split(a + [sep] + b, sep) == Split(a, sep) + Split(b, sep)
    decreases |a|
  {
    if a == [] {
      assert a + [sep] + b == [sep] + b;
      SplitCons(sep, b, sep);
    } else {
      var c, t := a[0], a[1..];
      assert a == [c] + t;
      assert a + [sep] + b == [c] + (t + [sep] + b);
      SplitAround(t, sep, b);
      SplitCons(c, t + [sep] + b, sep);
      SplitCons(c, t, sep);
      var rt, rb := Split(t, sep), Split(b, sep);
      if c == sep {
        Regroup([[]], rt, rb);
      } else {
        GlueFirst([c], rt, rb);
      }
    }
  }

  /** Joining two non-empty lists puts the separator between their joins. */
  lemma {:induction false} JoinAppend(a: seq<string>, b: seq<string>, sep: string)
    requires a != [] && b != []
    ensures Join(a + b, sep) == Join(a, sep) + sep + Join(b, sep)
    decreases |a|
  {
    if |a| == 1 {
      assert (a + b)[1..] == b;
    } else {
      assert (a + b)[1..] == a[1..] + b;
      JoinAppend(a[1..], b, sep);
    }
  }

  /** Splitting a join at its separator: the parts in the middle that hold
      no separator come back unchanged, between the pieces of the two ends. */
  lemma LinesBetween(pre: seq<string>, mid: seq<string>, post: seq<string>)
    requires pre != [] && post != []
    requires forall j :: 0 <= j < |mid| ==> '\n' !in mid[j]
    ensures Split(Join(pre + mid + post, "\n"), '\n') == Split(Join(pre, "\n"), '\n') + mid + Split(Join(post, "\n"), '\n')
  {
    var a, c := Join(pre, "\n"), Join(post, "\n");
    if mid == [] {
      assert pre + mid + post == pre + post;
      JoinAppend(pre, post, "\n");
      SplitAround(a, '\n', c);
    } else {
      var b := Join(mid, "\n");
      SplitJoin(mid, '\n');
      assert pre + mid + post == pre + (mid + post);
      JoinAppend(pre, mid + post, "\n");
      JoinAppend(mid, post, "\n");
      assert Join(pre + mid + post, "\n") == a + "\n" + (b + "\n" + c);
      SplitAround(a, '\n', b + "\n" + c);
      SplitAround(b, '\n', c);
    }
  }

  function Occurrences(s: string, c: char): (n: nat)
    decreases |s|
  {
    if s == [] then 0 else (if s[0] == c then 1 else 0) + Occurrences(s[1..], c)
  }

  /** The number of pieces `split` produces: one more than the separators. */
  lemma {:induction false} SplitCount(s: string, sep: char)
    ensures |Split(s, sep)| == Occurrences(s, sep) + 1
    decreases |s|
  {
    if s != [] { SplitCount(s[1..], sep); }
  }

  lemma {:induction false} OccurrencesAbsent(s: string, c: char)
    requires c !in s
    ensures Occurrences(s, c) == 0
    decreases |s|
  {
    if s != [] { assert c !in s[1..] by { assert forall x :: x in s[1..] ==> x in s; } OccurrencesAbsent(s[1..], c); }
  }

  lemma {:induction false} OccurrencesConcat(a: string, b: string, c: char)
    ensures Occurrences(a + b, c) == Occurrences(a, c) + Occurrences(b, c)
    decreases |a|
  {
    if a != [] {
      assert (a + b)[1..] == a[1..] + b;
      OccurrencesConcat(a[1..], b, c);
    } else {
      assert a + b == b;
    }
  }

  lemma {:induction false} OccurrencesZero(s: string, c: char)
    requires Occurrences(s, c) == 0
    ensures c !in s
    decreases |s|
  {
    if s != [] {
      OccurrencesZero(s[1..], c);
      assert s == [s[0]] + s[1..];
    }
  }

  /** `s.replace(c, "")` for one character. */
  function RemoveAll(s: string, c: char): (r: string)
    ensures c !in r
    ensures forall x :: x in r ==> x in s
    decreases |s|
  {
    if s == [] then [] else (if s[0] == c then [] else [s[0]]) + RemoveAll(s[1..], c)
  }

  lemma {:induction false} RemoveAllConcat(a: string, b: string, c: char)
    ensures RemoveAll(a + b, c) == RemoveAll(a, c) + RemoveAll(b, c)
    decreases |a|
  {
    if a != [] {
      assert (a + b)[1..] == a[1..] + b;
      RemoveAllConcat(a[1..], b, c);
    } else {
      assert a + b == b;
    }
  }

  lemma {:induction false} RemoveAllAbsent(s: string, c: char)
    requires c !in s
    ensures RemoveAll(s, c) == s
    decreases |s|
  {
    if s != [] { assert c !in s[1..] by { assert forall x :: x in s[1..] ==> x in s; } RemoveAllAbsent(s[1..], c); }
  }

  // ---------------------------------------------------------------------
  // Decimal digits
  // ---------------------------------------------------------------------

  predicate IsDigit(c: char) { '0' <= c <= '9' }

  predicate AllDigits(s: string) { forall i :: 0 <= i < |s| ==> IsDigit(s[i]) }

  function DigitChar(d: nat): (c: char)
    requires d < 10
    ensures IsDigit(c) && c as int - '0' as int == d
  {
    ('0' as int + d) as char
  }

  function DigitValue(c: char): nat
    requires IsDigit(c)
  {
    c as int - '0' as int
  }

  /** The value of a string of decimal digits (the empty string reads as 0). */
  function ParseDigits(s: string): nat
    requires AllDigits(s)
    decreases |s|
  {
    if s == [] then 0 else ParseDigits(s[..|s| - 1]) * 10 + DigitValue(s[|s| - 1])
  }

  function Pow10(k: nat): (p: nat)
    ensures p >= 1
  {
    if k == 0 then 1 else 10 * Pow10(k - 1)
  }

  /** `str(n)` for a natural number: shortest decimal, no leading zero. */
  function NatToString(n: nat): (r: string)
    ensures |r| >= 1 && AllDigits(r)
    ensures r[0] == '0' ==> r == "0"
    decreases n
  {
    if n < 10 then [DigitChar(n)] else NatToString(n / 10) + [DigitChar(n % 10)]
  }

  /** `str(i)` for any Python int: a minus sign before the digits of a negative number. */
  function IntToString(i: int): (r: string)
  {
    if i < 0 then "-" + NatToString(-i) else NatToString(i)
  }

  /** `NatToString` has an inverse: reading the digits back gives the number. */
  lemma {:induction false} NatToStringRoundTrip(n: nat)
    ensures ParseDigits(NatToString(n)) == n
    decreases n
  {
    var r := NatToString(n);
    if n >= 10 {
      NatToStringRoundTrip(n / 10);
      assert r[..|r| - 1] == NatToString(n / 10);
    }
  }

  /** `str` is injective on integers, so the decimal texts in the report identify their numbers. */
  lemma IntToStringInjective(i: int, j: int)
    requires IntToString(i) == IntToString(j)
    ensures i == j
  {
    assert IntToString(i)[0] == '-' <==> i < 0;
    assert IntToString(j)[0] == '-' <==> j < 0;
    if i < 0 {
      assert NatToString(-i) == IntToString(i)[1..];
      NatToStringRoundTrip(-i);
      NatToStringRoundTrip(-j);
    } else {
      NatToStringRoundTrip(i);
      NatToStringRoundTrip(j);
    }
  }

  /** `n` written in exactly `width` decimal digits, zero-padded on the left
      (the `%02d`-style fields of `strftime`); the top digits are dropped when
      `n` does not fit. */
  function PadDigits(n: nat, width: nat): (r: string)
    ensures |r| == width && AllDigits(r)
    decreases width
  {
    if width == 0 then [] else PadDigits(n / 10, width - 1) + [DigitChar(n % 10)]
  }

  lemma {:induction false} PadDigitsRoundTrip(n: nat, width: nat)
    requires n < Pow10(width)
    ensures ParseDigits(PadDigits(n, width)) == n
    decreases width
  {
    if width > 0 {
      var r := PadDigits(n, width);
      assert r[..|r| - 1] == PadDigits(n / 10, width - 1);
      PadDigitsRoundTrip(n / 10, width - 1);
    }
  }

  /** The digits of a natural number in groups of three separated by commas:
      Python's `format(n, ",")`. */
  function GroupThousands(n: nat): (r: string)
    decreases n
  {
    if n < 1000 then NatToString(n) else GroupThousands(n / 1000) + "," + PadDigits(n % 1000, 3)
  }

  /** `f"{i:,}"` for any Python int. */
  function FormatThousands(i: int): (r: string)
  {
    if i < 0 then "-" + GroupThousands(-i) else GroupThousands(i)
  }

  lemma NatToStringStep(q: nat, r: nat)
    requires q >= 1 && r < 10
    ensures NatToString(10 * q + r) == NatToString(q) + [DigitChar(r)]
  {
    assert (10 * q + r) / 10 == q && (10 * q + r) % 10 == r;
  }

  /** The three digits of `n % 1000`, highest first. */
  lemma ThreeDigits(n: nat)
    ensures n % 1000 / 100 < 10 && n % 1000 / 10 % 10 < 10 && n % 1000 % 10 < 10
    ensures n == 10 * (10 * (10 * (n / 1000) + n % 1000 / 100) + n % 1000 / 10 % 10) + n % 1000 % 10
  {
  }

  lemma PadThree(m: nat)
    requires m < 1000
    ensures PadDigits(m, 3) == [DigitChar(m / 100), DigitChar(m / 10 % 10), DigitChar(m % 10)]
  {
    assert m / 10 / 10 == m / 100 && m / 100 / 10 == 0 && m / 100 % 10 == m / 100;
  }

  lemma {:induction false} NatToStringSplit(n: nat)
    requires n >= 1000
    ensures NatToString(n) == NatToString(n / 1000) + PadDigits(n % 1000, 3)
  {
    var c, m := n / 1000, n % 1000;
    var h, t, u := m / 100, m / 10 % 10, m % 10;
    ThreeDigits(n);
    NatToStringStep(10 * (10 * c + h) + t, u);
    NatToStringStep(10 * c + h, t);
    NatToStringStep(c, h);
    PadThree(m);
    assert NatToString(c) + [DigitChar(h)] + [DigitChar(t)] + [DigitChar(u)]
        == NatToString(c) + [DigitChar(h), DigitChar(t), DigitChar(u)];
  }

  /** Removing the grouping commas from `format(n, ",")` gives `str(n)`. */
  lemma {:induction false} GroupThousandsDigits(n: nat)
    ensures RemoveAll(GroupThousands(n), ',') == NatToString(n)
    decreases n
  {
    if n < 1000 {
      RemoveAllAbsent(NatToString(n), ',');
    } else {
      GroupThousandsDigits(n / 1000);
      RemoveAllConcat(GroupThousands(n / 1000) + ",", PadDigits(n % 1000, 3), ',');
      RemoveAllConcat(GroupThousands(n / 1000), ",", ',');
      RemoveAllAbsent(PadDigits(n % 1000, 3), ',');
      NatToStringSplit(n);
    }
  }

  /** `f"{i:,}"` is `str(i)` with commas inserted. */
  lemma FormatThousandsDigits(i: int)
    ensures RemoveAll(FormatThousands(i), ',') == IntToString(i)
  {
    if i < 0 {
      RemoveAllConcat("-", GroupThousands(-i), ',');
      GroupThousandsDigits(-i);
    } else {
      GroupThousandsDigits(i);
    }
  }
}
