/** The C string functions that the daemon protocol is built from. A pointer into a string is the
    suffix it points to. */
module CText {
  import opened Wrappers

  predicate StartsWith(s: string, pat: string) {
    |pat| <= |s| && forall i | 0 <= i < |pat| :: s[i] == pat[i]
  }

  /** strstr: where the pattern first occurs. */
  function Strstr(s: string, pat: string): (r: Option<nat>)
    ensures r.Some? ==> r.value + |pat| <= |s|
  {
    if StartsWith(s, pat) then Some(0)
    else if s == "" then None
    else
      match Strstr(s[1..], pat)
      case None => None
      case Some(i) => Some(i + 1)
  }

  /** The pattern occurs at `r` and nowhere before, or nowhere at all. */
  lemma {:induction false} StrstrFirst(s: string, pat: string)
    ensures Strstr(s, pat).Some? ==>
              var r := Strstr(s, pat).value;
              StartsWith(s[r..], pat) && forall i | 0 <= i < r :: !StartsWith(s[i..], pat)
    ensures Strstr(s, pat).None? ==> forall i | 0 <= i <= |s| :: !StartsWith(s[i..], pat)
  {
    assert s[0..] == s;
    if !StartsWith(s, pat) && s != "" {
      StrstrFirst(s[1..], pat);
      assert forall i | 0 < i <= |s| :: s[i..] == s[1..][i - 1..];
      if Strstr(s, pat).Some? {
        var r := Strstr(s[1..], pat).value;
        forall i | 0 <= i < r + 1 ensures !StartsWith(s[i..], pat) {
          if i > 0 {
            assert !StartsWith(s[1..][i - 1..], pat);
          }
        }
      } else {
        forall i | 0 <= i <= |s| ensures !StartsWith(s[i..], pat) {
          if i > 0 {
            assert !StartsWith(s[1..][i - 1..], pat);
          }
        }
      }
    }
  }

  /** A prefix without occurrences can be skipped. */
  lemma {:induction false} StrstrSkip(a: string, b: string, pat: string)
    requires forall i | 0 <= i < |a| :: !StartsWith((a + b)[i..], pat)
    ensures Strstr(a + b, pat) == match Strstr(b, pat) case None => None case Some(i) => Some(|a| + i)
  {
    if a == "" {
      assert a + b == b;
    } else {
      assert (a + b)[0..] == a + b;
      assert (a + b)[1..] == a[1..] + b;
      forall i | 0 <= i < |a[1..]| ensures !StartsWith((a[1..] + b)[i..], pat) {
        assert (a[1..] + b)[i..] == (a + b)[i + 1..];
      }
      StrstrSkip(a[1..], b, pat);
    }
  }

  /** A first character that the pattern does not start with is skipped. */
  lemma StrstrSkipChar(c: char, s: string, pat: string)
    requires pat != "" && pat[0] != c
    ensures Strstr([c] + s, pat) == match Strstr(s, pat) case None => None case Some(i) => Some(1 + i)
  {
    assert ([c] + s)[1..] == s;
  }

  predicate NoQuote(s: string) {
    forall i | 0 <= i < |s| :: s[i] != '"'
  }

  /** strchr for a double quote: how many characters come before it. */
  function BeforeQuote(s: string): (r: Option<nat>)
    ensures r.Some? ==> r.value < |s| && s[r.value] == '"' && NoQuote(s[..r.value])
    ensures r.None? ==> NoQuote(s)
  {
    if s == "" then None
    else if s[0] == '"' then Some(0)
    else
      match BeforeQuote(s[1..])
      case None => None
      case Some(i) => Some(i + 1)
  }

  lemma {:induction false} BeforeQuoteIs(a: string, b: string)
    requires NoQuote(a)
    ensures BeforeQuote(a + "\"" + b) == Some(|a|)
  {
    var s := a + "\"" + b;
    if a != "" {
      assert s[1..] == a[1..] + "\"" + b;
      BeforeQuoteIs(a[1..], b);
    }
  }

  /** snprintf into a buffer of `size` bytes keeps at most size - 1 characters. */
  function Truncate(s: string, size: nat): string
    requires size > 0
  {
    if |s| < size then s else s[..size - 1]
  }

  /** That is the longest beginning that leaves room for a terminator. */
  lemma TruncateIs(s: string, size: nat)
    requires size > 0
    ensures var t := Truncate(s, size);
            t <= s && |t| < size && (t == s || |t| + 1 == size)
  {
  }

  /** The elements before the first `nul`: the C string in a buffer. */
  function CStr<T(==)>(s: seq<T>, nul: T): seq<T> {
    if s == [] || s[0] == nul then [] else [s[0]] + CStr(s[1..], nul)
  }

  lemma {:induction false} CStrBefore<T>(s: seq<T>, nul: T, rest: seq<T>)
    requires nul !in s
    ensures CStr(s + ([nul] + rest), nul) == s
  {
    if s != [] {
      assert (s + ([nul] + rest))[1..] == s[1..] + ([nul] + rest);
      CStrBefore(s[1..], nul, rest);
    }
  }

  lemma {:induction false} CStrWhole<T>(s: seq<T>, nul: T)
    requires nul !in s
    ensures CStr(s, nul) == s
  {
    if s != [] {
      CStrWhole(s[1..], nul);
    }
  }

  /** How many elements fgets takes when there is room for `room` of them: up to and with a newline. */
  function LineLen<T(==)>(s: seq<T>, newline: T, room: nat): (n: nat)
    ensures n <= |s| && n <= room && (s != [] && room > 0 ==> n > 0)
    decreases |s|
  {
    if s == [] || room == 0 then 0 else if s[0] == newline then 1 else 1 + LineLen(s[1..], newline, room - 1)
  }

  lemma {:induction false} LineLenIs<T>(a: seq<T>, newline: T, rest: seq<T>, room: nat)
    requires newline !in a && |a| <= room
    ensures LineLen(a + ([newline] + rest), newline, room) == if |a| < room then |a| + 1 else room
    decreases |a|
  {
    if a != [] {
      assert (a + ([newline] + rest))[1..] == a[1..] + ([newline] + rest);
      LineLenIs(a[1..], newline, rest, room - 1);
    }
  }

  /** Without a newline fgets takes what there is, or as much as there is room for. */
  lemma {:induction false} LineLenNone<T>(a: seq<T>, newline: T, rest: seq<T>, room: nat)
    requires newline !in a && (|a| == room || (|a| < room && rest == []))
    ensures LineLen(a + rest, newline, room) == |a|
    decreases |a|
  {
    if a == [] {
      assert a + rest == rest;
    } else {
      assert (a + rest)[1..] == a[1..] + rest;
      LineLenNone(a[1..], newline, rest, room - 1);
    }
  }

  /** A trailing newline is cut off. */
  function StripLast<T(==)>(s: seq<T>, newline: T): seq<T> {
    if s != [] && s[|s| - 1] == newline then s[..|s| - 1] else s
  }

  // ---- Decimal numbers ----

  predicate IsDigit(c: char) {
    '0' <= c <= '9'
  }

  function DigitChar(d: nat): char
    requires d < 10
  {
    (48 + d) as char
  }

  /** `%d` of a non-negative number. */
  function Decimal(n: nat): (s: string)
    ensures s != "" && forall i | 0 <= i < |s| :: IsDigit(s[i])
  {
    if n < 10 then [DigitChar(n)] else Decimal(n / 10) + [DigitChar(n % 10)]
  }

  /** The digits that atoi reads, after the number `acc`. */
  function ReadDigits(s: string, acc: nat): nat {
    if s == "" || !IsDigit(s[0]) then acc else ReadDigits(s[1..], acc * 10 + (s[0] as int - 48))
  }

  /** isspace in the C locale. */
  predicate IsSpace(c: char) {
    c == ' ' || '\t' <= c <= '\r'
  }

  function SkipSpaces(s: string): (r: string)
    ensures |r| <= |s| && (r != "" ==> !IsSpace(r[0]))
  {
    if s != "" && IsSpace(s[0]) then SkipSpaces(s[1..]) else s
  }

  /** atoi, for numbers that fit an int. */
  function Atoi(s: string): int {
    if s != "" && IsSpace(s[0]) then Atoi(s[1..])
    else if s != "" && s[0] == '-' then 0 - ReadDigits(s[1..], 0)
    else if s != "" && s[0] == '+' then ReadDigits(s[1..], 0)
    else ReadDigits(s, 0)
  }

  /** The space characters by their codes. */
  lemma SpaceCodes(c: char)
    ensures IsSpace(c) <==> c as int in {9, 10, 11, 12, 13, 32}
  {
  }

  /** Decimal digits by their codes, the last one last. */
  lemma DecimalDigits(n: nat, d: nat)
    requires d < 10
    ensures |Decimal(d)| == 1 && Decimal(d)[0] as int == 48 + d
    ensures n > 0 ==> Decimal(10 * n + d) == Decimal(n) + Decimal(d)
  {
  }

  /** atoi passes over white space and a plus sign. */
  lemma {:induction false} AtoiPassesOver(blanks: string, n: nat, rest: string)
    requires forall i | 0 <= i < |blanks| :: IsSpace(blanks[i])
    requires rest == "" || !IsDigit(rest[0])
    ensures Atoi(blanks + (Decimal(n) + rest)) == Atoi(blanks + ("+" + (Decimal(n) + rest))) == n
  {
    if blanks == "" {
      var s := Decimal(n) + rest;
      AtoiOfDecimal(n, rest);
      assert blanks + s == s && blanks + ("+" + s) == "+" + s && ("+" + s)[1..] == s;
      ReadDigitsOfDecimal(n, rest);
      hide Decimal;
      assert ReadDigits(rest, n) == n;
    } else {
      var a, b := Decimal(n) + rest, "+" + (Decimal(n) + rest);
      assert (blanks + a)[1..] == blanks[1..] + a && (blanks + b)[1..] == blanks[1..] + b;
      AtoiPassesOver(blanks[1..], n, rest);
    }
  }

  lemma {:induction false} ReadDigitsOfDecimal(n: nat, rest: string)
    ensures ReadDigits(Decimal(n) + rest, 0) == ReadDigits(rest, n)
  {
    if n < 10 {
      assert ([DigitChar(n)] + rest)[1..] == rest;
    } else {
      var d := DigitChar(n % 10);
      assert Decimal(n) + rest == Decimal(n / 10) + ([d] + rest);
      ReadDigitsOfDecimal(n / 10, [d] + rest);
      assert ([d] + rest)[1..] == rest;
    }
  }

  /** atoi undoes `%d` when no digit follows. */
  lemma AtoiOfDecimal(n: nat, rest: string)
    requires rest == "" || !IsDigit(rest[0])
    ensures Atoi(Decimal(n) + rest) == n
  {
    ReadDigitsOfDecimal(n, rest);
    assert (Decimal(n) + rest)[0] == Decimal(n)[0];
  }

  /** `%d` of any number. */
  function Signed(n: int): string {
    if n < 0 then "-" + Decimal(0 - n) else Decimal(n)
  }

  lemma AtoiOfSigned(n: int, rest: string)
    requires rest == "" || !IsDigit(rest[0])
    ensures Atoi(Signed(n) + rest) == n
  {
    if n >= 0 {
      AtoiOfDecimal(n, rest);
    } else {
      AtoiOfMinus(0 - n, rest);
    }
  }

  lemma AtoiOfMinus(n: nat, rest: string)
    requires rest == "" || !IsDigit(rest[0])
    ensures Atoi("-" + Decimal(n) + rest) == 0 - n
  {
    hide Decimal, Atoi;
    ReadDigitsOfDecimal(n, rest);
    AfterMinus(Decimal(n) + rest);
    assert "-" + Decimal(n) + rest == "-" + (Decimal(n) + rest);
  }

  lemma AfterMinus(s: string)
    ensures Atoi("-" + s) == 0 - ReadDigits(s, 0)
  {
    hide ReadDigits;
    assert ("-" + s)[1..] == s;
  }

  /** atoi stops at a comma or brace just as at the end of the string. */
  lemma {:induction false} AtoiStops(s: string, rest: string)
    requires rest != "" && (rest[0] == ',' || rest[0] == '}')
    ensures Atoi(s + rest) == Atoi(s)
  {
    if s == "" {
      assert s + rest == rest;
    } else {
      assert (s + rest)[1..] == s[1..] + rest;
      if IsSpace(s[0]) {
        AtoiStops(s[1..], rest);
      } else {
        ReadDigitsStops(s[1..], rest, 0);
        ReadDigitsStops(s, rest, 0);
      }
    }
  }

  lemma {:induction false} ReadDigitsStops(s: string, rest: string, acc: nat)
    requires rest != "" && !IsDigit(rest[0])
    ensures ReadDigits(s + rest, acc) == ReadDigits(s, acc)
  {
    if s == "" {
      assert s + rest == rest;
    } else {
      assert (s + rest)[1..] == s[1..] + rest;
      if IsDigit(s[0]) {
        ReadDigitsStops(s[1..], rest, acc * 10 + (s[0] as int - 48));
      }
    }
  }

  function Power10(k: nat): nat {
    if k == 0 then 1 else 10 * Power10(k - 1)
  }

  /** A number below 10^k prints in at most k digits. */
  lemma {:induction false} DecimalLength(n: nat, k: nat)
    requires k > 0 && n < Power10(k)
    ensures |Decimal(n)| <= k
  {
    if n >= 10 {
      DecimalLength(n / 10, k - 1);
    }
  }
}
