/**
 * The Python string primitives the script relies on: `str.split` with an
 * explicit separator, `str.strip()` with no argument, `str.isalpha` and the
 * decimal rendering of an `int` inside an f-string.
 */
module Text {
  import opened Wrappers

  /** ASCII whitespace as `str.strip()` removes it (space, \t, \n, \v, \f, \r and the
      four separators \x1c to \x1f). */
  predicate IsSpace(c: char) {
    c == ' ' || (9 <= c as int <= 13) || (28 <= c as int <= 31)
  }

  /** ASCII letters; stands for `str.isalpha` on one character. */
  predicate IsAlpha(c: char) {
    ('A' <= c <= 'Z') || ('a' <= c <= 'z')
  }

  predicate IsDigit(c: char) {
    '0' <= c <= '9'
  }

  /** Number of occurrences of `c` in `s`. */
  function Occurrences(s: string, c: char): nat {
    if s == [] then 0 else (if s[0] == c then 1 else 0) + Occurrences(s[1..], c)
  }

  // ---------------------------------------------------------------------------
  // s.split(sep)

  /** Python's `s.split(sep)` for a one-character separator: the pieces between
      separators, always at least one (`"".split(";") == [""]`). */
  function Split(s: string, sep: char): (r: seq<string>)
    ensures |r| == Occurrences(s, sep) + 1
    ensures forall k :: 0 <= k < |r| ==> sep !in r[k]
  {
    if s == [] then [""]
    else
      var rest := Split(s[1..], sep);
      if s[0] == sep then [""] + rest
      else [[s[0]] + rest[0]] + rest[1..]
  }

  /** `sep.join(parts)`, the inverse of `Split`. */
  function Join(parts: seq<string>, sep: char): string
    requires |parts| >= 1
  {
    if |parts| == 1 then parts[0] else parts[0] + [sep] + Join(parts[1..], sep)
  }

  /** Splitting loses nothing: joining the pieces back gives the original text. */
  lemma {:induction false} JoinSplit(s: string, sep: char)
    ensures Join(Split(s, sep), sep) == s
  {
    if s != [] {
      JoinSplit(s[1..], sep);
      var rest := Split(s[1..], sep);
      if s[0] != sep {
        if |rest| == 1 {
          assert Split(s, sep) == [[s[0]] + rest[0]];
        } else {
          var r := Split(s, sep);
          assert r[1..] == rest[1..];
          assert Join(rest, sep) == rest[0] + [sep] + Join(rest[1..], sep);
          assert s == [s[0]] + s[1..];
        }
      } else {
        assert Split(s, sep)[1..] == rest;
        assert s == [sep] + s[1..];
      }
    }
  }

  /** Splitting is the inverse of joining separator-free pieces. */
  lemma {:induction false} SplitJoin(parts: seq<string>, sep: char)
    requires |parts| >= 1
    requires forall k :: 0 <= k < |parts| ==> sep !in parts[k]
    ensures Split(Join(parts, sep), sep) == parts
  {
    if |parts| == 1 {
      SplitFree(parts[0], sep);
    } else {
      SplitJoin(parts[1..], sep);
      SplitAround(parts[0], Join(parts[1..], sep), sep);
      assert parts == [parts[0]] + parts[1..];
    }
  }

  /** A text without the separator splits into itself. */
  lemma {:induction false} SplitFree(s: string, sep: char)
    requires sep !in s
    ensures Split(s, sep) == [s]
  {
    if s != [] {
      SplitFree(s[1..], sep);
      assert [s[0]] + s[1..] == s;
    }
  }

  /** Splitting `a + sep + b`, where `a` has no separator, puts `a` in front of `b`'s pieces. */
  lemma {:induction false} SplitAround(a: string, b: string, sep: char)
    requires sep !in a
    ensures Split(a + [sep] + b, sep) == [a] + Split(b, sep)
  {
    if a == [] {
      assert a + [sep] + b == [sep] + b;
      assert ([sep] + b)[1..] == b;
    } else {
      SplitAround(a[1..], b, sep);
      assert (a + [sep] + b)[1..] == a[1..] + [sep] + b;
      assert [a[0]] + a[1..] == a;
    }
  }

  // ---------------------------------------------------------------------------
  // s.strip()

  /** `s.lstrip()`: drops the leading whitespace. */
  function TrimLeft(s: string): (r: string)
    ensures |r| <= |s|
  {
    if s != [] && IsSpace(s[0]) then TrimLeft(s[1..]) else s
  }

  /** `s.rstrip()`: drops the trailing whitespace. */
  function TrimRight(s: string): (r: string)
    ensures |r| <= |s|
  {
    if s != [] && IsSpace(s[|s| - 1]) then TrimRight(s[..|s| - 1]) else s
  }

  /** Left-trimming keeps a suffix, cuts only whitespace, and leaves no whitespace in front. */
  lemma {:induction false} TrimLeftSpec(s: string)
    ensures TrimLeft(s) == s[|s| - |TrimLeft(s)|..]
    ensures forall k :: 0 <= k < |s| - |TrimLeft(s)| ==> IsSpace(s[k])
    ensures TrimLeft(s) == [] || !IsSpace(TrimLeft(s)[0])
  {
    if s != [] && IsSpace(s[0]) {
      var rest := s[1..];
      TrimLeftSpec(rest);
      var r := TrimLeft(rest);
      assert TrimLeft(s) == r;
      assert rest[|rest| - |r|..] == s[|s| - |r|..];
      forall k | 0 <= k < |s| - |r| ensures IsSpace(s[k]) {
        if k > 0 {
          assert s[k] == rest[k - 1];
        }
      }
    }
  }

  /** Right-trimming keeps a prefix, cuts only whitespace, and leaves no whitespace at the end. */
  lemma {:induction false} TrimRightSpec(s: string)
    ensures TrimRight(s) == s[..|TrimRight(s)|]
    ensures forall k :: |TrimRight(s)| <= k < |s| ==> IsSpace(s[k])
    ensures TrimRight(s) == [] || !IsSpace(TrimRight(s)[|TrimRight(s)| - 1])
  {
    if s != [] && IsSpace(s[|s| - 1]) {
      var rest := s[..|s| - 1];
      TrimRightSpec(rest);
      var r := TrimRight(rest);
      assert TrimRight(s) == r;
      assert rest[..|r|] == s[..|r|];
      forall k | |r| <= k < |s| ensures IsSpace(s[k]) {
        if k < |s| - 1 {
          assert s[k] == rest[k];
        }
      }
    }
  }

  /** `r` is `s[i..j]`, everything of `s` outside it is whitespace, and `r` itself
      neither starts nor ends with whitespace. */
  ghost predicate StrippedBetween(r: string, s: string, i: int, j: int) {
    0 <= i <= j <= |s| && r == s[i..j]
    && (r == [] || (!IsSpace(r[0]) && !IsSpace(r[|r| - 1])))
    && (forall k :: 0 <= k < i ==> IsSpace(s[k]))
    && (forall k :: j <= k < |s| ==> IsSpace(s[k]))
  }

  /** `r` is `s` with whitespace cut from both ends and from nowhere else. */
  ghost predicate StrippedFrom(r: string, s: string) {
    exists i, j :: StrippedBetween(r, s, i, j)
  }

  /** `s.strip()`. */
  function Strip(s: string): (r: string)
    ensures |r| <= |s|
  {
    TrimRight(TrimLeft(s))
  }

  /** `Strip` cuts whitespace from both ends and from nowhere else. */
  lemma StripSpec(s: string)
    ensures StrippedFrom(Strip(s), s)
  {
    var i := |s| - |TrimLeft(s)|;
    StripInfix(s);
    StripCutsSpace(s);
    assert StrippedBetween(Strip(s), s, i, i + |Strip(s)|);
  }

  /** `Strip(s)` is the infix of `s` that starts where left-trimming stopped, and it has
      clean ends. */
  lemma StripInfix(s: string)
    ensures |s| - |TrimLeft(s)| + |Strip(s)| <= |s|
    ensures Strip(s) == s[|s| - |TrimLeft(s)|..|s| - |TrimLeft(s)| + |Strip(s)|]
    ensures Strip(s) == [] || (!IsSpace(Strip(s)[0]) && !IsSpace(Strip(s)[|Strip(s)| - 1]))
  {
    var left := TrimLeft(s);
    var r := TrimRight(left);
    TrimLeftSpec(s);
    TrimRightSpec(left);
    if r != [] {
      assert r[0] == left[0];
    }
  }

  /** What `Strip` cuts from either end of `s` is whitespace. */
  lemma StripCutsSpace(s: string)
    ensures forall k :: 0 <= k < |s| - |TrimLeft(s)| ==> IsSpace(s[k])
    ensures forall k :: |s| - |TrimLeft(s)| + |Strip(s)| <= k < |s| ==> IsSpace(s[k])
  {
    var left := TrimLeft(s);
    var r := TrimRight(left);
    TrimLeftSpec(s);
    TrimRightSpec(left);
    var i := |s| - |left|;
    forall k | i + |r| <= k < |s| ensures IsSpace(s[k]) {
      assert s[k] == left[k - i];
    }
  }

  /** `StrippedFrom` pins the result down: `Strip` is the only way to strip. */
  lemma StrippedFromUnique(r: string, s: string)
    requires StrippedFrom(r, s)
    ensures r == Strip(s)
  {
    var i, j :| StrippedBetween(r, s, i, j);
    StripBetween(s, i, j);
  }

  /** Stripping a text that is whitespace, then `s[i..j]`, then whitespace gives `s[i..j]`
      when that infix has clean ends. */
  lemma StripBetween(s: string, i: int, j: int)
    requires 0 <= i <= j <= |s|
    requires forall k :: 0 <= k < i ==> IsSpace(s[k])
    requires forall k :: j <= k < |s| ==> IsSpace(s[k])
    requires i == j || (!IsSpace(s[i]) && !IsSpace(s[j - 1]))
    ensures Strip(s) == s[i..j]
  {
    if i == j {
      assert forall k :: 0 <= k < |s| ==> IsSpace(s[k]) by {
        forall k | 0 <= k < |s| ensures IsSpace(s[k]) {
          if k >= j {
          }
        }
      }
      TrimLeftAt(s, |s|);
      assert TrimLeft(s) == [];
    } else {
      var rest := s[i..];
      TrimLeftAt(s, i);
      assert TrimLeft(s) == rest;
      forall k | j - i <= k < |rest| ensures IsSpace(rest[k]) {
        assert rest[k] == s[k + i];
      }
      TrimRightAt(rest, j - i);
      assert TrimRight(rest) == rest[..j - i] == s[i..j];
    }
  }

  /** Left-trimming stops at the first non-whitespace character. */
  lemma {:induction false} TrimLeftAt(s: string, i: int)
    requires 0 <= i <= |s|
    requires forall k :: 0 <= k < i ==> IsSpace(s[k])
    requires i == |s| || !IsSpace(s[i])
    ensures TrimLeft(s) == s[i..]
  {
    if i > 0 {
      TrimLeftAt(s[1..], i - 1);
      assert s[1..][i - 1..] == s[i..];
    }
  }

  /** Right-trimming stops at the last non-whitespace character. */
  lemma {:induction false} TrimRightAt(s: string, j: int)
    requires 0 < j <= |s|
    requires forall k :: j <= k < |s| ==> IsSpace(s[k])
    requires !IsSpace(s[j - 1])
    ensures TrimRight(s) == s[..j]
  {
    if j < |s| {
      TrimRightAt(s[..|s| - 1], j);
      assert s[..|s| - 1][..j] == s[..j];
    }
  }

  /** Stripping adds no character: a character absent from `s` is absent from `Strip(s)`. */
  lemma StripKeepsOut(s: string, c: char)
    requires c !in s
    ensures c !in Strip(s)
  {
    var left := TrimLeft(s);
    TrimLeftSpec(s);
    assert c !in left;
    var r := TrimRight(left);
    TrimRightSpec(left);
  }

  /** Stripping twice is stripping once. */
  lemma StripIdempotent(s: string)
    ensures Strip(Strip(s)) == Strip(s)
  {
    StripSpec(s);
    StripClean(Strip(s));
  }

  /** A text that neither starts nor ends with whitespace is left as it is. */
  lemma StripClean(s: string)
    requires s == [] || (!IsSpace(s[0]) && !IsSpace(s[|s| - 1]))
    ensures Strip(s) == s
  {
    assert TrimLeft(s) == s;
    assert TrimRight(s) == s;
  }

  // ---------------------------------------------------------------------------
  // First alphabetic character: next((c for c in s if c.isalpha()), None)

  /** The first letter of `s`, or `None` when `s` has no letter. */
  function FirstAlpha(s: string): (r: Option<char>)
    ensures r.None? <==> forall k :: 0 <= k < |s| ==> !IsAlpha(s[k])
    ensures r.Some? ==> exists k :: 0 <= k < |s| && s[k] == r.value && IsAlpha(s[k])
                                    && forall m :: 0 <= m < k ==> !IsAlpha(s[m])
  {
    if s == [] then None
    else if IsAlpha(s[0]) then Some(s[0])
    else
      var r := FirstAlpha(s[1..]);
      assert r.Some? ==> exists k :: 1 <= k < |s| && s[k] == r.value && IsAlpha(s[k])
                                      && forall m :: 0 <= m < k ==> !IsAlpha(s[m]) by {
        if r.Some? {
          var k :| 0 <= k < |s| - 1 && s[1..][k] == r.value && IsAlpha(s[1..][k])
                   && forall m :: 0 <= m < k ==> !IsAlpha(s[1..][m]);
          assert forall m :: 0 <= m < k + 1 ==> !IsAlpha(s[m]) by {
            forall m | 0 <= m < k + 1 ensures !IsAlpha(s[m]) {
              if m > 0 { assert s[m] == s[1..][m - 1]; }
            }
          }
        }
      }
      r
  }

  // ---------------------------------------------------------------------------
  // Decimal rendering of a natural number, as in f"{n}"

  function DigitChar(d: nat): (c: char)
    requires d < 10
    ensures IsDigit(c)
  {
    (d + '0' as int) as char
  }

  function DigitValue(c: char): (d: nat)
    requires IsDigit(c)
    ensures d < 10 && DigitChar(d) == c
  {
    (c as int - '0' as int)
  }

  /** `str(n)` for `n >= 0`: decimal digits, no leading zero. */
  function NatToString(n: nat): (s: string)
    ensures |s| >= 1
    ensures forall k :: 0 <= k < |s| ==> IsDigit(s[k])
  {
    if n < 10 then [DigitChar(n)] else NatToString(n / 10) + [DigitChar(n % 10)]
  }

  /** `int(s)` for a non-empty string of decimal digits. */
  function ParseNat(s: string): nat
    requires forall k :: 0 <= k < |s| ==> IsDigit(s[k])
  {
    if s == [] then 0 else ParseNat(s[..|s| - 1]) * 10 + DigitValue(s[|s| - 1])
  }

  /** Reading back the rendering of `n` gives `n`. */
  lemma {:induction false} ParseNatToString(n: nat)
    ensures ParseNat(NatToString(n)) == n
  {
    var s := NatToString(n);
    if n >= 10 {
      ParseNatToString(n / 10);
      assert s[..|s| - 1] == NatToString(n / 10);
      assert DigitValue(DigitChar(n % 10)) == n % 10;
    } else {
      assert DigitValue(DigitChar(n)) == n;
    }
  }

  /** Different numbers render differently. */
  lemma NatToStringInjective(a: nat, b: nat)
    requires NatToString(a) == NatToString(b)
    ensures a == b
  {
    ParseNatToString(a);
    ParseNatToString(b);
  }
}
