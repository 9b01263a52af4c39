/**
 * The pieces of .NET's System.String and List<string> behaviour that the
 * modelled code relies on: decimal formatting and parsing of integers,
 * Split, Trim, Contains, Replace, Insert, IndexOf and Remove.
 */
module Text {
  import opened Wrappers

  // ---------------------------------------------------------------- digits

  predicate IsDigit(c: char) { '0' <= c <= '9' }

  predicate AllDigits(s: string) { forall i :: 0 <= i < |s| ==> IsDigit(s[i]) }

  function DigitChar(d: nat): (c: char)
    requires d < 10
    ensures IsDigit(c) && c as int - '0' as int == d
  {
    (d + '0' as int) as char
  }

  function DigitValue(c: char): (d: nat)
    requires IsDigit(c)
    ensures d < 10 && DigitChar(d) == c
  {
    c as int - '0' as int
  }

  /** `n.ToString()` for a non-negative integer: its decimal digits, most significant first. */
  function NatToString(n: nat): (s: string)
    ensures |s| >= 1 && AllDigits(s)
    ensures s[0] == '0' <==> n == 0
    decreases n
  {
    if n < 10 then [DigitChar(n)] else NatToString(n / 10) + [DigitChar(n % 10)]
  }

  /** The value of a string of decimal digits (leading zeros allowed). */
  function DigitsValue(s: string): nat
    requires AllDigits(s)
    decreases |s|
  {
    if s == [] then 0 else DigitsValue(s[..|s| - 1]) * 10 + DigitValue(s[|s| - 1])
  }

  lemma {:induction false} DigitsRoundTrip(n: nat)
    ensures DigitsValue(NatToString(n)) == n
    decreases n
  {
    if n >= 10 {
      var s := NatToString(n);
      assert s == NatToString(n / 10) + [DigitChar(n % 10)];
      assert s[..|s| - 1] == NatToString(n / 10);
      DigitsRoundTrip(n / 10);
    }
  }

  /** Distinct numbers are written differently. */
  lemma NatToStringInjective(m: nat, n: nat)
    ensures NatToString(m) == NatToString(n) ==> m == n
  {
    DigitsRoundTrip(m);
    DigitsRoundTrip(n);
  }

  /** `i.ToString()` for a C# integer, in the invariant culture. */
  function IntToString(i: int): (s: string)
    ensures |s| >= 1
    ensures i < 0 <==> s[0] == '-'
  {
    if i < 0 then "-" + NatToString(-i) else NatToString(i)
  }

  // ---------------------------------------------------------------- int.TryParse

  newtype int32 = x: int | -0x8000_0000 <= x < 0x8000_0000

  /** The characters `int.TryParse` skips before and after the number. */
  predicate IsNumberWhite(c: char) { c == ' ' || '\U{9}' <= c <= '\U{D}' }

  /** The number of leading characters of `s` satisfying white. */
  function LeadingCount(s: string, numberWhite: bool): (k: nat)
    ensures k <= |s|
    ensures forall i :: 0 <= i < k ==> White(s[i], numberWhite)
    ensures k < |s| ==> !White(s[k], numberWhite)
    decreases |s|
  {
    if |s| > 0 && White(s[0], numberWhite) then 1 + LeadingCount(s[1..], numberWhite) else 0
  }

  /** The number of trailing characters of `s` satisfying white. */
  function TrailingCount(s: string, numberWhite: bool): (k: nat)
    ensures k <= |s|
    ensures forall i :: |s| - k <= i < |s| ==> White(s[i], numberWhite)
    ensures k < |s| ==> !White(s[|s| - 1 - k], numberWhite)
    decreases |s|
  {
    if |s| > 0 && White(s[|s| - 1], numberWhite) then 1 + TrailingCount(s[..|s| - 1], numberWhite) else 0
  }

  predicate White(c: char, numberWhite: bool)
  {
    if numberWhite then IsNumberWhite(c) else IsWhiteSpace(c)
  }

  /** `s` without its leading and trailing white characters of the chosen kind. */
  function TrimWith(s: string, numberWhite: bool): (r: string)
    ensures |r| <= |s|
    ensures |r| > 0 ==> !White(r[0], numberWhite) && !White(r[|r| - 1], numberWhite)
    ensures LeadingCount(s, numberWhite) + |r| <= |s|
    ensures r == s[LeadingCount(s, numberWhite)..LeadingCount(s, numberWhite) + |r|]
  {
    var a := LeadingCount(s, numberWhite);
    var t := s[a..];
    var b := TrailingCount(t, numberWhite);
    assert t[..|t| - b] == s[a..a + |t| - b];
    t[..|t| - b]
  }

  /**
   * `int.TryParse(s, out n)` with the default NumberStyles.Integer: optional
   * surrounding white space, an optional sign, at least one decimal digit, and
   * a value that fits in 32 bits.
   */
  function TryParseInt32(s: string): (r: Option<int32>)
    ensures r.Some? ==> exists k :: 0 <= k < |s| && IsDigit(s[k])
  {
    var t := TrimWith(s, true);
    var negative := |t| > 0 && t[0] == '-';
    var digits := if |t| > 0 && (t[0] == '-' || t[0] == '+') then t[1..] else t;
    if |digits| == 0 || !AllDigits(digits) then None
    else
      var v: int := if negative then 0 - DigitsValue(digits) as int else DigitsValue(digits);
      if -0x8000_0000 <= v < 0x8000_0000 then
        assert IsDigit(digits[0]);
        Some(v as int32)
      else None
  }

  /** What `ToString` writes, `int.TryParse` reads back. */
  lemma {:induction false} IntRoundTrip(i: int32)
    ensures TryParseInt32(IntToString(i as int)) == Some(i)
  {
    var s := IntToString(i as int);
    var m: nat := if i < 0 then -(i as int) else i as int;
    DigitsRoundTrip(m);
    assert LeadingCount(s, true) == 0;
    assert TrailingCount(s, true) == 0;
    assert TrimWith(s, true) == s;
    if i < 0 {
      assert s[1..] == NatToString(m);
    } else {
      assert s[0] != '+';
    }
  }

  // ---------------------------------------------------------------- white space, Trim

  /** `char.IsWhiteSpace`: the Unicode space separators and the control characters it accepts. */
  predicate IsWhiteSpace(c: char)
  {
    c == ' ' || '\U{9}' <= c <= '\U{D}' || c == '\U{85}' || c == '\U{A0}' || c == '\U{1680}'
    || '\U{2000}' <= c <= '\U{200A}' || c == '\U{2028}' || c == '\U{2029}' || c == '\U{202F}'
    || c == '\U{205F}' || c == '\U{3000}'
  }

  /** `s.Trim()`: `s` without its leading and trailing white space. */
  function Trim(s: string): (r: string)
    ensures |r| <= |s|
    ensures |r| > 0 ==> !IsWhiteSpace(r[0]) && !IsWhiteSpace(r[|r| - 1])
    ensures LeadingCount(s, false) + |r| <= |s|
    ensures r == s[LeadingCount(s, false)..LeadingCount(s, false) + |r|]
  {
    TrimWith(s, false)
  }

  // ---------------------------------------------------------------- Split on a char

  /** `s.Split(c)`: the pieces between occurrences of `c`, empty pieces kept. */
  function Split(s: string, c: char): (r: seq<string>)
    ensures |r| >= 1
    ensures forall i :: 0 <= i < |r| ==> c !in r[i]
    decreases |s|
  {
    if s == [] then [""]
    else
      var rest := Split(s[1..], c);
      if s[0] == c then [""] + rest else [[s[0]] + rest[0]] + rest[1..]
  }

  /** `String.JoinWith(c.ToString(), parts)`. */
  function JoinWith(parts: seq<string>, c: char): string
    decreases |parts|
  {
    if |parts| == 0 then "" else if |parts| == 1 then parts[0] else parts[0] + [c] + JoinWith(parts[1..], c)
  }

  /** Joining the pieces of a split with the same separator gives the string back. */
  lemma {:induction false} SplitJoin(s: string, c: char)
    ensures JoinWith(Split(s, c), c) == s
    decreases |s|
  {
    if s != [] {
      var rest := Split(s[1..], c);
      SplitJoin(s[1..], c);
      if s[0] == c {
        assert Split(s, c) == [""] + rest;
        assert (["" ] + rest)[1..] == rest;
      } else {
        var r := [[s[0]] + rest[0]] + rest[1..];
        if |rest| == 1 {
          assert JoinWith(r, c) == [s[0]] + rest[0];
        } else {
          assert r[1..] == rest[1..];
          assert JoinWith(rest, c) == rest[0] + [c] + JoinWith(rest[1..], c);
        }
        assert s == [s[0]] + s[1..];
      }
    }
  }

  /** A split of a join of pieces free of the separator gives the pieces back. */
  lemma {:induction false} JoinSplit(parts: seq<string>, c: char)
    requires |parts| >= 1
    requires forall i :: 0 <= i < |parts| ==> c !in parts[i]
    ensures Split(JoinWith(parts, c), c) == parts
    decreases |parts|, |parts[0]|
  {
    var p := parts[0];
    if p == [] {
      if |parts| > 1 {
        JoinSplit(parts[1..], c);
        var j := JoinWith(parts, c);
        assert j == [c] + JoinWith(parts[1..], c);
        assert j[1..] == JoinWith(parts[1..], c);
        assert parts == [""] + parts[1..];
      }
    } else {
      var tail := [p[1..]] + parts[1..];
      assert tail[1..] == parts[1..];
      assert c !in p[1..] by { assert forall x :: x in p[1..] ==> x in p; }
      JoinSplit(tail, c);
      var j := JoinWith(parts, c);
      if |parts| == 1 {
        assert j[1..] == JoinWith(tail, c);
      } else {
        assert j == p + [c] + JoinWith(parts[1..], c);
        assert JoinWith(tail, c) == p[1..] + [c] + JoinWith(parts[1..], c);
        assert j[1..] == JoinWith(tail, c);
      }
      assert j[0] == p[0] && j[0] != c;
      var rest := Split(j[1..], c);
      assert rest == tail;
      assert [p[0]] + p[1..] == p;
      assert [[p[0]] + p[1..]] + parts[1..] == parts;
    }
  }

  /** `String.Join(sep, parts)` for a separator string. */
  function Interleave(parts: seq<string>, sep: string): string
    decreases |parts|
  {
    if |parts| == 0 then "" else if |parts| == 1 then parts[0] else parts[0] + sep + Interleave(parts[1..], sep)
  }

  // ---------------------------------------------------------------- substrings

  predicate StartsWith(s: string, prefix: string) { |prefix| <= |s| && s[..|prefix|] == prefix }

  /** `s.Contains(sub)`: `sub` occurs in `s` at some position. */
  predicate Contains(s: string, sub: string)
    decreases |s|
  {
    StartsWith(s, sub) || (|s| > 0 && Contains(s[1..], sub))
  }

  /** `Contains` finds exactly the positions where `sub` starts. */
  lemma {:induction false} ContainsAt(s: string, sub: string)
    ensures Contains(s, sub) <==> exists i :: 0 <= i <= |s| - |sub| && StartsWith(s[i..], sub)
    decreases |s|
  {
    if |s| > 0 {
      ContainsAt(s[1..], sub);
      if Contains(s[1..], sub) {
        var i :| 0 <= i <= |s[1..]| - |sub| && StartsWith(s[1..][i..], sub);
        assert s[1..][i..] == s[i + 1..];
      }
      if i :| 0 < i <= |s| - |sub| && StartsWith(s[i..], sub) {
        assert s[1..][i - 1..] == s[i..];
      }
    }
    assert s[0..] == s;
  }

  /** `s.Contains(c)` for a one-character string. */
  lemma {:induction false} ContainsChar(s: string, c: char)
    ensures Contains(s, [c]) <==> c in s
    decreases |s|
  {
    if |s| > 0 {
      ContainsChar(s[1..], c);
      assert StartsWith(s, [c]) <==> s[0] == c;
      assert c in s <==> s[0] == c || c in s[1..];
    }
  }

  // ---------------------------------------------------------------- Split on strings

  /** The first separator, in the given order, that starts `s` (empty separators never match). */
  function SeparatorAt(s: string, seps: seq<string>): (r: Option<nat>)
    ensures r.Some? ==> r.value < |seps| && |seps[r.value]| > 0 && StartsWith(s, seps[r.value])
    ensures r.None? ==> forall k :: 0 <= k < |seps| && |seps[k]| > 0 ==> !StartsWith(s, seps[k])
  {
    if |seps| == 0 then None
    else if |seps[0]| > 0 && StartsWith(s, seps[0]) then Some(0)
    else match SeparatorAt(s, seps[1..])
      case None => None
      case Some(k) => Some(k + 1)
  }

  /**
   * `s.Split(seps, StringSplitOptions.None)`: scanning left to right, the
   * first separator (in array order) found at a position ends the current
   * piece and is skipped.
   */
  function SplitAny(s: string, seps: seq<string>): (r: seq<string>)
    ensures |r| >= 1
    decreases |s|
  {
    if s == [] then [""]
    else match SeparatorAt(s, seps)
      case Some(k) => [""] + SplitAny(s[|seps[k]|..], seps)
      case None =>
        var rest := SplitAny(s[1..], seps);
        [[s[0]] + rest[0]] + rest[1..]
  }

  /** Splitting on a single one-character separator string is splitting on that character. */
  lemma {:induction false} SplitAnyOneChar(s: string, c: char)
    ensures SplitAny(s, [[c]]) == Split(s, c)
    decreases |s|
  {
    if s != [] {
      SplitAnyOneChar(s[1..], c);
      if s[0] == c {
        assert SeparatorAt(s, [[c]]) == Some(0);
      } else {
        assert !StartsWith(s, [c]);
        assert SeparatorAt(s, [[c]]) == None;
      }
    }
  }

  /** `String.JoinWith("", parts)` — and `String.Concat(parts)`. */
  function Concat(parts: seq<string>): (r: string)
    ensures |r| == 0 <==> forall i :: 0 <= i < |parts| ==> |parts[i]| == 0
    decreases |parts|
  {
    if |parts| == 0 then "" else
      var r := parts[0] + Concat(parts[1..]);
      assert |r| == 0 ==> forall i :: 0 <= i < |parts| ==> |parts[i]| == 0 by {
        if |r| == 0 {
          forall i | 0 <= i < |parts| ensures |parts[i]| == 0 {
            if i > 0 { assert parts[i] == parts[1..][i - 1]; }
          }
        }
      }
      r
  }

  /** `s.Replace(oldValue, newValue)`: every non-overlapping occurrence of `oldValue`, left to right. */
  function Replace(s: string, oldValue: string, newValue: string): (r: Result<string>)
    ensures r.Failure? <==> oldValue == ""
    ensures r.Success? && !Contains(s, oldValue) ==> r.value == s
  {
    if oldValue == "" then Failure(EmptyOldValue) else Success(ReplaceAll(s, oldValue, newValue))
  }

  function ReplaceAll(s: string, oldValue: string, newValue: string): (r: string)
    requires oldValue != ""
    ensures !Contains(s, oldValue) ==> r == s
    decreases |s|
  {
    if |s| == 0 then s
    else if StartsWith(s, oldValue) then newValue + ReplaceAll(s[|oldValue|..], oldValue, newValue)
    else [s[0]] + ReplaceAll(s[1..], oldValue, newValue)
  }

  /** Replacing a whole non-empty text by nothing leaves nothing. */
  lemma ReplaceWhole(s: string)
    requires s != ""
    ensures Replace(s, s, "") == Success("")
  {
    assert StartsWith(s, s) && s[|s|..] == "";
    assert ReplaceAll(s, s, "") == "" + ReplaceAll("", s, "");
  }

  /** `s.Insert(k, x)`. */
  function Insert(s: string, k: nat, x: string): (r: string)
    requires k <= |s|
    ensures |r| == |s| + |x| && r[..k] == s[..k] && r[k..k + |x|] == x && r[k + |x|..] == s[k..]
  {
    s[..k] + x + s[k..]
  }

  // ---------------------------------------------------------------- lists of strings

  /** A prefix one longer is the shorter prefix and the next element. */
  lemma TakeOneMore<T>(s: seq<T>, k: nat, k1: nat)
    requires k1 + 1 == k <= |s|
    ensures s[..k] == s[..k1] + [s[k1]]
  {
  }

  /** A whole made of two parts equals any target made of equal parts. */
  lemma JoinedAs<T>(whole: seq<T>, left: seq<T>, right: seq<T>, l: seq<T>, r: seq<T>, target: seq<T>)
    requires whole == left + right && left == l && right == r && target == l + r
    ensures whole == target
  {
  }

  /** Concatenation regroups freely. */
  lemma Regrouped<T>(a: seq<T>, b: seq<T>, c: seq<T>)
    ensures (a + b) + c == a + (b + c)
  {
  }

  /** `list.IndexOf(x)`: the first position of `x`, or -1. */
  function IndexOf<T(==)>(xs: seq<T>, x: T): (r: int)
    ensures -1 <= r < |xs|
    ensures r == -1 <==> x !in xs
    ensures r >= 0 ==> xs[r] == x && x !in xs[..r]
  {
    if |xs| == 0 then -1
    else if xs[0] == x then 0
    else
      var k := IndexOf(xs[1..], x);
      if k == -1 then -1 else
        assert xs[1..][..k] == xs[1..k + 1];
        k + 1
  }

  /** `list.Remove(x)`: drop the first occurrence of `x`, if any. */
  function RemoveFirst<T(==)>(xs: seq<T>, x: T): (r: seq<T>)
    ensures x !in xs ==> r == xs
    ensures x in xs ==> |r| == |xs| - 1 && exists k :: 0 <= k < |xs| && xs[k] == x && x !in xs[..k] && r == xs[..k] + xs[k + 1..]
  {
    var k := IndexOf(xs, x);
    if k == -1 then xs else xs[..k] + xs[k + 1..]
  }
}
